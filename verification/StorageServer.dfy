/** The storage server (`ss.c`) with its tables updated in place.  Every handler is proved to be
    the step of StoreSteps.dfy on the server's abstract value. */
module StorageServers {
  import opened Wrappers
  import opened Text
  import opened Printer
  import opened Insertion
  import opened Merge
  import opened FileContents
  import opened StoreSteps

  /** One copy loop of the merge: at most `count` sentences from `lo` on. */
  method CopySentences(before: seq<Sentence>, ss: seq<Sentence>, lo: nat, count: int) returns (copied: seq<Sentence>)
    ensures copied == before + Slice(ss, lo, count)
  {
    copied := before;
    var i := 0;
    while i < count && lo + i < |ss|
      invariant 0 <= i && (i == 0 || i <= count) && (i == 0 || lo + i <= |ss|)
      invariant copied == before + Slice(ss, lo, i)
    {
      SliceStep(before, ss, lo, i);
      copied := copied + [ss[lo + i]];
      i := i + 1;
    }
  }

  lemma SliceStep(before: seq<Sentence>, ss: seq<Sentence>, lo: nat, i: nat)
    requires lo + i < |ss|
    ensures before + Slice(ss, lo, i) + [ss[lo + i]] == before + Slice(ss, lo, i + 1)
  {
    assert ss[lo..lo + i] + [ss[lo + i]] == ss[lo..lo + i + 1];
  }

  /** The merge proper: the main file's sentences around the slice of the session's file. */
  method MergeSentences(main: seq<Sentence>, temp: seq<Sentence>, idx: nat, original: nat)
    returns (merged: seq<Sentence>)
    requires main != [] && 0 <= AdjustedIndex(|main|, idx, original) < |main|
    ensures merged == Merged(main, temp, idx, original)
  {
    var adjusted := idx + (|main| - original);
    var modified := 1 + (|temp| - original);
    merged := CopySentences([], main, 0, adjusted);
    merged := CopySentences(merged, temp, idx, modified);
    merged := CopySentences(merged, main, adjusted + 1, |main| - adjusted - 1);
    MergedIs(main, temp, idx, original);
  }

  lemma MergedIs(main: seq<Sentence>, temp: seq<Sentence>, idx: nat, original: nat)
    requires main != [] && 0 <= AdjustedIndex(|main|, idx, original) < |main|
    ensures var p := AdjustedIndex(|main|, idx, original);
      Merged(main, temp, idx, original)
      == [] + Slice(main, 0, p) + Slice(temp, idx, 1 + (|temp| - original)) + Slice(main, p + 1, |main| - p - 1)
  {
    hide Slice;
    var p, x := AdjustedIndex(|main|, idx, original), Slice(temp, idx, 1 + (|temp| - original));
    SliceFront(main, p);
    SliceBack(main, p + 1);
    assert 1 + |temp| - original == 1 + (|temp| - original);
    assert [] + main[..p] == main[..p];
    assert Merged(main, temp, idx, original) == main[..p] + x + main[p + 1..];
  }

  lemma SliceFront(main: seq<Sentence>, p: nat)
    requires p <= |main|
    ensures Slice(main, 0, p) == main[..p]
  {}

  lemma SliceBack(main: seq<Sentence>, p: nat)
    requires p <= |main|
    ensures Slice(main, p, |main| - p) == main[p..]
  {}

  class StorageServer {
    var files: map<string, string>
    var undo: map<string, string>
    var checkpoints: map<(string, string), string>
    var temps: map<Key, string>
    var locks: map<string, seq<SentenceLock>>
    const sessions: array<WriteSession>
    var sessionCount: nat
    var queues: map<string, seq<CommitEntry>>

    predicate Valid()
      reads this, sessions
    {
      sessions.Length == MAX_SESSIONS && sessionCount <= MAX_SESSIONS
    }

    function View(): Store
      requires Valid()
      reads this, sessions
    {
      Store(files, undo, checkpoints, temps, locks, sessions[..sessionCount], queues)
    }

    constructor ()
      ensures Valid() && fresh(sessions) && View() == EMPTY
    {
      files, undo, checkpoints, temps, locks, queues := map[], map[], map[], map[], map[], map[];
      sessions := new WriteSession[MAX_SESSIONS](_ => WriteSession(Key("", "", 0), 0));
      sessionCount := 0;
    }

    /* ---- Locks ---- */

    /** `init_file_locks` */
    method InitFileLocks(f: string, count: nat)
      requires Valid()
      modifies this`locks
      ensures Valid() && View() == InitLocks(old(View()), f, count)
    {
      var n := if count == 0 then 1 else count;
      var ls := if f in locks then locks[f] else [];
      ghost var before := ls;
      if |ls| < n {
        var j := |ls|;
        while j < n
          invariant |before| <= j <= n
          invariant ls == before + seq(j - |before|, _ => FREE)
        {
          ls := ls + [FREE];
          j := j + 1;
        }
      }
      locks := locks[f := ls];
      assert ls == GrownLocks(LocksOf(old(View()), f), count);
    }

    /** `lock_sentence_ss` */
    method LockSentenceSs(f: string, i: nat, user: string) returns (status: int)
      requires Valid()
      modifies this`locks
      ensures Valid() && Reply(View(), status) == LockSentence(old(View()), f, i, user)
    {
      hide GrownLocks;
      InitFileLocks(f, i + 1);
      var lock := locks[f][i];
      if lock.locked && lock.holder != user {
        return ERR_SENTENCE_LOCKED;
      }
      locks := locks[f := locks[f][i := SentenceLock(true, user)]];
      return SUCCESS;
    }

    /** `unlock_sentence_ss` */
    method UnlockSentenceSs(f: string, i: int, user: string) returns (status: int)
      requires Valid()
      modifies this`locks
      ensures Valid() && Reply(View(), status) == UnlockSentence(old(View()), f, i, user)
    {
      if f !in locks || i < 0 || i >= |locks[f]| {
        return ERR_INVALID_INDEX;
      }
      var lock := locks[f][i];
      if !lock.locked || lock.holder != user {
        return ERR_ACCESS_DENIED;
      }
      locks := locks[f := locks[f][i := FREE]];
      return SUCCESS;
    }

    /* ---- Sessions ---- */

    /** The search loop of `get_write_session`. */
    method FindWriteSession(k: Key) returns (i: nat)
      requires Valid()
      ensures i == FindSession(View().sessions, k)
    {
      ghost var ss := View().sessions;
      i := 0;
      while i < sessionCount
        invariant i <= sessionCount
        invariant forall j | 0 <= j < i :: sessions[j].key != k
      {
        if sessions[i].key == k {
          break;
        }
        i := i + 1;
      }
      ghost var n := FindSession(ss, k);
      assert forall j | 0 <= j < |ss| :: ss[j] == sessions[j];
      assert n < |ss| ==> ss[n].key == k;
    }

    /** The compaction loop of `remove_write_session` and `commit_write_session_ss`. */
    method CompactSessions(i: nat)
      requires Valid() && i < sessionCount
      modifies this`sessionCount, sessions
      ensures Valid() && sessionCount == old(sessionCount) - 1
      ensures sessions[..sessionCount] == old(sessions[..i]) + old(sessions[i + 1..sessionCount])
    {
      var j := i;
      while j < sessionCount - 1
        invariant i <= j <= sessionCount - 1 && sessionCount == old(sessionCount)
        invariant forall x | 0 <= x < i || j < x < sessionCount :: sessions[x] == old(sessions[x])
        invariant forall x | i <= x < j :: sessions[x] == old(sessions[x + 1])
      {
        sessions[j] := sessions[j + 1];
        j := j + 1;
      }
      sessionCount := sessionCount - 1;
    }

    /** `remove_write_session` */
    method RemoveWriteSession(k: Key)
      requires Valid()
      modifies this`sessionCount, this`temps, sessions
      ensures Valid()
      ensures View() == (if HasSession(old(View()), k)
        then old(View()).(sessions := RemoveSession(old(View()).sessions, k), temps := old(temps) - {k})
        else old(View()))
    {
      hide FindSession;
      var i := FindWriteSession(k);
      if i < sessionCount {
        assert old(View()).sessions[..i] == sessions[..i];
        assert old(View()).sessions[i + 1..] == sessions[i + 1..sessionCount];
        temps := temps - {k};
        CompactSessions(i);
      }
    }

    /** `start_write_session_ss` */
    method StartWriteSession(k: Key) returns (status: int)
      requires Valid()
      modifies this`sessionCount, this`temps, sessions
      ensures Valid()
      ensures var r := StartSession(old(View()), k);
        && status == (if r.Some? then SUCCESS else ERR_SERVER_ERROR)
        && View() == if r.Some? then r.value else old(View())
    {
      hide FindSession;
      var file := if k.file in files then Some(files[k.file]) else None;
      var fc := new FileContent();
      var parsed := fc.ParseFile(file);
      var original := if parsed == 0 then fc.sentenceCount else 0;
      assert original == |Sentences(Lookup(old(View()).files, k.file))|;
      hide Sentences;
      var i := FindWriteSession(k);
      if i == sessionCount {
        if sessionCount >= MAX_SESSIONS {
          return ERR_SERVER_ERROR;
        }
        sessionCount := sessionCount + 1;
      }
      sessions[i] := WriteSession(k, original);
      temps := temps[k := if file.Some? then file.value else ""];
      ghost var before := old(View()).sessions;
      assert sessions[..sessionCount] ==
        if i < |before| then before[i := WriteSession(k, original)] else before + [WriteSession(k, original)];
      return SUCCESS;
    }

    /* ---- Commits ---- */

    /** `enqueue_commit` */
    method EnqueueCommit(e: CommitEntry) returns (status: int)
      requires Valid()
      modifies this`queues
      ensures Valid()
      ensures var r := Enqueue(old(View()), e);
        && status == (if r.Some? then 0 else -1)
        && View() == if r.Some? then r.value else old(View())
    {
      var f := e.key.file;
      if f !in queues {
        if |queues| >= MAX_FILE_QUEUES {
          return -1;
        }
        queues := queues[f := []];
      }
      queues := queues[f := queues[f] + [e]];
      assert [] + [e] == [e];
      return 0;
    }

    /** One round of the loop of `process_commit_queue`: parse the main file and the session's
        copy, relocate the sentence, merge, and write back. */
    method ProcessOne(f: string, e: CommitEntry)
      requires Valid()
      modifies this`files, this`temps
      ensures Valid() && View() == ProcessEntry(old(View()), f, e)
    {
      hide Print, Parse;
      ghost var s := View();
      var main := if f in files then Some(files[f]) else None;
      var temp := if e.key in temps then Some(temps[e.key]) else None;
      assert main == Lookup(s.files, f) && temp == Lookup(s.temps, e.key);
      temps := temps - {e.key};
      var idx := if e.key.idx < 0 then 0 else e.key.idx;
      var result := MergeTexts(main, idx, e.original, temp);
      if result.Some? {
        files := files[f := result.value];
      }
    }

    /** `create_undo_backup` */
    method CreateUndoBackup(f: string)
      requires Valid()
      modifies this`undo
      ensures Valid() && View() == Backup(old(View()), f)
    {
      if f in files {
        undo := undo[f := files[f]];
      }
    }

    /** `process_commit_queue` */
    method ProcessCommitQueue(f: string)
      requires Valid() && f in queues
      modifies this`files, this`temps, this`undo, this`queues
      ensures Valid() && View() == ProcessQueue(old(View()), f)
    {
      hide ApplyCommit, ProcessEntry;
      if queues[f] != [] {
        CreateUndoBackup(f);
      }
      ghost var s0 := View();
      ghost var goal := ProcessEntries(s0, f, queues[f]);
      while queues[f] != []
        invariant Valid() && f in queues
        invariant queues == s0.queues[f := queues[f]]
        invariant ProcessEntries(View().(queues := s0.queues), f, queues[f]) == goal
        decreases |queues[f]|
      {
        var e := queues[f][0];
        ghost var s := View();
        ProcessOne(f, e);
        EntryIgnoresQueues(s, f, e, s0.queues);
        queues := queues[f := queues[f][1..]];
      }
    }

    /** `commit_write_session_ss` */
    method CommitWriteSession(k: Key) returns (status: int)
      requires Valid()
      modifies this, sessions
      ensures Valid() && Reply(View(), status) == CommitSession(old(View()), k)
    {
      hide FindSession, ProcessQueue, Backup;
      ghost var s := View();
      var i := FindWriteSession(k);
      if i == sessionCount {
        return SUCCESS;
      }
      assert s.sessions[i] == sessions[i];
      var e := CommitEntry(k, sessions[i].original);
      var queued := EnqueueCommit(e);
      if queued != 0 {
        RemoveWriteSession(k);
        return ERR_SERVER_ERROR;
      }
      assert s.sessions[..i] == sessions[..i] && s.sessions[i + 1..] == sessions[i + 1..sessionCount];
      CompactSessions(i);
      assert View() == Enqueue(s, e).value.(sessions := RemoveSession(s.sessions, k));
      ProcessCommitQueue(k.file);
      return SUCCESS;
    }

    /* ---- Requests ---- */

    method LockRequest(k: Key) returns (status: int)
      requires Valid()
      modifies this, sessions
      ensures Valid() && Reply(View(), status) == HandleLock(old(View()), k)
    {
      hide LockSentence, StartSession, UnlockSentence, Parse;
      var file := if k.file in files then Some(files[k.file]) else None;
      var fc := new FileContent();
      var parsed := fc.ParseFile(file);
      var ss := fc.Contents();
      assert file == Lookup(old(View()).files, k.file) && ss == Sentences(file);
      var invalid := false;
      if |ss| == 0 {
        invalid := k.idx != 0;
      } else if k.idx < 0 || k.idx > |ss| {
        invalid := true;
      } else if k.idx == |ss| {
        var last := ss[|ss| - 1];
        if |last| == 0 {
          invalid := true;
        } else {
          var word := last[|last| - 1];
          invalid := !(IsDelimiterToken(word) || IsNewlineToken(word));
        }
      }
      if invalid {
        return ERR_INVALID_INDEX;
      }
      status := LockSentenceSs(k.file, k.idx, k.user);
      if status == SUCCESS {
        var started := StartWriteSession(k);
        if started != SUCCESS {
          var _ := UnlockSentenceSs(k.file, k.idx, k.user);
          status := started;
        }
      }
    }

    /** `write_file_ss` */
    method WriteRequest(k: Key, word: int, content: string) returns (status: int)
      requires Valid() && RunsFit(content, Letter)
      modifies this`temps
      ensures Valid() && Reply(View(), status) == HandleWrite(old(View()), k, word, content)
    {
      hide Parse, Print, Insert, FindSession, RunsFit;
      var i := FindWriteSession(k);
      if i == sessionCount {
        return ERR_INVALID_OPERATION;
      }
      var temp := if k in temps then Some(temps[k]) else None;
      assert temp == Lookup(old(View()).temps, k);
      var fc := new FileContent();
      var parsed := fc.ParseFile(temp);
      if parsed != 0 || fc.sentenceCount == 0 {
        fc.sentences, fc.sentenceCount := [[]], 1;
      }
      assert fc.Contents() == Loaded(temp);
      if k.idx < 0 || k.idx > fc.sentenceCount {
        InsertFails(Loaded(temp), k.idx, word, content);
        return ERR_INVALID_INDEX;
      }
      var created := fc.InsertWordInSentence(k.idx, word, content);
      if created < 0 {
        return ERR_INVALID_INDEX;
      }
      var text := fc.WriteFileContent();
      temps := temps[k := text];
      return SUCCESS;
    }

    method UnlockRequest(k: Key) returns (status: int)
      requires Valid()
      modifies this, sessions
      ensures Valid() && Reply(View(), status) == HandleUnlock(old(View()), k)
    {
      hide CommitSession, UnlockSentence;
      var committed := CommitWriteSession(k);
      status := UnlockSentenceSs(k.file, k.idx, k.user);
      if committed != SUCCESS {
        status := committed;
      }
    }

    method CancelRequest(k: Key) returns (status: int)
      requires Valid()
      modifies this, sessions
      ensures Valid() && Reply(View(), status) == HandleCancel(old(View()), k)
    {
      hide UnlockSentence, RemoveSession, FindSession;
      var i := FindWriteSession(k);
      if i < sessionCount {
        RemoveWriteSession(k);
      }
      status := UnlockSentenceSs(k.file, k.idx, k.user);
    }

    /** `restore_from_undo`, behind its existence check. */
    method UndoRequest(f: string) returns (status: int)
      requires Valid()
      modifies this`files, this`undo
      ensures Valid() && Reply(View(), status) == HandleUndo(old(View()), f)
    {
      if f !in undo {
        return ERR_INVALID_OPERATION;
      }
      files := files[f := undo[f]];
      undo := undo - {f};
      return SUCCESS;
    }

    /** `create_file_ss` */
    method CreateRequest(f: string) returns (status: int)
      requires Valid()
      modifies this`files, this`locks
      ensures Valid() && Reply(View(), status) == HandleCreate(old(View()), f)
    {
      if f in files {
        return ERR_FILE_EXISTS;
      }
      files := files[f := ""];
      InitFileLocks(f, 1);
      return SUCCESS;
    }

    /** `delete_file_ss` */
    method DeleteRequest(f: string) returns (status: int)
      requires Valid()
      modifies this`files, this`undo
      ensures Valid() && Reply(View(), status) == HandleDelete(old(View()), f)
    {
      if f !in files {
        return ERR_FILE_NOT_FOUND;
      }
      files := files - {f};
      undo := undo - {f};
      return SUCCESS;
    }

    /** `create_checkpoint` */
    method CheckpointRequest(f: string, tag: string) returns (status: int)
      requires Valid()
      modifies this`checkpoints
      ensures Valid() && Reply(View(), status) == HandleCheckpoint(old(View()), f, tag)
    {
      if (f, tag) in checkpoints {
        return ERR_FILE_EXISTS;
      }
      if f !in files {
        return ERR_FILE_NOT_FOUND;
      }
      checkpoints := checkpoints[(f, tag) := files[f]];
      return SUCCESS;
    }

    /** `revert_to_checkpoint` */
    method RevertRequest(f: string, tag: string) returns (status: int)
      requires Valid()
      modifies this`files, this`undo
      ensures Valid() && Reply(View(), status) == HandleRevert(old(View()), f, tag)
    {
      if (f, tag) !in checkpoints {
        return ERR_FILE_NOT_FOUND;
      }
      CreateUndoBackup(f);
      files := files[f := checkpoints[(f, tag)]];
      return SUCCESS;
    }
  }

  lemma EntryIgnoresQueues(s: Store, f: string, e: CommitEntry, q: map<string, seq<CommitEntry>>)
    ensures ProcessEntry(s.(queues := q), f, e) == ProcessEntry(s, f, e).(queues := q)
  {}

  /** Parse both files and merge; `None` when there is nothing to write back and no file. */
  method MergeTexts(main: Option<string>, idx: nat, original: nat, temp: Option<string>) returns (result: Option<string>)
    ensures result == ApplyCommit(main, idx, original, temp)
  {
    hide Parse, Print, Merged;
    var mainFc := new FileContent();
    var mainParsed := mainFc.ParseFile(main);
    var current := if mainParsed == 0 then mainFc.sentenceCount else 0;
    var tempFc := new FileContent();
    var tempParsed := tempFc.ParseFile(temp);
    if tempParsed != 0 {
      return main;
    }
    var adjusted := idx + (current - original);
    if current == 0 && original == 0 && adjusted == 0 {
    } else if adjusted < 0 || adjusted >= current {
      return main;
    }
    var merged;
    if current == 0 {
      merged := tempFc.Contents();
      MergeEmpty(merged, idx, original);
    } else {
      merged := MergeSentences(mainFc.Contents(), tempFc.Contents(), idx, original);
    }
    mainFc.sentences, mainFc.sentenceCount := merged, |merged|;
    assert mainFc.Contents() == merged;
    var text := mainFc.WriteFileContent();
    return Some(text);
  }

  lemma MergeEmpty(temp: seq<Sentence>, idx: nat, original: nat)
    requires CommitInRange(0, idx, original)
    ensures Merged([], temp, idx, original) == temp
  {}
}
