/** What each request to the storage server answers and changes, and what that means for the life of
    a file: stated on files, copies and sessions, with the numbers and characters written out. */
module StoreLaws {
  import opened Wrappers
  import opened Text
  import opened Printer
  import opened Insertion
  import opened Merge
  import opened Session
  import opened StoreSteps
  import opened Protocol
  import opened Concurrent
  import opened Layout

  /** LOCK makes room for the locks up to its index, if that passes, and no more. */
  lemma LockRoom(s: Store, k: Key, g: string, i: int)
    requires Inv(s)
    ensures LockExists(Step(s, Lock(k)).store, g, i) <==>
      LockExists(s, g, i) || (Lockable(TextIn(s, k.file), k.idx) && g == k.file && 0 <= i <= k.idx)
  {
    hide Lockable, Sentences, FindSession, GrownLocks, Inv, HeldBy, InitLocks, LockSentence, UnlockSentence;
    LockableIs(s, k);
    if Lockable(TextIn(s, k.file), k.idx) {
      LockInside(s, k);
      RoomFor(s, k.file, k.idx + 1);
      var l := LockSentence(s, k.file, k.idx, k.user).store;
      SameRoom(s, k.file, k.idx, k.user, g, i);
      StartFrame(l, k);
      UnlockRoom(l, k.file, k.idx, k.user, g, i);
    }
  }

  lemma SameRoom(s: Store, f: string, idx: nat, u: string, g: string, i: int)
    ensures LockExists(LockSentence(s, f, idx, u).store, g, i) <==> LockExists(InitLocks(s, f, idx + 1), g, i)
  {
    hide GrownLocks;
  }

  lemma UnlockRoom(s: Store, f: string, idx: int, u: string, g: string, i: int)
    ensures LockExists(UnlockSentence(s, f, idx, u).store, g, i) <==> LockExists(s, g, i)
  {}

  lemma LockInside(s: Store, k: Key)
    requires LockAllowed(Sentences(Lookup(s.files, k.file)), k.idx)
    ensures k.idx >= 0
  {
    hide Parse;
  }

  /** The text of a file; a missing one counts as empty. */
  function TextIn(s: Store, f: string): string {
    if f in s.files then s.files[f] else ""
  }

  lemma TextSentences(s: Store, f: string)
    ensures Sentences(Lookup(s.files, f)) == Parse(TextIn(s, f))
    ensures Parse(TextIn(s, f)) == [] <==> TextIn(s, f) == ""
  {
    hide Parse;
    EmptyParse();
    if TextIn(s, f) != "" { LoadedEnd(TextIn(s, f)); }
  }

  /** The sentence can be locked: one that is there, or the one past a text that ends in a delimiter or
      a newline; in an empty or missing file the first. */
  predicate Lockable(text: string, idx: int) {
    if text == "" then idx == 0
    else
      var last := text[|text| - 1];
      0 <= idx < |Parse(text)|
      || (idx == |Parse(text)| && (last == '.' || last == '!' || last == '?' || last == '\n'))
  }

  ghost predicate HeldByOther(s: Store, k: Key) {
    exists u :: u != k.user && HasSession(s, Key(k.file, u, k.idx))
  }

  lemma LockableIs(s: Store, k: Key)
    ensures LockAllowed(Sentences(Lookup(s.files, k.file)), k.idx) <==> Lockable(TextIn(s, k.file), k.idx)
  {
    hide Parse;
    var text := TextIn(s, k.file);
    TextSentences(s, k.file);
    if text != "" { AppendLockAllowed(text); }
  }

  /** LOCK's answer, for every file and index. */
  lemma LockAnswers(s: Store, k: Key)
    requires Inv(s)
    ensures Step(s, Lock(k)).status ==
      if !Lockable(TextIn(s, k.file), k.idx) then 400
      else if HeldByOther(s, k) then 423
      else if HasSession(s, k) || |s.sessions| < 1000 then 200
      else 500
  {
    hide Lockable, Parse, Sentences, FindSession, UnlockSentence, GrownLocks, Inv;
    LockableIs(s, k);
    LockGranted(s, k);
    OthersHold(s, k);
    if Lockable(TextIn(s, k.file), k.idx) { LockFails(s, k); }
  }

  lemma OthersHold(s: Store, k: Key)
    requires Inv(s)
    ensures HeldByOther(s, k) <==> exists u :: u != k.user && HeldBy(s, k.file, k.idx, u)
  {
    hide HasSession, HeldBy;
    assert forall u :: HasSession(s, Key(k.file, u, k.idx)) <==> HeldBy(s, k.file, k.idx, u);
  }

  lemma LockFails(s: Store, k: Key)
    requires Inv(s) && LockAllowed(Sentences(Lookup(s.files, k.file)), k.idx)
    ensures Step(s, Lock(k)).status in {200, 423, 500}
    ensures Step(s, Lock(k)).status == 423 <==> exists u :: u != k.user && HeldBy(s, k.file, k.idx, u)
  {
    hide Sentences, FindSession, Inv, GrownLocks, UnlockSentence, HasSession;
    var s1 := InitLocks(s, k.file, k.idx + 1);
    InitLocksEffect(s, k.file, k.idx + 1);
    LockHolders(s1, k.file, k.idx);
    var lock := s1.locks[k.file][k.idx];
    if lock.locked && lock.holder != k.user {
      assert HeldBy(s1, k.file, k.idx, lock.holder);
    }
  }

  /** What LOCK changes: on success it opens the session on a copy of the text, and in any case nothing
      else but the room for locks. */
  lemma LockChanges(s: Store, k: Key, k': Key)
    requires Inv(s)
    ensures var r := Step(s, Lock(k)); var s' := r.store;
      && s'.files == s.files && s'.undo == s.undo && s'.checkpoints == s.checkpoints && s'.queues == s.queues
      && (r.status == 200 ==>
            && HasSession(s', k) && SessionOf(s', k).original == |Parse(TextIn(s, k.file))|
            && Lookup(s'.temps, k) == Some(TextIn(s, k.file)))
      && (r.status != 200 || k' != k ==> SameSession(s, s', k'))
  {
    hide FindSession, LockSentence, UnlockSentence, Sentences, HeldBy, Distinct, Parse, HasSession, SessionOf;
    TextSentences(s, k.file);
    LockSessions(s, k, k');
    if Step(s, Lock(k)).status == 200 { LockOpens(s, k); }
    if LockAllowed(Sentences(Lookup(s.files, k.file)), k.idx) {
      LockEffect(s, k.file, k.idx, k.user);
      var l := LockSentence(s, k.file, k.idx, k.user).store;
      StartFrame(l, k);
      UnlockEffect(l, k.file, k.idx, k.user);
    }
  }

  /** The index is that of a sentence of the text, or the next; an empty text has one empty sentence.
      The word position is between the front and the end of that sentence. */
  predicate Writable(text: string, idx: int, word: int) {
    var ss := Parse(text);
    && 0 <= idx <= (if text == "" then 1 else |ss|)
    && 1 <= word <= Visible(if idx < |ss| then ss[idx] else []) + 1
  }

  /** WRITE needs an open session, and a place in its copy; it changes the copy and nothing else. */
  lemma WriteAnswers(s: Store, k: Key, word: int, content: string)
    requires Inv(s)
    ensures var r := Step(s, Write(k, word, content));
      if !HasSession(s, k) then r == Reply(s, 405)
      else
        && k.idx >= 0 && k in s.temps
        && if Writable(s.temps[k], k.idx, word)
           then
             && r.status == 200 && k in r.store.temps
             && WriteText(Some(s.temps[k]), k.idx, word, content) == Some(r.store.temps[k])
             && r.store == s.(temps := s.temps[k := r.store.temps[k]])
           else r == Reply(s, 400)
  {
    hide Inv, HasSession, WriteText, Writable;
    if HasSession(s, k) {
      HasNatIndex(s, k);
      WriteRange(s.temps[k], k.idx, word, content);
    }
  }

  lemma WriteRange(text: string, idx: nat, word: int, content: string)
    ensures WriteText(Some(text), idx, word, content).Some? <==> Writable(text, idx, word)
  {
    hide Parse, Print, Tokens, Spliced, Visible;
    EmptyParse();
    LoadedParse(Some(text));
    ParseIsDocument(text);
    var ss := Loaded(Some(text));
    if idx <= |ss| {
      var slots := Slots(ss, idx);
      NothingVisible();
      assert slots[idx] == if idx < |Parse(text)| then Parse(text)[idx] else [];
      VisibleIs(slots[idx]);
    }
  }

  lemma NothingVisible()
    ensures Visible([]) == 0 && TokensOk([])
  {}

  /** The UNLOCK commits a session: it is the holder's, and a queue is there or one of the 100 is free. */
  predicate Commits(s: Store, k: Key) {
    HasSession(s, k) && (k.file in s.queues || |s.queues| < 100)
  }

  /** UNLOCK closes the caller's session and drops its copy, whether it commits or not; it answers
      success exactly when it commits.  Nobody else's UNLOCK does anything. */
  lemma UnlockAnswers(s: Store, k: Key, k': Key)
    requires Inv(s)
    ensures var r := Step(s, Unlock(k)); var s' := r.store;
      && (r.status == 200 <==> Commits(s, k))
      && (if HasSession(s, k) then r.status in {200, 500} && k !in s'.temps
          else r.status == (if LockExists(s, k.file, k.idx) then 403 else 400) && s'.temps == s.temps)
      && !HasSession(s', k)
      && (k' != k ==> SameSession(s, s', k'))
  {
    hide Inv, CommitSession, UnlockSentence, SessionOf, HasSession, SameSession;
    UnlockSessions(s, k, k');
    UnlockSessions(s, k, k);
    UnlockEffect(CommitSession(s, k).store, k.file, k.idx, k.user);
    if HasSession(s, k) {
      UnlockOutcome(s, k);
      CommitUndo(s, k);
    } else {
      NoCommit(s, k);
      UnlockStatus(s, k);
    }
  }

  /** What it changes besides: the text of its file, with the text before kept for UNDO, if it commits. */
  lemma UnlockChanges(s: Store, k: Key)
    requires Inv(s)
    ensures var s', f := Step(s, Unlock(k)).store, k.file;
      && (forall g | g != f || !Commits(s, k) :: Lookup(s'.files, g) == Lookup(s.files, g))
      && s'.undo == (if Commits(s, k) && f in s.files then s.undo[f := s.files[f]] else s.undo)
      && s'.checkpoints == s.checkpoints
      && s'.queues.Keys == (if Commits(s, k) then s.queues.Keys + {f} else s.queues.Keys)
  {
    hide Inv, CommitSession, UnlockSentence, SessionOf, HasSession, ApplyCommit;
    UnlockEffect(CommitSession(s, k).store, k.file, k.idx, k.user);
    CommitFrame(s, k);
    if HasSession(s, k) {
      UnlockOutcome(s, k);
      CommitUndo(s, k);
    } else {
      NoCommit(s, k);
      UnlockStatus(s, k);
    }
  }

  /** Nothing but locks, sessions and copies differs. */
  predicate SameStore(s: Store, s': Store) {
    s'.files == s.files && s'.undo == s.undo && s'.checkpoints == s.checkpoints && s'.queues == s.queues
  }

  lemma UnlockStatus(s: Store, k: Key)
    requires Inv(s) && !HasSession(s, k)
    ensures UnlockSentence(s, k.file, k.idx, k.user).status == if LockExists(s, k.file, k.idx) then 403 else 400
    ensures UnlockSentence(s, k.file, k.idx, k.user).store == s
  {
    hide HasSession;
    assert !HeldBy(s, k.file, k.idx, k.user);
  }

  /** What a commit keeps for UNDO, and that the copy is gone. */
  lemma CommitUndo(s: Store, k: Key)
    requires Inv(s) && HasSession(s, k)
    ensures var r := CommitSession(s, k).store;
      && k !in r.temps
      && r.undo == if QueueFree(s, k.file) && k.file in s.files then s.undo[k.file := s.files[k.file]] else s.undo
  {
    hide ApplyCommit, Sentences, HeldBy, Distinct, RemoveSession, HasSession, FindSession;
    var e := CommitEntry(k, SessionOf(s, k).original);
    if QueueFree(s, k.file) {
      EnqueueFree(s, e);
      CommitIs(s, k, s.queues[k.file := [e]]);
      var s1 := s.(queues := s.queues[k.file := [e]], sessions := RemoveSession(s.sessions, k));
      var b := Backup(s1, k.file);
      assert ProcessEntries(b, k.file, [e]) == ProcessEntry(b, k.file, e) by {
        assert [e][1..] == [];
      }
    } else {
      CommitMerges(s, k);
    }
  }

  /** CANCEL drops the caller's session and copy; nobody else's changes anything. */
  lemma CancelAnswers(s: Store, k: Key, k': Key)
    requires Inv(s)
    ensures var r := Step(s, Cancel(k)); var s' := r.store;
      && SameStore(s, s')
      && (HasSession(s, k) ==> r.status == 200 && s'.temps == s.temps - {k})
      && (!HasSession(s, k) ==> r.status == (if LockExists(s, k.file, k.idx) then 403 else 400) && s'.temps == s.temps)
      && !HasSession(s', k)
      && (k' != k ==> SameSession(s, s', k'))
  {
    hide UnlockSentence, FindSession, RemoveSession, Distinct, HasSession;
    CancelSessions(s, k, k);
    CancelSessions(s, k, k');
    var s1 := if HasSession(s, k)
      then s.(sessions := RemoveSession(s.sessions, k), temps := s.temps - {k}) else s;
    UnlockEffect(s1, k.file, k.idx, k.user);
    if HasSession(s, k) {
      HasNatIndex(s, k);
      HeldBySame(s, s1);
    } else {
      UnlockStatus(s, k);
    }
  }

  /* ---- The life of a file ---- */

  /** A request on whole files leaves sessions, copies and queues alone. */
  predicate SameSessions(s: Store, s': Store) {
    s'.sessions == s.sessions && s'.temps == s.temps && s'.queues == s.queues
  }

  /** CREATE succeeds exactly for a name without a file, which then has an empty one. */
  lemma CreateAnswers(s: Store, f: string)
    requires Inv(s)
    ensures var r := Step(s, Create(f));
      && r.status == (if f in s.files then 409 else 200)
      && Lookup(r.store.files, f) == (if f in s.files then Lookup(s.files, f) else Some(""))
      && (forall g | g != f :: Lookup(r.store.files, g) == Lookup(s.files, g))
      && SameSessions(s, r.store) && r.store.undo == s.undo && r.store.checkpoints == s.checkpoints
      && (forall g, i :: LockExists(r.store, g, i) <==> LockExists(s, g, i) || (g == f && i == 0 && f !in s.files))
  {
    hide Inv;
    if f !in s.files {
      InitLocksFrame(s.(files := s.files[f := ""]), f, 1);
      RoomFor(s.(files := s.files[f := ""]), f, 1);
    }
  }

  /** A file has locks up to the highest index asked for, and one at least. */
  lemma RoomFor(s: Store, f: string, count: nat)
    requires count > 0
    ensures forall g, i :: LockExists(InitLocks(s, f, count), g, i) <==> LockExists(s, g, i) || (g == f && 0 <= i < count)
  {}

  /** DELETE succeeds exactly for a file that is there.  The file is gone then, and so is what UNDO would
      bring back; checkpoints and open sessions stay. */
  lemma DeleteAnswers(s: Store, f: string)
    ensures var r := Step(s, Delete(f));
      && r.status == (if f in s.files then 200 else 404)
      && (f !in s.files ==> r.store == s)
      && f !in r.store.files
      && (forall g | g != f :: Lookup(r.store.files, g) == Lookup(s.files, g))
      && (f in s.files ==> f !in r.store.undo && Step(r.store, Undo(f)) == Reply(r.store, 405))
      && (forall g | g != f :: Lookup(r.store.undo, g) == Lookup(s.undo, g))
      && SameSessions(s, r.store) && r.store.locks == s.locks && r.store.checkpoints == s.checkpoints
  {}

  /** A file can be deleted and created anew, and is empty then. */
  lemma DeleteThenCreate(s: Store, f: string)
    requires Inv(s) && f in s.files
    ensures var s1 := Step(s, Delete(f)).store; var r := Step(s1, Create(f));
      r.status == 200 && Lookup(r.store.files, f) == Some("") && Step(r.store, Undo(f)).status == 405
  {
    hide Inv;
    DeleteAnswers(s, f);
    StepKeepsInv(s, Delete(f));
    CreateAnswers(Step(s, Delete(f)).store, f);
  }

  /** CHECKPOINT keeps the text under a tag that is not taken. */
  lemma CheckpointAnswers(s: Store, f: string, tag: string)
    ensures var r := Step(s, Checkpoint(f, tag));
      && r.status == (if (f, tag) in s.checkpoints then 409 else if f !in s.files then 404 else 200)
      && (forall c | c != (f, tag) :: Lookup(r.store.checkpoints, c) == Lookup(s.checkpoints, c))
      && Lookup(r.store.checkpoints, (f, tag))
         == (if (f, tag) in s.checkpoints then Lookup(s.checkpoints, (f, tag)) else Lookup(s.files, f))
      && SameSessions(s, r.store) && r.store.files == s.files && r.store.undo == s.undo && r.store.locks == s.locks
  {}

  /** REVERT brings the text under the tag back, also for a file that was deleted; the text before is
      kept for UNDO. */
  lemma RevertAnswers(s: Store, f: string, tag: string)
    ensures var r := Step(s, Revert(f, tag)); var known := (f, tag) in s.checkpoints;
      && r.status == (if known then 200 else 404)
      && Lookup(r.store.files, f) == (if known then Lookup(s.checkpoints, (f, tag)) else Lookup(s.files, f))
      && Lookup(r.store.undo, f) == (if known && f in s.files then Lookup(s.files, f) else Lookup(s.undo, f))
      && (forall g | g != f :: Lookup(r.store.files, g) == Lookup(s.files, g))
      && (forall g | g != f :: Lookup(r.store.undo, g) == Lookup(s.undo, g))
      && SameSessions(s, r.store) && r.store.checkpoints == s.checkpoints && r.store.locks == s.locks
  {}

  /** UNDO brings the kept text back and forgets it. */
  lemma UndoAnswers(s: Store, f: string)
    ensures var r := Step(s, Undo(f)); var known := f in s.undo;
      && r.status == (if known then 200 else 405)
      && Lookup(r.store.files, f) == (if known then Lookup(s.undo, f) else Lookup(s.files, f))
      && f !in r.store.undo
      && (forall g | g != f :: Lookup(r.store.files, g) == Lookup(s.files, g))
      && (forall g | g != f :: Lookup(r.store.undo, g) == Lookup(s.undo, g))
      && SameSessions(s, r.store) && r.store.checkpoints == s.checkpoints && r.store.locks == s.locks
  {}

  /** UNDO never has a text for a file that is not there. */
  predicate UndoBacked(s: Store) {
    forall f | f in s.undo :: f in s.files
  }

  /** The request makes a file `f` that is not there: CREATE, REVERT to a checkpoint, or the commit of a
      session that was opened on the empty or missing file. */
  ghost predicate Makes(s: Store, r: Request, f: string) {
    match r
    case Create(g) => g == f
    case Revert(g, tag) => g == f && (f, tag) in s.checkpoints
    case Unlock(k) =>
      k.file == f && Commits(s, k) && k.idx == 0 && SessionOf(s, k).original == 0
    case _ => false
  }

  /** Which files are there after a request. */
  lemma FilesAfter(s: Store, r: Request, f: string)
    requires Inv(s) && UndoBacked(s)
    ensures var s' := Step(s, r).store;
      (f in s'.files <==> (f in s.files && r != Delete(f)) || (f !in s.files && Makes(s, r, f)))
  {
    hide Inv, HasSession, SessionOf, WriteText, ApplyCommit, UnlockSentence, CommitSession, LockSentence, StartSession,
      InitLocks;
    assert Lookup(s.files, f).Some? <==> f in s.files;
    assert Lookup(Step(s, r).store.files, f).Some? <==> f in Step(s, r).store.files;
    match r
    case Lock(k) => LockChanges(s, k, k);
    case Unlock(k) => UnlockMakes(s, k, f);
    case Cancel(k) => CancelAnswers(s, k, k);
    case Create(g) => CreateAnswers(s, g);
    case Write(k, word, content) => WriteAnswers(s, k, word, content);
    case Delete(g) => DeleteAnswers(s, g);
    case Undo(g) => UndoAnswers(s, g);
    case Revert(g, tag) => RevertAnswers(s, g, tag);
    case Checkpoint(g, tag) => CheckpointAnswers(s, g, tag);
  }

  lemma UnlockMakes(s: Store, k: Key, f: string)
    requires Inv(s)
    ensures f in Step(s, Unlock(k)).store.files <==> f in s.files || Makes(s, Unlock(k), f)
  {
    hide Inv, HasSession, SessionOf, ApplyCommit, Sentences, Step;
    UnlockChanges(s, k);
    assert Lookup(s.files, f).Some? <==> f in s.files;
    assert Lookup(Step(s, Unlock(k)).store.files, f).Some? <==> f in Step(s, Unlock(k)).store.files;
    if HasSession(s, k) && f == k.file {
      UnlockOutcome(s, k);
      CommitMakes(Lookup(s.files, f), k.idx, SessionOf(s, k).original, s.temps[k]);
    }
  }

  lemma CommitMakes(main: Option<string>, idx: nat, original: nat, temp: string)
    ensures ApplyCommit(main, idx, original, Some(temp)).Some? <==> main.Some? || (idx == 0 && original == 0)
  {
    hide Print;
  }

  lemma StepKeepsUndoBacked(s: Store, r: Request)
    requires Inv(s) && UndoBacked(s)
    ensures UndoBacked(Step(s, r).store)
  {
    hide Inv, HasSession, Step;
    var s' := Step(s, r).store;
    forall f | f in s'.undo ensures f in s'.files {
      FilesAfter(s, r, f);
      UndoAfter(s, r, f);
    }
  }

  /** What UNDO would bring back after a request. */
  lemma UndoAfter(s: Store, r: Request, f: string)
    requires Inv(s) && UndoBacked(s)
    ensures f in Step(s, r).store.undo ==> r != Delete(f) && (f in s.undo || f in s.files)
  {
    hide Inv, HasSession, WriteText, UnlockSentence, CommitSession, LockSentence, StartSession, InitLocks, SessionOf;
    assert Lookup(s.undo, f).Some? <==> f in s.undo;
    assert Lookup(Step(s, r).store.undo, f).Some? <==> f in Step(s, r).store.undo;
    match r
    case Lock(k) => LockChanges(s, k, k);
    case Unlock(k) => UnlockChanges(s, k);
    case Cancel(k) => CancelAnswers(s, k, k);
    case Create(g) => CreateAnswers(s, g);
    case Write(k, word, content) => WriteAnswers(s, k, word, content);
    case Delete(g) => DeleteAnswers(s, g);
    case Undo(g) => UndoAnswers(s, g);
    case Revert(g, tag) => RevertAnswers(s, g, tag);
    case Checkpoint(g, tag) => CheckpointAnswers(s, g, tag);
  }

  /** Over whole runs a file leaves the store by DELETE alone. */
  lemma {:induction false} FilesStay(s: Store, rs: seq<Request>, f: string)
    requires Inv(s) && UndoBacked(s) && f in s.files && forall j | 0 <= j < |rs| :: rs[j] != Delete(f)
    ensures f in Run(s, rs).files
    decreases |rs|
  {
    hide Inv, Step, UndoBacked;
    if rs == [] {
    } else {
      FilesAfter(s, rs[0], f);
      StepKeepsInv(s, rs[0]);
      StepKeepsUndoBacked(s, rs[0]);
      FilesStay(Step(s, rs[0]).store, rs[1..], f);
    }
  }

  /** And its text changes by requests for it alone: CREATE, DELETE, UNDO, REVERT, and the commit of a
      session. */
  lemma TextStays(s: Store, r: Request, f: string)
    requires Inv(s) && Lookup(Step(s, r).store.files, f) != Lookup(s.files, f)
    ensures r == Create(f) || r == Delete(f) || r == Undo(f) || (r.Revert? && r.file == f)
      || (r.Unlock? && r.key.file == f && Commits(s, r.key))
  {
    hide Inv, HasSession, WriteText, UnlockSentence, CommitSession, LockSentence, StartSession, InitLocks, SessionOf;
    match r
    case Lock(k) => LockChanges(s, k, k);
    case Unlock(k) => UnlockChanges(s, k);
    case Cancel(k) => CancelAnswers(s, k, k);
    case Create(g) => CreateAnswers(s, g);
    case Write(k, word, content) => WriteAnswers(s, k, word, content);
    case Delete(g) => DeleteAnswers(s, g);
    case Undo(g) => UndoAnswers(s, g);
    case Revert(g, tag) => RevertAnswers(s, g, tag);
    case Checkpoint(g, tag) => CheckpointAnswers(s, g, tag);
  }

  /* ---- Sessions on an empty file ---- */

  /** From LOCK on an empty or missing file to UNLOCK, in any interleaving: if the file is still empty
      it becomes exactly what the session wrote, and if it has text by then, from UNDO, REVERT or
      another way, it stays as it is. */
  lemma EmptyFileEdited(s: Store, k: Key, rs: seq<Request>)
    requires Inv(s) && TextIn(s, k.file) == "" && Step(s, Lock(k)).status == 200
    requires forall j | 0 <= j < |rs| :: Leaves(rs[j], k)
    requires var s2 := Run(Step(s, Lock(k)).store, rs); k.file in s2.queues || |s2.queues| < 100
    ensures var s2 := Run(Step(s, Lock(k)).store, rs);
      var r := Step(s2, Unlock(k));
      && k.idx == 0 && r.status == 200
      && (TextIn(s2, k.file) == "" ==>
            k.file in r.store.files && Solid(Tokens(r.store.files[k.file])) == EditAll([], OpsOf(rs, k)))
      && (TextIn(s2, k.file) != "" ==> Lookup(r.store.files, k.file) == Lookup(s2.files, k.file))
  {
    hide Inv, Step, Run, Sentences, WriteAll, Tokens, Solid, EditAll, Leaves, OpsOf;
    var s2 := Run(Step(s, Lock(k)).store, rs);
    LockAnswers(s, k);
    TextSentences(s, k.file);
    TextSentences(s2, k.file);
    LockedEditCommits(s, k, rs);
    var temp := WriteAll("", 0, OpsOf(rs, k));
    if TextIn(s2, k.file) == "" {
      EmptyFileSession(Lookup(s2.files, k.file), OpsOf(rs, k));
    } else {
      LateEmptySession(Lookup(s2.files, k.file), temp);
    }
  }

  /** A session that was opened on an empty file does not touch a text. */
  lemma LateEmptySession(main: Option<string>, temp: string)
    requires Sentences(main) != []
    ensures ApplyCommit(main, 0, 0, Some(temp)) == main
  {
    hide Print, Parse;
  }

  /** A file's first edit: CREATE, LOCK of sentence 0, WRITEs and UNLOCK, with other users' requests for
      other files in between, leave exactly what was written. */
  lemma FirstEdit(s: Store, f: string, user: string, ops: seq<WriteOp>)
    requires Inv(s) && f !in s.files && !HeldByOther(s, Key(f, user, 0))
    requires |s.sessions| < 1000 && (f in s.queues || |s.queues| < 100)
    ensures var k := Key(f, user, 0);
      var s1 := Step(s, Create(f)).store;
      var s2 := Step(s1, Lock(k)).store;
      var r := Step(Run(s2, Writes(k, ops)), Unlock(k));
      && Step(s, Create(f)).status == 200 && Step(s1, Lock(k)).status == 200 && r.status == 200
      && f in r.store.files && Solid(Tokens(r.store.files[f])) == EditAll([], ops)
  {
    hide Inv, Step, HasSession, Tokens, Solid, EditAll, WriteAll, SameSession;
    var k := Key(f, user, 0);
    var s1 := Step(s, Create(f)).store;
    CreateAnswers(s, f);
    StepKeepsInv(s, Create(f));
    SameHolds(s, s1, k);
    LockAnswers(s1, k);
    var s2 := Step(s1, Lock(k)).store;
    LockChanges(s1, k, k);
    StepKeepsInv(s1, Lock(k));
    WritesLeave(s2, k, ops);
    EmptyFileEdited(s1, k, Writes(k, ops));
  }

  function Writes(k: Key, ops: seq<WriteOp>): seq<Request> {
    if ops == [] then [] else [Write(k, ops[0].word, ops[0].content)] + Writes(k, ops[1..])
  }

  lemma SameHolds(s: Store, s': Store, k: Key)
    requires s'.sessions == s.sessions
    ensures HeldByOther(s', k) <==> HeldByOther(s, k)
  {
    forall u: string ensures HasSession(s', Key(k.file, u, k.idx)) <==> HasSession(s, Key(k.file, u, k.idx)) {}
  }

  lemma {:induction false} WritesLeave(s: Store, k: Key, ops: seq<WriteOp>)
    requires Inv(s)
    ensures var s' := Run(s, Writes(k, ops)); s'.files == s.files && s'.queues == s.queues
    ensures OpsOf(Writes(k, ops), k) == ops
    ensures forall j | 0 <= j < |Writes(k, ops)| :: Leaves(Writes(k, ops)[j], k)
    decreases |ops|
  {
    hide Inv, Step, HasSession;
    if ops == [] {
    } else {
      var r, rest := Write(k, ops[0].word, ops[0].content), Writes(k, ops[1..]);
      WriteAnswers(s, k, ops[0].word, ops[0].content);
      StepKeepsInv(s, r);
      WritesLeave(Step(s, r).store, k, ops[1..]);
      assert ([r] + rest)[1..] == rest;
      assert OpsOf([r] + rest, k) == [ops[0]] + OpsOf(rest, k);
    }
  }
}
