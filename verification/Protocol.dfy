/** What every handler of the storage server keeps, and what whole runs guarantee. */
module Protocol {
  import opened Wrappers
  import opened Text
  import opened Printer
  import opened Insertion
  import opened Merge
  import opened Session
  import opened StoreSteps

  predicate Distinct(ss: seq<WriteSession>) {
    forall i, j | 0 <= i < j < |ss| :: ss[i].key != ss[j].key
  }

  /** The lock protocol: a session is open exactly when its user holds its sentence's lock; each
      session has its copy of the file; between requests no commit is pending. */
  ghost predicate Inv(s: Store) {
    && Distinct(s.sessions) && |s.sessions| <= MAX_SESSIONS
    && (forall k: Key :: HasSession(s, k) <==> HeldBy(s, k.file, k.idx, k.user))
    && (forall k: Key :: HasSession(s, k) ==> k in s.temps)
    && (forall f | f in s.queues :: s.queues[f] == [])
  }

  function SessionOf(s: Store, k: Key): WriteSession
    requires HasSession(s, k)
  {
    s.sessions[FindSession(s.sessions, k)]
  }

  /* ---- Session array ---- */

  lemma FindIs(ss: seq<WriteSession>, k: Key, n: nat)
    requires Distinct(ss) && n < |ss| && ss[n].key == k
    ensures FindSession(ss, k) == n
  {}

  lemma RemovedSession(ss: seq<WriteSession>, k: Key)
    requires Distinct(ss)
    ensures var r := RemoveSession(ss, k);
      && Distinct(r) && |r| <= |ss|
      && (forall k' :: FindSession(r, k') < |r| <==> k' != k && FindSession(ss, k') < |ss|)
      && (forall k' | FindSession(r, k') < |r| :: r[FindSession(r, k')] == ss[FindSession(ss, k')])
  {
    var n, r := FindSession(ss, k), RemoveSession(ss, k);
    forall k' ensures FindSession(r, k') < |r| <==> k' != k && FindSession(ss, k') < |ss|
      ensures FindSession(r, k') < |r| ==> r[FindSession(r, k')] == ss[FindSession(ss, k')]
    {
      var a, b := FindSession(ss, k'), FindSession(r, k');
      if n < |ss| {
        assert forall j | 0 <= j < |r| :: r[j] == ss[if j < n then j else j + 1];
        if a < |ss| && a != n {
          var c := if a < n then a else a - 1;
          assert r[c] == ss[a];
          FindIs(r, k', c);
        }
        if b < |r| { FindIs(ss, k', if b < n then b else b + 1); }
      }
    }
  }

  lemma AddedSession(ss: seq<WriteSession>, x: WriteSession)
    requires Distinct(ss) && FindSession(ss, x.key) == |ss|
    ensures Distinct(ss + [x])
    ensures forall k :: FindSession(ss + [x], k) < |ss| + 1 <==> k == x.key || FindSession(ss, k) < |ss|
    ensures forall k | FindSession(ss, k) < |ss| :: FindSession(ss + [x], k) == FindSession(ss, k)
    ensures FindSession(ss + [x], x.key) == |ss|
  {
    var r := ss + [x];
    forall k ensures FindSession(r, k) < |r| <==> k == x.key || FindSession(ss, k) < |ss|
      ensures FindSession(ss, k) < |ss| ==> FindSession(r, k) == FindSession(ss, k)
      ensures k == x.key ==> FindSession(r, k) == |ss|
    {
      var a, b := FindSession(ss, k), FindSession(r, k);
      if a < |ss| {
        assert r[a] == ss[a];
        FindIs(r, k, a);
      } else if k == x.key {
        assert r[|ss|] == x;
        FindIs(r, k, |ss|);
      }
    }
  }

  lemma ReplacedSession(ss: seq<WriteSession>, x: WriteSession)
    requires Distinct(ss) && FindSession(ss, x.key) < |ss|
    ensures var r := ss[FindSession(ss, x.key) := x];
      && Distinct(r)
      && (forall k :: FindSession(r, k) == FindSession(ss, k))
      && (forall k | k != x.key && FindSession(ss, k) < |ss| :: r[FindSession(r, k)] == ss[FindSession(ss, k)])
  {
    var n := FindSession(ss, x.key);
    var r := ss[n := x];
    assert forall j | 0 <= j < |ss| :: r[j].key == ss[j].key;
    forall k ensures FindSession(r, k) == FindSession(ss, k) {
      var a, b := FindSession(ss, k), FindSession(r, k);
      if a < |ss| { FindIs(r, k, a); }
      if b < |r| { FindIs(ss, k, b); }
    }
  }

  /* ---- Locks ---- */

  lemma SetLockEffect(s: Store, f: string, i: int, l: SentenceLock)
    requires LockExists(s, f, i)
    ensures forall f', i', u ::
      HeldBy(SetLock(s, f, i, l), f', i', u)
      <==> (if f' == f && i' == i then l.locked && l.holder == u else HeldBy(s, f', i', u))
  {}

  lemma InitLocksEffect(s: Store, f: string, count: nat)
    ensures forall f', i, u :: HeldBy(InitLocks(s, f, count), f', i, u) <==> HeldBy(s, f', i, u)
  {
    var old_, new_ := LocksOf(s, f), GrownLocks(LocksOf(s, f), count);
    assert forall i | 0 <= i < |old_| :: new_[i] == new_[..|old_|][i];
  }

  /** Locking adds exactly the requested holder, or changes no holder. */
  lemma LockEffect(s: Store, f: string, i: nat, u: string)
    ensures var r := LockSentence(s, f, i, u);
      && r.store == s.(locks := r.store.locks)
      && (r.status == SUCCESS ==> forall f', i', u' ::
            HeldBy(r.store, f', i', u') <==> HeldBy(s, f', i', u') || (f' == f && i' == i && u' == u))
      && (r.status != SUCCESS ==> forall f', i', u' :: HeldBy(r.store, f', i', u') <==> HeldBy(s, f', i', u'))
  {
    hide GrownLocks, HeldBy;
    var s1 := InitLocks(s, f, i + 1);
    InitLocksEffect(s, f, i + 1);
    var lock := s1.locks[f][i];
    if !(lock.locked && lock.holder != u) {
      SetLockEffect(s1, f, i, SentenceLock(true, u));
      LockHolders(s1, f, i);
    }
  }

  lemma LockHolders(s: Store, f: string, i: int)
    requires LockExists(s, f, i)
    ensures forall u :: HeldBy(s, f, i, u) <==> s.locks[f][i].locked && s.locks[f][i].holder == u
  {}

  /** Unlocking takes away exactly the caller's own hold, if any. */
  lemma UnlockEffect(s: Store, f: string, i: int, u: string)
    ensures var r := UnlockSentence(s, f, i, u);
      && r.store == s.(locks := r.store.locks)
      && (r.status == SUCCESS <==> HeldBy(s, f, i, u))
      && forall f', i', u' ::
           HeldBy(r.store, f', i', u') <==> HeldBy(s, f', i', u') && !(f' == f && i' == i && u' == u)
  {
    if HeldBy(s, f, i, u) {
      SetLockEffect(s, f, i, FREE);
    }
  }

  /* ---- Commits ---- */

  lemma {:induction false} EntriesFrame(s: Store, f: string, entries: seq<CommitEntry>)
    ensures var r := ProcessEntries(s, f, entries);
      && r == s.(files := r.files, temps := r.temps)
      && (forall f' | f' != f :: Lookup(r.files, f') == Lookup(s.files, f'))
      && (forall k | k in s.temps && (forall j | 0 <= j < |entries| :: entries[j].key != k) ::
            k in r.temps && r.temps[k] == s.temps[k])
    decreases |entries|
  {
    hide ApplyCommit, Sentences;
    if entries == [] {
    } else {
      var s1 := ProcessEntry(s, f, entries[0]);
      EntriesFrame(s1, f, entries[1..]);
      var r := ProcessEntries(s1, f, entries[1..]);
      forall k | k in s.temps && (forall j | 0 <= j < |entries| :: entries[j].key != k)
        ensures k in r.temps && r.temps[k] == s.temps[k]
      {
        assert entries[0].key != k;
        assert forall j | 0 <= j < |entries[1..]| :: entries[1..][j].key == entries[j + 1].key;
      }
    }
  }

  /** The other files, sessions and copies are left alone by a commit. */
  lemma CommitFrame(s: Store, k: Key)
    requires Inv(s)
    ensures var r := CommitSession(s, k).store;
      && r.locks == s.locks && r.checkpoints == s.checkpoints
      && r.sessions == RemoveSession(s.sessions, k)
      && (forall f | f in r.queues :: r.queues[f] == [])
      && (forall f | f != k.file :: Lookup(r.files, f) == Lookup(s.files, f))
      && (forall k' | k' != k && k' in s.temps :: k' in r.temps && r.temps[k'] == s.temps[k'])
  {
    hide FindSession, RemoveSession, HeldBy, ProcessQueue;
    var n := FindSession(s.sessions, k);
    if n < |s.sessions| {
      var e := CommitEntry(k, s.sessions[n].original);
      var q := Enqueue(s, e);
      if q.Some? {
        assert k.file in s.queues ==> s.queues[k.file] + [e] == [e];
        QueueFrame(s, q.value.(sessions := RemoveSession(s.sessions, k)), e);
      }
    } else {
      NothingRemoved(s.sessions, k);
    }
  }

  lemma QueueFrame(s: Store, s1: Store, e: CommitEntry)
    requires s1 == s.(sessions := s1.sessions, queues := s.queues[e.key.file := [e]])
    requires forall f | f in s.queues :: s.queues[f] == []
    ensures var r := ProcessQueue(s1, e.key.file);
      && r.locks == s.locks && r.checkpoints == s.checkpoints && r.sessions == s1.sessions
      && (forall f | f in r.queues :: r.queues[f] == [])
      && (forall f | f != e.key.file :: Lookup(r.files, f) == Lookup(s.files, f))
      && (forall k | k != e.key && k in s.temps :: k in r.temps && r.temps[k] == s.temps[k])
  {
    hide ProcessEntries, Backup;
    var f := e.key.file;
    BackupFrame(s1, f);
    EntriesFrame(Backup(s1, f), f, [e]);
  }

  lemma NothingRemoved(ss: seq<WriteSession>, k: Key)
    requires FindSession(ss, k) == |ss|
    ensures RemoveSession(ss, k) == ss
  {}

  /** What a commit by an open session does to its file: the merge of its copy, into the file as
      it is now, with the bytes before the merge kept for UNDO.  When all queues are taken by other
      files the commit fails, and copy and session are dropped. */
  lemma CommitMerges(s: Store, k: Key)
    requires Inv(s) && HasSession(s, k)
    ensures var r := CommitSession(s, k);
      && k.idx >= 0 && k in s.temps
      && (r.status == SUCCESS <==> QueueFree(s, k.file))
      && (QueueFree(s, k.file) ==>
            && Lookup(r.store.files, k.file)
               == ApplyCommit(Lookup(s.files, k.file), k.idx, SessionOf(s, k).original, Some(s.temps[k]))
            && (k.file in s.files ==> k.file in r.store.undo && r.store.undo[k.file] == s.files[k.file])
            && r.store.queues == s.queues[k.file := []])
      && (!QueueFree(s, k.file) ==>
            r == Reply(s.(sessions := RemoveSession(s.sessions, k), temps := s.temps - {k}), ERR_SERVER_ERROR))
  {
    HasNatIndex(s, k);
    hide Inv, ApplyCommit, Sentences;
    if QueueFree(s, k.file) { CommitFree(s, k); }
  }

  lemma CommitFree(s: Store, k: Key)
    requires Inv(s) && HasSession(s, k) && QueueFree(s, k.file) && k.idx >= 0 && k in s.temps
    ensures var r := CommitSession(s, k);
      && r.status == SUCCESS
      && Lookup(r.store.files, k.file)
         == ApplyCommit(Lookup(s.files, k.file), k.idx, SessionOf(s, k).original, Some(s.temps[k]))
      && (k.file in s.files ==> k.file in r.store.undo && r.store.undo[k.file] == s.files[k.file])
      && r.store.queues == s.queues[k.file := []]
  {
    EnqueueFree(s, CommitEntry(k, SessionOf(s, k).original));
    CommitIs(s, k, s.queues[k.file := [CommitEntry(k, SessionOf(s, k).original)]]);
    hide Inv, ApplyCommit, Sentences, FindSession, RemoveSession, ProcessQueue, Enqueue, CommitSession, QueueFree;
    var e := CommitEntry(k, SessionOf(s, k).original);
    var s1 := s.(queues := s.queues[k.file := [e]], sessions := RemoveSession(s.sessions, k));
    ProcessSingle(s1, k.file, e);
    assert s1.queues[k.file := []] == s.queues[k.file := []];
  }

  lemma CommitIs(s: Store, k: Key, queues: map<string, seq<CommitEntry>>)
    requires HasSession(s, k) && k.file in queues
    requires Enqueue(s, CommitEntry(k, SessionOf(s, k).original)) == Some(s.(queues := queues))
    ensures CommitSession(s, k)
      == Reply(ProcessQueue(s.(queues := queues, sessions := RemoveSession(s.sessions, k)), k.file), SUCCESS)
  {
    hide FindSession, RemoveSession, ProcessQueue, Enqueue;
  }

  lemma EnqueueFree(s: Store, e: CommitEntry)
    requires Inv(s) && QueueFree(s, e.key.file)
    ensures Enqueue(s, e) == Some(s.(queues := s.queues[e.key.file := [e]]))
  {
    hide HasSession, HeldBy, Distinct;
    assert e.key.file in s.queues ==> s.queues[e.key.file] + [e] == [e];
  }

  lemma ProcessSingle(s: Store, f: string, e: CommitEntry)
    requires f in s.queues && s.queues[f] == [e] && f == e.key.file && e.key.idx >= 0 && e.key in s.temps
    ensures var r := ProcessQueue(s, f);
      && Lookup(r.files, f) == ApplyCommit(Lookup(s.files, f), e.key.idx, e.original, Some(s.temps[e.key]))
      && (f in s.files ==> f in r.undo && r.undo[f] == s.files[f])
      && r.queues == s.queues[f := []]
  {
    hide ApplyCommit, Sentences;
    CommitKeepsFile(Lookup(s.files, f), e.key.idx, e.original, Some(s.temps[e.key]));
    var b := Backup(s, f);
    assert ProcessEntries(b, f, [e]) == ProcessEntry(b, f, e) by {
      assert [e][1..] == [];
    }
  }

  lemma CommitKeepsFile(main: Option<string>, idx: nat, original: nat, temp: Option<string>)
    ensures main.Some? ==> ApplyCommit(main, idx, original, temp).Some?
  {}

  /* ---- The invariant ---- */

  lemma LockKeepsInv(s: Store, k: Key)
    requires Inv(s)
    ensures Inv(HandleLock(s, k).store)
  {
    hide Sentences, FindSession, RemoveSession, LockSentence, UnlockSentence, StartSession, Distinct, HeldBy;
    if LockAllowed(Sentences(Lookup(s.files, k.file)), k.idx) {
      LockEffect(s, k.file, k.idx, k.user);
      var r := LockSentence(s, k.file, k.idx, k.user);
      if r.status == SUCCESS {
        StartEffect(r.store, k);
        var s2 := StartSession(r.store, k);
        if s2.Some? {
          SameLocks(r.store, s2.value);
        } else {
          UnlockEffect(r.store, k.file, k.idx, k.user);
        }
      }
    }
  }

  lemma SameLocks(s: Store, s': Store)
    requires s'.locks == s.locks
    ensures forall f, i, u :: HeldBy(s', f, i, u) <==> HeldBy(s, f, i, u)
  {}

  lemma StartEffect(s: Store, k: Key)
    requires Distinct(s.sessions) && |s.sessions| <= MAX_SESSIONS
    ensures var r := StartSession(s, k);
      && (r.None? ==> !HasSession(s, k))
      && (r.Some? ==>
            && r.value == s.(sessions := r.value.sessions, temps := r.value.temps)
            && Distinct(r.value.sessions) && |r.value.sessions| <= MAX_SESSIONS
            && (forall k' :: HasSession(r.value, k') <==> HasSession(s, k') || k' == k)
            && (forall k' | k' != k && HasSession(s, k') :: SessionOf(r.value, k') == SessionOf(s, k'))
            && SessionOf(r.value, k) == WriteSession(k, |Sentences(Lookup(s.files, k.file))|)
            && (forall k' | k' != k :: Lookup(r.value.temps, k') == Lookup(s.temps, k'))
            && k in r.value.temps && (forall k' | k' in s.temps :: k' in r.value.temps))
  {
    hide Distinct, FindSession, Sentences;
    var session := WriteSession(k, |Sentences(Lookup(s.files, k.file))|);
    if FindSession(s.sessions, k) < |s.sessions| {
      ReplacedSession(s.sessions, session);
    } else if |s.sessions| < MAX_SESSIONS {
      AddedSession(s.sessions, session);
    }
  }

  lemma RemoveKeepsInv(s: Store, s1: Store, k: Key)
    requires Inv(s)
    requires s1.sessions == RemoveSession(s.sessions, k) && s1.locks == s.locks
    requires forall k' | k' != k && k' in s.temps :: k' in s1.temps
    requires forall f | f in s1.queues :: s1.queues[f] == []
    ensures Inv(UnlockSentence(s1, k.file, k.idx, k.user).store)
  {
    hide FindSession, RemoveSession, UnlockSentence;
    RemovedSession(s.sessions, k);
    UnlockEffect(s1, k.file, k.idx, k.user);
  }

  lemma UnlockKeepsInv(s: Store, k: Key)
    requires Inv(s)
    ensures Inv(HandleUnlock(s, k).store)
  {
    hide CommitSession, UnlockSentence;
    CommitFrame(s, k);
    RemoveKeepsInv(s, CommitSession(s, k).store, k);
  }

  lemma CancelKeepsInv(s: Store, k: Key)
    requires Inv(s)
    ensures Inv(HandleCancel(s, k).store)
  {
    hide UnlockSentence, HeldBy;
    if !HasSession(s, k) { NothingRemoved(s.sessions, k); }
    var s1 := if HasSession(s, k)
      then s.(sessions := RemoveSession(s.sessions, k), temps := s.temps - {k}) else s;
    RemoveKeepsInv(s, s1, k);
  }

  lemma CreateKeepsInv(s: Store, f: string)
    requires Inv(s)
    ensures Inv(HandleCreate(s, f).store)
  {
    hide InitLocks, FindSession;
    if f !in s.files {
      var s1 := s.(files := s.files[f := ""]);
      InitLocksEffect(s1, f, 1);
      InitLocksFrame(s1, f, 1);
    }
  }

  lemma InitLocksFrame(s: Store, f: string, count: nat)
    ensures InitLocks(s, f, count) == s.(locks := InitLocks(s, f, count).locks)
  {}

  /** Every request keeps the lock protocol. */
  lemma StepKeepsInv(s: Store, r: Request)
    requires Inv(s)
    ensures Inv(Step(s, r).store)
  {
    hide HandleLock, HandleUnlock, HandleCancel, HandleCreate, FindSession, WriteText;
    match r
    case Lock(k) => LockKeepsInv(s, k);
    case Unlock(k) => UnlockKeepsInv(s, k);
    case Cancel(k) => CancelKeepsInv(s, k);
    case Create(f) => CreateKeepsInv(s, f);
    case _ =>
  }

  /** The lock protocol over whole runs, from an empty server or any state that keeps it. */
  lemma {:induction false} RunKeepsInv(s: Store, rs: seq<Request>)
    requires Inv(s)
    ensures Inv(Run(s, rs))
    decreases |rs|
  {
    hide Inv, Step;
    if rs == [] {
    } else {
      StepKeepsInv(s, rs[0]);
      RunKeepsInv(Step(s, rs[0]).store, rs[1..]);
    }
  }

  lemma EmptyInv()
    ensures Inv(EMPTY)
  {}

  /** No two users ever have sessions on the same sentence index of the same file, and whoever has a
      session holds the lock: in every reachable state.  (The index is that of the LOCK; where the
      sentence is now is the matter of Concurrent.LockLooksAtIndex.) */
  lemma MutualExclusion(rs: seq<Request>, k: Key, k': Key)
    requires k.file == k'.file && k.idx == k'.idx
    requires HasSession(Run(EMPTY, rs), k) && HasSession(Run(EMPTY, rs), k')
    ensures k == k' && HeldBy(Run(EMPTY, rs), k.file, k.idx, k.user)
  {
    hide Run;
    EmptyInv();
    RunKeepsInv(EMPTY, rs);
    var s := Run(EMPTY, rs);
    assert HeldBy(s, k.file, k.idx, k.user) && HeldBy(s, k'.file, k'.idx, k'.user);
  }

  /* ---- Checkpoints and undo ---- */

  lemma StepKeepsCheckpoints(s: Store, r: Request, c: (string, string))
    requires Inv(s) && c in s.checkpoints
    ensures var s' := Step(s, r).store; c in s'.checkpoints && s'.checkpoints[c] == s.checkpoints[c]
  {
    hide FindSession, WriteText, CommitSession, LockSentence, UnlockSentence, StartSession, Inv;
    match r
    case Lock(k) =>
      if LockAllowed(Sentences(Lookup(s.files, k.file)), k.idx) {
        LockEffect(s, k.file, k.idx, k.user);
        var l := LockSentence(s, k.file, k.idx, k.user).store;
        StartFrame(l, k);
        UnlockEffect(l, k.file, k.idx, k.user);
      }
    case Unlock(k) =>
      CommitFrame(s, k);
      UnlockEffect(CommitSession(s, k).store, k.file, k.idx, k.user);
    case Cancel(k) =>
      var s1 := if HasSession(s, k)
        then s.(sessions := RemoveSession(s.sessions, k), temps := s.temps - {k}) else s;
      UnlockEffect(s1, k.file, k.idx, k.user);
    case _ =>
  }

  lemma StartFrame(s: Store, k: Key)
    ensures StartSession(s, k).Some? ==>
      var r := StartSession(s, k).value; r == s.(sessions := r.sessions, temps := r.temps)
  {
    hide Sentences;
  }

  /** A checkpoint never changes once made, whatever requests follow. */
  lemma {:induction false} CheckpointsLast(s: Store, rs: seq<Request>, c: (string, string))
    requires Inv(s) && c in s.checkpoints
    ensures var s' := Run(s, rs); c in s'.checkpoints && s'.checkpoints[c] == s.checkpoints[c]
    decreases |rs|
  {
    hide Inv, Step;
    if rs == [] {
    } else {
      StepKeepsInv(s, rs[0]);
      StepKeepsCheckpoints(s, rs[0], c);
      CheckpointsLast(Step(s, rs[0]).store, rs[1..], c);
    }
  }

  /** REVERT, any time after CHECKPOINT, brings back the bytes the file had at the checkpoint. */
  lemma RevertRestores(s: Store, f: string, tag: string, rs: seq<Request>)
    requires Inv(s) && f in s.files && (f, tag) !in s.checkpoints
    ensures var s1 := Run(Step(s, Checkpoint(f, tag)).store, rs);
      var r := Step(s1, Revert(f, tag));
      && Step(s, Checkpoint(f, tag)).status == SUCCESS
      && r.status == SUCCESS && Lookup(r.store.files, f) == Some(s.files[f])
  {
    hide Inv, Run;
    var s0 := Step(s, Checkpoint(f, tag)).store;
    StepKeepsInv(s, Checkpoint(f, tag));
    CheckpointsLast(s0, rs, (f, tag));
  }

  /** UNDO right after a request that kept a copy of the file brings back exactly its bytes, and
      a second UNDO is refused. */
  lemma UndoOnce(s: Store, f: string)
    requires f in s.undo
    ensures var r := Step(s, Undo(f));
      && r.status == SUCCESS && Lookup(r.store.files, f) == Some(s.undo[f])
      && Step(r.store, Undo(f)) == Reply(r.store, ERR_INVALID_OPERATION)
  {}

  /** UNDO takes back a commit, or a REVERT, of an existing file, once. */
  lemma UndoRestores(s: Store, r: Request)
    requires Inv(s)
    requires match r
      case Unlock(k) => HasSession(s, k) && k.file in s.files
                        && QueueFree(s, k.file)
      case Revert(f, tag) => f in s.files && (f, tag) in s.checkpoints
      case _ => false
    ensures var f := if r.Unlock? then r.key.file else r.file;
      var u := Step(Step(s, r).store, Undo(f));
      && u.status == SUCCESS && Lookup(u.store.files, f) == Some(s.files[f])
      && Step(u.store, Undo(f)).status == ERR_INVALID_OPERATION
  {
    hide FindSession, CommitSession, UnlockSentence, Inv;
    if r.Unlock? {
      var k := r.key;
      CommitMerges(s, k);
      UnlockEffect(CommitSession(s, k).store, k.file, k.idx, k.user);
      UndoOnce(Step(s, r).store, k.file);
    } else {
      UndoOnce(Step(s, r).store, r.file);
    }
  }

  /* ---- A session over a run ---- */

  /** The request does not open, commit or drop the session `k`. */
  predicate Leaves(r: Request, k: Key) {
    r != Lock(k) && r != Unlock(k) && r != Cancel(k)
  }

  /** The writes of session `k` in a run. */
  function OpsOf(rs: seq<Request>, k: Key): seq<WriteOp> {
    if rs == [] then []
    else (if rs[0].Write? && rs[0].key == k then [WriteOp(rs[0].word, rs[0].content)] else []) + OpsOf(rs[1..], k)
  }

  lemma HasNatIndex(s: Store, k: Key)
    requires Inv(s) && HasSession(s, k)
    ensures k.idx >= 0 && k in s.temps && HeldBy(s, k.file, k.idx, k.user)
  {
    assert HeldBy(s, k.file, k.idx, k.user);
  }

  lemma LockIsolated(s: Store, k': Key, k: Key)
    requires Inv(s) && HasSession(s, k) && k' != k
    ensures var s' := Step(s, Lock(k')).store;
      HasSession(s', k) && SessionOf(s', k) == SessionOf(s, k) && Lookup(s'.temps, k) == Lookup(s.temps, k)
  {
    hide UnlockSentence, StartSession, LockSentence, FindSession, HeldBy, Sentences;
    if LockAllowed(Sentences(Lookup(s.files, k'.file)), k'.idx) {
      LockEffect(s, k'.file, k'.idx, k'.user);
      var l := LockSentence(s, k'.file, k'.idx, k'.user).store;
      StartEffect(l, k');
      UnlockEffect(l, k'.file, k'.idx, k'.user);
    }
  }

  lemma UnlockIsolated(s: Store, k': Key, k: Key)
    requires Inv(s) && HasSession(s, k) && k' != k
    ensures var s' := Step(s, Unlock(k')).store;
      HasSession(s', k) && SessionOf(s', k) == SessionOf(s, k) && Lookup(s'.temps, k) == Lookup(s.temps, k)
  {
    hide CommitSession, UnlockSentence, FindSession, RemoveSession, HeldBy;
    HasNatIndex(s, k);
    CommitFrame(s, k');
    RemovedSession(s.sessions, k');
    UnlockEffect(CommitSession(s, k').store, k'.file, k'.idx, k'.user);
  }

  lemma CancelIsolated(s: Store, k': Key, k: Key)
    requires Inv(s) && HasSession(s, k) && k' != k
    ensures var s' := Step(s, Cancel(k')).store;
      HasSession(s', k) && SessionOf(s', k) == SessionOf(s, k) && Lookup(s'.temps, k) == Lookup(s.temps, k)
  {
    hide UnlockSentence, FindSession, RemoveSession, HeldBy;
    RemovedSession(s.sessions, k');
    var s1 := if HasSession(s, k')
      then s.(sessions := RemoveSession(s.sessions, k'), temps := s.temps - {k'}) else s;
    UnlockEffect(s1, k'.file, k'.idx, k'.user);
  }

  lemma OtherIsolated(s: Store, r: Request, k: Key)
    requires HasSession(s, k) && !r.Lock? && !r.Unlock? && !r.Cancel? && !(r.Write? && r.key == k)
    ensures var s' := Step(s, r).store;
      HasSession(s', k) && SessionOf(s', k) == SessionOf(s, k) && Lookup(s'.temps, k) == Lookup(s.temps, k)
  {
    hide WriteText, HasSession, InitLocks, Backup;
    match r
    case Create(f) =>
      if f !in s.files { InitLocksFrame(s.(files := s.files[f := ""]), f, 1); }
      SessionsSame(s, Step(s, r).store, k);
    case Revert(f, tag) =>
      BackupFrame(s, f);
      SessionsSame(s, Step(s, r).store, k);
    case _ => SessionsSame(s, Step(s, r).store, k);
  }

  lemma BackupFrame(s: Store, f: string)
    ensures Backup(s, f) == s.(undo := Backup(s, f).undo)
  {}

  lemma SessionsSame(s: Store, s': Store, k: Key)
    requires s'.sessions == s.sessions
    ensures HasSession(s', k) <==> HasSession(s, k)
    ensures HasSession(s, k) ==> SessionOf(s', k) == SessionOf(s, k)
  {}

  /** A session and its copy are changed by its own requests only. */
  lemma SessionIsolated(s: Store, r: Request, k: Key)
    requires Inv(s) && HasSession(s, k) && Leaves(r, k)
    ensures var s' := Step(s, r).store;
      && HasSession(s', k) && SessionOf(s', k) == SessionOf(s, k)
      && k in s.temps && k in s'.temps && k.idx >= 0
      && s'.temps[k] == WriteAll(s.temps[k], k.idx, OpsOf([r], k))
  {
    hide WriteText, FindSession, Inv, WriteAll, OpsOf, HandleLock, HandleUnlock, HandleCancel;
    HasNatIndex(s, k);
    OneOp(s.temps[k], k, r);
    match r
    case Lock(k') => LockIsolated(s, k', k);
    case Unlock(k') => UnlockIsolated(s, k', k);
    case Cancel(k') => CancelIsolated(s, k', k);
    case Write(k', _, _) => if k' != k { OtherIsolated(s, r, k); }
    case _ => OtherIsolated(s, r, k);
  }

  lemma OneOp(file: string, k: Key, r: Request)
    requires k.idx >= 0
    ensures WriteAll(file, k.idx, OpsOf([r], k)) ==
      if r.Write? && r.key == k && WriteText(Some(file), k.idx, r.word, r.content).Some?
      then WriteText(Some(file), k.idx, r.word, r.content).value else file
  {
    hide WriteText;
    var rs := [r];
    assert rs[1..] == [] && OpsOf(rs[1..], k) == [];
    if r.Write? && r.key == k {
      var op := WriteOp(r.word, r.content);
      var ops := [op];
      assert OpsOf(rs, k) == ops + [] == ops;
      assert ops[1..] == [];
      var t := WriteText(Some(file), k.idx, r.word, r.content);
      assert WriteAll(file, k.idx, ops) == WriteAll(if t.Some? then t.value else file, k.idx, []);
    }
  }

  lemma {:induction false} WriteAllAppend(file: string, idx: nat, a: seq<WriteOp>, b: seq<WriteOp>)
    ensures WriteAll(file, idx, a + b) == WriteAll(WriteAll(file, idx, a), idx, b)
    decreases |a|
  {
    hide WriteText;
    if a == [] {
      assert a + b == b;
    } else {
      assert (a + b)[1..] == a[1..] + b;
      var r := WriteText(Some(file), idx, a[0].word, a[0].content);
      WriteAllAppend(if r.Some? then r.value else file, idx, a[1..], b);
    }
  }

  lemma {:induction false} SessionOverRun(s: Store, rs: seq<Request>, k: Key)
    requires Inv(s) && HasSession(s, k) && forall j | 0 <= j < |rs| :: Leaves(rs[j], k)
    ensures var s' := Run(s, rs);
      && HasSession(s', k) && SessionOf(s', k) == SessionOf(s, k)
      && k in s.temps && k in s'.temps && k.idx >= 0
      && s'.temps[k] == WriteAll(s.temps[k], k.idx, OpsOf(rs, k))
    decreases |rs|
  {
    hide Inv, Step, HasSession, Leaves, OpsOf, WriteAll;
    HasNatIndex(s, k);
    if rs != [] {
      var r, s1 := rs[0], Step(s, rs[0]).store;
      StepKeepsInv(s, r);
      SessionIsolated(s, r, k);
      SessionOverRun(s1, rs[1..], k);
      OpsSplit(rs, k);
      WriteAllAppend(s.temps[k], k.idx, OpsOf([r], k), OpsOf(rs[1..], k));
    } else {
      NoOps(s.temps[k], k);
    }
  }

  lemma OpsSplit(rs: seq<Request>, k: Key)
    requires rs != []
    ensures OpsOf(rs, k) == OpsOf([rs[0]], k) + OpsOf(rs[1..], k)
  {
    assert [rs[0]][1..] == [];
  }

  lemma NoOps(file: string, k: Key)
    requires k.idx >= 0
    ensures WriteAll(file, k.idx, OpsOf([], k)) == file
  {}

  /** A successful LOCK opens a session on a copy of the file as it is. */
  lemma LockOpens(s: Store, k: Key)
    requires Inv(s) && Step(s, Lock(k)).status == SUCCESS
    ensures var s1 := Step(s, Lock(k)).store; var file := Lookup(s.files, k.file);
      && s1.files == s.files && HasSession(s1, k)
      && SessionOf(s1, k).original == |Sentences(file)|
      && k in s1.temps && s1.temps[k] == if file.Some? then file.value else ""
  {
    hide Sentences, FindSession, LockSentence, UnlockSentence;
    LockEffect(s, k.file, k.idx, k.user);
    var l := LockSentence(s, k.file, k.idx, k.user).store;
    StartEffect(l, k);
    StartCopies(l, k);
  }

  lemma StartCopies(s: Store, k: Key)
    ensures StartSession(s, k).Some? ==>
      var r := StartSession(s, k).value; var file := Lookup(s.files, k.file);
      k in r.temps && r.temps[k] == if file.Some? then file.value else ""
  {
    hide Sentences;
  }

  /** From LOCK to UNLOCK, in every interleaving with requests of other sessions and users: the
      commit merges into the file as it then is a copy of the file as it was locked, edited by
      this session's writes and no other; and it touches no other file.  It fails, and leaves the
      file alone, if and only if all queues are taken by other files. */
  lemma LockedEditCommits(s: Store, k: Key, rs: seq<Request>)
    requires Inv(s) && Step(s, Lock(k)).status == SUCCESS
    requires forall j | 0 <= j < |rs| :: Leaves(rs[j], k)
    ensures var locked := Lookup(s.files, k.file);
      var s2 := Run(Step(s, Lock(k)).store, rs);
      var r := Step(s2, Unlock(k));
      && k.idx >= 0
      && (r.status == SUCCESS <==> QueueFree(s2, k.file))
      && Lookup(r.store.files, k.file)
         == (if QueueFree(s2, k.file)
             then ApplyCommit(Lookup(s2.files, k.file), k.idx, |Sentences(locked)|,
                              Some(WriteAll(if locked.Some? then locked.value else "", k.idx, OpsOf(rs, k))))
             else Lookup(s2.files, k.file))
      && forall f | f != k.file :: Lookup(r.store.files, f) == Lookup(s2.files, f)
  {
    hide Inv, Step, HasSession, Run, ApplyCommit, WriteAll, Sentences, CommitSession, QueueFree;
    var s1 := Step(s, Lock(k)).store;
    var s2 := Run(s1, rs);
    StepKeepsInv(s, Lock(k));
    LockOpens(s, k);
    SessionOverRun(s1, rs, k);
    RunKeepsInv(s1, rs);
    UnlockOutcome(s2, k);
  }

  /** From LOCK on, in every interleaving, the session's copy never has fewer sentences than the file
      had at the LOCK: the merge never has a negative count to copy, nor room for too few. */
  lemma CopyKeepsSentences(s: Store, k: Key, rs: seq<Request>)
    requires Inv(s) && Step(s, Lock(k)).status == SUCCESS
    requires forall j | 0 <= j < |rs| :: Leaves(rs[j], k)
    ensures var s2 := Run(Step(s, Lock(k)).store, rs);
      HasSession(s2, k) && k in s2.temps && |Parse(s2.temps[k])| >= SessionOf(s2, k).original == |Sentences(Lookup(s.files, k.file))|
  {
    hide Inv, Step, HasSession, Run, WriteAll, SessionOf, Parse;
    var s1 := Step(s, Lock(k)).store;
    StepKeepsInv(s, Lock(k));
    LockOpens(s, k);
    SessionOverRun(s1, rs, k);
    EmptyParse();
    WriteAllKeepsCount(s1.temps[k], k.idx, OpsOf(rs, k));
  }

  /** UNLOCK by the holder of an open session succeeds if and only if its file has a queue or one is
      free.  Otherwise it answers a server error, no file changes, and the edit is thrown away with
      the session. */
  lemma UnlockOutcome(s: Store, k: Key)
    requires Inv(s) && HasSession(s, k)
    ensures var r := Step(s, Unlock(k));
      && k.idx >= 0 && k in s.temps
      && (r.status == SUCCESS <==> QueueFree(s, k.file))
      && (r.status != SUCCESS ==> r.status == ERR_SERVER_ERROR && r.store.files == s.files && k !in r.store.temps)
      && !HasSession(r.store, k)
      && Lookup(r.store.files, k.file)
         == (if QueueFree(s, k.file)
             then ApplyCommit(Lookup(s.files, k.file), k.idx, SessionOf(s, k).original, Some(s.temps[k]))
             else Lookup(s.files, k.file))
      && (forall f | f != k.file :: Lookup(r.store.files, f) == Lookup(s.files, f))
      && r.store.queues == if QueueFree(s, k.file) then s.queues[k.file := []] else s.queues
  {
    HasNatIndex(s, k);
    RemovedSession(s.sessions, k);
    hide Inv, ApplyCommit, Sentences, CommitSession, UnlockSentence, FindSession, RemoveSession, QueueFree, HeldBy;
    CommitFrame(s, k);
    CommitMerges(s, k);
    var c := CommitSession(s, k).store;
    UnlockEffect(c, k.file, k.idx, k.user);
    HeldBySame(s, c);
  }

  lemma HeldBySame(s: Store, s': Store)
    requires s'.locks == s.locks
    ensures forall f, i, u :: HeldBy(s', f, i, u) <==> HeldBy(s, f, i, u)
  {}

  /** A queue's place is never given back; so once all are taken, no commit to any other file ever
      succeeds, and every edit of such a file is thrown away. */
  lemma QueuesFullForever(s: Store, rs: seq<Request>, k: Key)
    requires Inv(s) && |s.queues| >= MAX_FILE_QUEUES && k.file !in s.queues && HasSession(Run(s, rs), k)
    ensures var s2 := Run(s, rs); var r := Step(s2, Unlock(k));
      r.status == ERR_SERVER_ERROR && r.store.files == s2.files && k !in r.store.temps && !HasSession(r.store, k)
  {
    hide Inv, Step, Run, HasSession;
    QueuesLast(s, rs);
    RunKeepsInv(s, rs);
    UnlockOutcome(Run(s, rs), k);
  }

  lemma {:induction false} QueuesLast(s: Store, rs: seq<Request>)
    requires Inv(s)
    ensures var s' := Run(s, rs);
      && s.queues.Keys <= s'.queues.Keys
      && (|s.queues| >= MAX_FILE_QUEUES ==> s'.queues.Keys == s.queues.Keys && |s'.queues| == |s.queues|)
    decreases |rs|
  {
    hide Inv, Step;
    if rs == [] {
      NoRun(s);
    } else {
      var s1 := Step(s, rs[0]).store;
      StepKeepsInv(s, rs[0]);
      StepKeepsQueues(s, rs[0]);
      QueuesLast(s1, rs[1..]);
      assert |s.queues| >= MAX_FILE_QUEUES ==> |s1.queues.Keys| == |s.queues.Keys|;
    }
  }

  lemma StepKeepsQueues(s: Store, r: Request)
    requires Inv(s)
    ensures var s' := Step(s, r).store;
      && s.queues.Keys <= s'.queues.Keys
      && (|s.queues| >= MAX_FILE_QUEUES ==> s'.queues.Keys == s.queues.Keys)
  {
    hide FindSession, WriteText, CommitSession, LockSentence, UnlockSentence, StartSession, Inv, HasSession;
    match r
    case Lock(k) =>
      if LockAllowed(Sentences(Lookup(s.files, k.file)), k.idx) {
        LockEffect(s, k.file, k.idx, k.user);
        var l := LockSentence(s, k.file, k.idx, k.user).store;
        StartFrame(l, k);
        UnlockEffect(l, k.file, k.idx, k.user);
      }
    case Unlock(k) =>
      UnlockEffect(CommitSession(s, k).store, k.file, k.idx, k.user);
      if HasSession(s, k) { CommitMerges(s, k); } else { NoCommit(s, k); }
    case Cancel(k) =>
      var s1 := if HasSession(s, k)
        then s.(sessions := RemoveSession(s.sessions, k), temps := s.temps - {k}) else s;
      UnlockEffect(s1, k.file, k.idx, k.user);
    case _ =>
  }

  lemma NoCommit(s: Store, k: Key)
    requires !HasSession(s, k)
    ensures CommitSession(s, k) == Reply(s, SUCCESS)
  {}

  /** The tokens of the file after a locked edit, when nobody else changed the file meanwhile:
      the version that was locked with this session's writes spliced into the locked sentence. */
  lemma LockedEditLands(s: Store, k: Key, rs: seq<Request>)
    requires Inv(s) && Step(s, Lock(k)).status == SUCCESS
    requires forall j | 0 <= j < |rs| :: Leaves(rs[j], k)
    requires k.file in s.files && 0 <= k.idx < |Parse(s.files[k.file])|
    requires var s2 := Run(Step(s, Lock(k)).store, rs); Lookup(s2.files, k.file) == Lookup(s.files, k.file)
    ensures var v, s2 := s.files[k.file], Run(Step(s, Lock(k)).store, rs);
      var l := Solid(Tokens(v));
      var region := EditAll(Head(After(l, k.idx)), OpsOf(rs, k));
      var r := Step(s2, Unlock(k));
      var file := Lookup(r.store.files, k.file);
      && (r.status == SUCCESS <==> QueueFree(s2, k.file))
      && file.Some?
      && (r.status != SUCCESS ==> file.value == v)
      && (r.status == SUCCESS ==>
            Solid(Tokens(file.value))
            == Before(l, k.idx) + Kept(region, k.idx + 1 == |Parse(v)|) + After(l, k.idx + 1))
  {
    hide Inv, Step, Run, ApplyCommit, WriteAll, Tokens, Solid, EditAll, Head, After, Before, Kept, Parse, QueueFree;
    LockedEditCommits(s, k, rs);
    SessionRefinesSplices(s.files[k.file], k.idx, OpsOf(rs, k));
  }

  /** Where a commit lands when the file it merges into is any other text, such as one that REVERT or
      UNDO put there after the LOCK, or none: at the locked index moved by the difference of the two
      sentence counts, and nowhere if that is out of range. */
  lemma LockedEditShifts(s: Store, k: Key, rs: seq<Request>)
    requires Inv(s) && Step(s, Lock(k)).status == SUCCESS
    requires forall j | 0 <= j < |rs| :: Leaves(rs[j], k)
    requires k.file in s.files && 0 <= k.idx < |Parse(s.files[k.file])|
    requires QueueFree(Run(Step(s, Lock(k)).store, rs), k.file)
    ensures var v, s2 := s.files[k.file], Run(Step(s, Lock(k)).store, rs);
      var e, main := Edit(k.idx, WriteAll(v, k.idx, OpsOf(rs, k))), Lookup(s2.files, k.file);
      var target := k.idx + (|Sentences(main)| - |Parse(v)|);
      && EditOk(Parse(v), e)
      && Lookup(Step(s2, Unlock(k)).store.files, k.file)
         == (if 0 <= target < |Sentences(main)|
             then Some(Print(Replace(Sentences(main), target, Replacement(Parse(v), e))))
             else main)
  {
    hide Inv, Step, Run, WriteAll, Parse, Print, Replace, QueueFree, Slice;
    var v, s2 := s.files[k.file], Run(Step(s, Lock(k)).store, rs);
    LockedEditCommits(s, k, rs);
    SessionEdit(v, k.idx, OpsOf(rs, k));
  }

  /* ---- Locking the sentence past the end ---- */

  /** LOCK is granted if and only if the index check passes, nobody else holds the sentence, and the
      session array has room or an entry for the session. */
  lemma LockGranted(s: Store, k: Key)
    requires Inv(s)
    ensures Step(s, Lock(k)).status == SUCCESS <==>
      && LockAllowed(Sentences(Lookup(s.files, k.file)), k.idx)
      && (forall u | u != k.user :: !HeldBy(s, k.file, k.idx, u))
      && (HasSession(s, k) || |s.sessions| < MAX_SESSIONS)
  {
    hide Sentences, FindSession, Inv, GrownLocks, UnlockSentence;
    if LockAllowed(Sentences(Lookup(s.files, k.file)), k.idx) {
      var s1 := InitLocks(s, k.file, k.idx + 1);
      InitLocksEffect(s, k.file, k.idx + 1);
      LockHolders(s1, k.file, k.idx);
      var lock := s1.locks[k.file][k.idx];
      if lock.locked && lock.holder != k.user {
        assert HeldBy(s1, k.file, k.idx, lock.holder);
      }
      assert LockSentence(s, k.file, k.idx, k.user).store.sessions == s.sessions;
    }
  }

  /** A non-empty file passes the index check one past its end exactly when its text ends with a
      delimiter or a newline. */
  lemma AppendLockAllowed(file: string)
    requires file != ""
    ensures LockAllowed(Parse(file), |Parse(file)|) <==>
      IsDelimiter(file[|file| - 1]) || file[|file| - 1] == '\n'
  {
    hide Parse, Tokens;
    LoadedEnd(file);
    LastToken(file);
  }

  /** What is written to the sentence past the end of a non-empty file never reaches the file: LOCK
      grants it, UNLOCK answers as for any edit, and the file stays what it was, in every
      interleaving. */
  lemma AppendedEditIsDropped(s: Store, k: Key, rs: seq<Request>)
    requires Inv(s) && Step(s, Lock(k)).status == SUCCESS
    requires forall j | 0 <= j < |rs| :: Leaves(rs[j], k)
    requires k.file in s.files && k.idx == |Parse(s.files[k.file])| > 0
    ensures var s2 := Run(Step(s, Lock(k)).store, rs);
      var r := Step(s2, Unlock(k));
      && (r.status == SUCCESS <==> QueueFree(s2, k.file))
      && forall f :: Lookup(r.store.files, f) == Lookup(s2.files, f)
  {
    hide Inv, Step, Run, ApplyCommit, WriteAll, Parse, QueueFree;
    LockedEditCommits(s, k, rs);
    var s2 := Run(Step(s, Lock(k)).store, rs);
    AppendLockIsDropped(Lookup(s2.files, k.file), k.idx, Some(WriteAll(s.files[k.file], k.idx, OpsOf(rs, k))));
  }

  /* ---- Several sessions on one version ---- */

  function Unlocks(ks: seq<Key>): seq<Request> {
    if ks == [] then [] else Unlocks(ks[..|ks| - 1]) + [Unlock(ks[|ks| - 1])]
  }

  lemma {:induction false} RunAppend(s: Store, a: seq<Request>, b: seq<Request>)
    ensures Run(s, a + b) == Run(Run(s, a), b)
    decreases |a|
  {
    hide Step;
    if a == [] {
      assert a + b == b;
    } else {
      assert (a + b)[1..] == a[1..] + b;
      RunAppend(Step(s, a[0]).store, a[1..], b);
    }
  }

  lemma RunLast(s: Store, a: seq<Request>, r: Request)
    ensures Run(s, a + [r]) == Step(Run(s, a), r).store
  {
    hide Step;
    RunAppend(s, a, [r]);
    assert [r][1..] == [];
  }

  /** The open sessions `ks` all work on file `f` as it was when it had `original` sentences. */
  predicate SameVersion(s: Store, f: string, original: nat, ks: seq<Key>) {
    && (forall j | 0 <= j < |ks| ::
          ks[j].file == f && HasSession(s, ks[j]) && SessionOf(s, ks[j]).original == original
          && ks[j].idx >= 0 && ks[j] in s.temps)
    && (forall i, j | 0 <= i < j < |ks| :: ks[i] != ks[j])
  }

  function EditsOf(s: Store, ks: seq<Key>): (r: seq<Edit>)
    requires forall j | 0 <= j < |ks| :: ks[j].idx >= 0 && ks[j] in s.temps
    ensures |r| == |ks| && forall j | 0 <= j < |ks| :: r[j] == Edit(ks[j].idx, s.temps[ks[j]])
  {
    seq(|ks|, j requires 0 <= j < |ks| => Edit(ks[j].idx, s.temps[ks[j]]))
  }

  /** Unlocking them one after the other runs their edits through the merge queue in turn, unless
      all queues are taken by other files. */
  lemma {:induction false} UnlocksAreQueue(s: Store, f: string, original: nat, ks: seq<Key>)
    requires Inv(s) && SameVersion(s, f, original, ks)
    ensures var s' := Run(s, Unlocks(ks));
      && Inv(s')
      && Lookup(s'.files, f)
         == (if QueueFree(s, f) then ApplyAll(Lookup(s.files, f), original, EditsOf(s, ks)) else Lookup(s.files, f))
      && (QueueFree(s', f) <==> QueueFree(s, f)) && (ks == [] ==> s' == s)
      && (forall k | HasSession(s, k) && k !in ks ::
            HasSession(s', k) && SessionOf(s', k) == SessionOf(s, k)
            && k in s.temps && k in s'.temps && s'.temps[k] == s.temps[k])
    decreases |ks|
  {
    hide Inv, Step, HasSession, ApplyCommit, SessionOf, Leaves, OpsOf, WriteAll, Run;
    forall k | HasSession(s, k) ensures k in s.temps { HasNatIndex(s, k); }
    if ks != [] {
      var n := |ks| - 1;
      var init, k := ks[..n], ks[n];
      UnlocksAreQueue(s, f, original, init);
      var s1 := Run(s, Unlocks(init));
      RunLast(s, Unlocks(init), Unlock(k));
      assert k !in init;
      StepKeepsInv(s1, Unlock(k));
      UnlockOutcome(s1, k);
      assert EditsOf(s, ks)[..n] == EditsOf(s, init);
      var s' := Run(s, Unlocks(ks));
      forall k' | HasSession(s, k') && k' !in ks
        ensures HasSession(s', k') && SessionOf(s', k') == SessionOf(s, k')
        ensures k' in s'.temps && s'.temps[k'] == s.temps[k']
      {
        assert k' !in init && k' != k;
        SessionIsolatedByUnlock(s1, k, k');
      }
    } else {
      NoRun(s);
    }
  }

  lemma NoRun(s: Store)
    ensures Run(s, []) == s
  {}

  lemma SessionIsolatedByUnlock(s: Store, k: Key, k': Key)
    requires Inv(s) && HasSession(s, k') && k' != k
    ensures var s' := Step(s, Unlock(k)).store;
      && HasSession(s', k') && SessionOf(s', k') == SessionOf(s, k')
      && k' in s.temps && k' in s'.temps && s'.temps[k'] == s.temps[k']
  {
    hide WriteText, Inv, Step, FindSession;
    SessionIsolated(s, Unlock(k), k');
    OneOp(s.temps[k'], k', Unlock(k));
  }

  /** Concurrent sessions: users who opened sessions on the same version of a file, at distinct
      sentences, and commit in an order the index arithmetic handles, leave exactly that version
      with each locked sentence replaced by what its session made of it. */
  lemma ConcurrentCommits(s: Store, f: string, ks: seq<Key>)
    requires Inv(s) && f in s.files && ks != []
    requires SameVersion(s, f, |Parse(s.files[f])|, ks)
    requires EditsOk(Parse(s.files[f]), EditsOf(s, ks)) && InOrder(Parse(s.files[f]), EditsOf(s, ks))
    ensures var ss := Parse(s.files[f]);
      Lookup(Run(s, Unlocks(ks)).files, f)
      == Some(if QueueFree(s, f) then Print(SubstituteAll(ss, Replacements(ss, EditsOf(s, ks)))) else s.files[f])
  {
    hide Inv, Run, ApplyAll, Parse, EditsOk, InOrder, HasSession, SessionOf, QueueFree;
    UnlocksAreQueue(s, f, |Parse(s.files[f])|, ks);
    QueueIsSubstitution(s.files[f], EditsOf(s, ks));
  }
}
