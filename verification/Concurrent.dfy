/** Several users editing one file at a time, against a reference machine on tokens.

    The reference keeps the file as a list of sentences and, for each open session, the place of
    the sentence it locked and what its WRITEs made of that sentence.  It has no copies of the file
    and merges nothing: an UNLOCK puts the session's sentences in place of one of the list.  Of the
    store it reads the answers (whether a LOCK is granted, whether a commit finds a queue) and
    whether a session's text goes on after its last delimiter.
 */
module Concurrent {
  import opened Wrappers
  import opened Text
  import opened Printer
  import opened Insertion
  import opened Merge
  import opened Session
  import opened StoreSteps
  import opened Protocol

  /** An open session: where the sentence it locked is now, the number of sentences that commits
      added behind that place since the LOCK, the sentence as it was locked, and as it is edited. */
  datatype Slot = Slot(pos: nat, lag: int, start: seq<Token>, region: seq<Token>)

  datatype Desk = Desk(doc: seq<seq<Token>>, open: map<Key, Slot>)

  function At(doc: seq<seq<Token>>, i: nat): seq<Token> {
    if i < |doc| then doc[i] else []
  }

  ghost function DeskStep(x: Desk, f: string, s: Store, r: Request): Desk {
    match r
    case Lock(k) =>
      if k.file == f && k.idx >= 0 && Step(s, r).status == SUCCESS
      then x.(open := x.open[k := Slot(k.idx, 0, At(x.doc, k.idx), At(x.doc, k.idx))]) else x
    case Write(k, word, content) =>
      if k in x.open
      then
        var region := SpliceHead(x.open[k].region, word, Solid(Tokens(content)));
        x.(open := x.open[k := x.open[k].(region := region)])
      else x
    case Cancel(k) => x.(open := x.open - {k})
    case Unlock(k) =>
      if k !in x.open then x
      else if QueueFree(s, f) then Put(x, k, k in s.temps && OpenText(s.temps[k]))
      else x.(open := x.open - {k})
    case _ => x
  }

  /** A commit takes the place that as many sentences are behind as were behind the session's
      sentence at its LOCK; past the end it is lost. */
  function Put(x: Desk, k: Key, tail: bool): Desk
    requires k in x.open
  {
    var slot, rest := x.open[k], x.open - {k};
    var t := slot.pos + slot.lag;
    if x.doc == [] then Desk(Pieces(slot.region, tail), rest)
    else if 0 <= t < |x.doc| then
      var new_ := Pieces(slot.region, t + 1 == |x.doc| && tail);
      Desk(x.doc[..t] + new_ + x.doc[t + 1..], map k' | k' in rest :: Moved(rest[k'], t, |new_| - 1))
    else Desk(x.doc, rest)
  }

  /** The sentences after `t` move by `g`. */
  function Moved(slot: Slot, t: nat, g: int): Slot
    requires g >= -1
  {
    if slot.pos > t then slot.(pos := slot.pos + g) else slot.(lag := slot.lag + g)
  }

  ghost function DeskRun(x: Desk, f: string, s: Store, rs: seq<Request>): Desk
    decreases |rs|
  {
    if rs == [] then x else DeskRun(DeskStep(x, f, s, rs[0]), f, Step(s, rs[0]).store, rs[1..])
  }

  /** The request does not put another text in the file's place. */
  predicate Edits(r: Request, f: string) {
    r != Undo(f) && r != Delete(f) && !(r.Revert? && r.file == f)
  }

  /* ---- The refinement relation ---- */

  /** The file's sentences up to spaces. */
  ghost predicate FileOk(x: Desk, f: string, s: Store) {
    SolidAll(Sentences(Lookup(s.files, f))) == x.doc
  }

  /** The session's copy is the version `v` that it was opened on with the edited sentence in place;
      and as many sentences are behind its target as were behind its sentence then. */
  predicate CopyOk(v: string, doc: seq<seq<Token>>, slot: Slot, idx: nat, original: nat, temp: string) {
    var n := |Parse(v)|;
    && original == n && slot.lag >= 0 && (n == 0 <==> doc == [])
    && |doc| - slot.pos - slot.lag == n - idx && idx <= n
    && (idx < n ==> Tracks(v, idx, slot.region, temp))
    && (n == 0 ==> Solid(Tokens(temp)) == slot.region)
  }

  /** The open sessions on the file are those of the desk, each on a version of its own. */
  ghost predicate SessionsOk(x: Desk, f: string, s: Store) {
    && (forall k | k in x.open :: k.file == f)
    && (forall k: Key | k.file == f :: HasSession(s, k) <==> k in x.open)
    && (forall k | k in x.open && HasSession(s, k) :: SessionOk(x.doc, x.open[k], s, k))
  }

  ghost predicate SessionOk(doc: seq<seq<Token>>, slot: Slot, s: Store, k: Key)
    requires HasSession(s, k)
  {
    k.idx >= 0 && k in s.temps && exists v :: CopyOk(v, doc, slot, k.idx, SessionOf(s, k).original, s.temps[k])
  }

  /** Nothing that concerns the file and its sessions changed. */
  ghost predicate SameFor(s: Store, s': Store, f: string) {
    && Sentences(Lookup(s'.files, f)) == Sentences(Lookup(s.files, f))
    && forall k: Key | k.file == f :: SameSession(s, s', k)
  }

  ghost predicate SameSession(s: Store, s': Store, k: Key) {
    && (HasSession(s', k) <==> HasSession(s, k))
    && (HasSession(s, k) ==> SessionOf(s', k) == SessionOf(s, k) && Lookup(s'.temps, k) == Lookup(s.temps, k))
  }

  lemma SameKeeps(x: Desk, f: string, s: Store, s': Store)
    requires FileOk(x, f, s) && SessionsOk(x, f, s) && SameFor(s, s', f)
    ensures FileOk(x, f, s') && SessionsOk(x, f, s')
  {
    hide HasSession, CopyOk, SessionOf, Sentences, SolidAll;
    forall k: Key | k.file == f ensures SameSession(s, s', k) {}
  }

  /* ---- Requests that do not concern the file ---- */

  lemma LockSessions(s: Store, k: Key, k': Key)
    requires Inv(s)
    ensures var r := Step(s, Lock(k));
      && r.store.files == s.files
      && (HasSession(r.store, k') <==> HasSession(s, k') || (k' == k && r.status == SUCCESS))
      && (k' != k || r.status != SUCCESS ==> SameSession(s, r.store, k'))
  {
    hide FindSession, LockSentence, UnlockSentence, Sentences, StartSession, HeldBy, Distinct;
    if LockAllowed(Sentences(Lookup(s.files, k.file)), k.idx) {
      LockEffect(s, k.file, k.idx, k.user);
      var l := LockSentence(s, k.file, k.idx, k.user).store;
      StartEffect(l, k);
      StartFrame(l, k);
      UnlockEffect(l, k.file, k.idx, k.user);
    }
  }

  lemma UnlockSessions(s: Store, k: Key, k': Key)
    requires Inv(s)
    ensures var s' := Step(s, Unlock(k)).store;
      && (HasSession(s', k') <==> HasSession(s, k') && k' != k)
      && (k' != k ==> SameSession(s, s', k'))
  {
    if HasSession(s, k') { HasNatIndex(s, k'); }
    hide CommitSession, UnlockSentence, FindSession, RemoveSession, HeldBy, Distinct;
    CommitFrame(s, k);
    Removed(s.sessions, k);
    UnlockEffect(CommitSession(s, k).store, k.file, k.idx, k.user);
  }

  lemma Removed(ss: seq<WriteSession>, k: Key)
    requires Distinct(ss)
    ensures var r := RemoveSession(ss, k);
      && (forall k' :: FindSession(r, k') < |r| <==> k' != k && FindSession(ss, k') < |ss|)
      && (forall k' | FindSession(r, k') < |r| :: r[FindSession(r, k')] == ss[FindSession(ss, k')])
  {
    RemovedSession(ss, k);
  }

  lemma CancelSessions(s: Store, k: Key, k': Key)
    requires Inv(s)
    ensures var s' := Step(s, Cancel(k)).store;
      && s'.files == s.files
      && (HasSession(s', k') <==> HasSession(s, k') && k' != k)
      && (k' != k ==> SameSession(s, s', k'))
  {
    hide UnlockSentence, FindSession, RemoveSession, HeldBy, Distinct;
    Removed(s.sessions, k);
    var s1 := if HasSession(s, k)
      then s.(sessions := RemoveSession(s.sessions, k), temps := s.temps - {k}) else s;
    UnlockEffect(s1, k.file, k.idx, k.user);
  }

  /** Unlocking somebody else's file, or without a session, leaves this file alone. */
  lemma UnlockElsewhere(s: Store, f: string, k: Key)
    requires Inv(s) && (k.file != f || !HasSession(s, k))
    ensures SameFor(s, Step(s, Unlock(k)).store, f)
  {
    hide Inv, SameSession, HasSession, CommitSession, UnlockSentence;
    var s' := Step(s, Unlock(k)).store;
    UnlockEffect(CommitSession(s, k).store, k.file, k.idx, k.user);
    if HasSession(s, k) { CommitFrame(s, k); } else { NoCommit(s, k); }
    forall k': Key | k'.file == f ensures SameSession(s, s', k') {
      if k' != k { UnlockSessions(s, k, k'); } else { NoSessionEither(s, k); }
    }
  }

  lemma NoSessionEither(s: Store, k: Key)
    requires Inv(s) && !HasSession(s, k)
    ensures SameSession(s, Step(s, Unlock(k)).store, k)
  {
    hide Inv;
    UnlockSessions(s, k, k);
  }

  /** The requests without a session key. */
  lemma OthersElsewhere(s: Store, f: string, r: Request)
    requires Edits(r, f) && !r.Lock? && !r.Unlock? && !r.Cancel? && !r.Write?
    ensures SameFor(s, Step(s, r).store, f)
  {
    hide HasSession, InitLocks, Backup, SessionOf, Parse;
    EmptyParse();
    match r {
      case Create(g) => if g !in s.files { InitLocksFrame(s.(files := s.files[g := ""]), g, 1); }
      case Revert(g, _) => BackupFrame(s, g);
      case _ =>
    }
    forall k: Key | k.file == f ensures SameSession(s, Step(s, r).store, k) {
      SessionsSame(s, Step(s, r).store, k);
    }
  }

  lemma WriteElsewhere(s: Store, f: string, k: Key, word: int, content: string)
    requires k.file != f || !HasSession(s, k)
    ensures SameFor(s, Step(s, Write(k, word, content)).store, f)
  {
    hide HasSession, WriteText;
    var s' := Step(s, Write(k, word, content)).store;
    forall k': Key | k'.file == f ensures SameSession(s, s', k') {
      SessionsSame(s, s', k');
    }
  }

  lemma LockElsewhere(s: Store, f: string, k: Key)
    requires Inv(s) && (k.file != f || Step(s, Lock(k)).status != SUCCESS)
    ensures SameFor(s, Step(s, Lock(k)).store, f)
  {
    hide Inv, Step, SameSession;
    LockSessions(s, k, k);
    forall k': Key | k'.file == f ensures SameSession(s, Step(s, Lock(k)).store, k') {
      LockSessions(s, k, k');
    }
  }

  lemma CancelElsewhere(s: Store, f: string, k: Key)
    requires Inv(s) && k.file != f
    ensures SameFor(s, Step(s, Cancel(k)).store, f)
  {
    hide Inv, Step, SameSession;
    CancelSessions(s, k, k);
    forall k': Key | k'.file == f ensures SameSession(s, Step(s, Cancel(k)).store, k') {
      CancelSessions(s, k, k');
    }
  }

  /* ---- Requests of the file's sessions ---- */

  /** A session opened now, on the file as it is. */
  lemma FreshCopy(v: string, idx: nat)
    requires idx <= |Parse(v)|
    ensures var doc := SolidAll(Parse(v));
      CopyOk(v, doc, Slot(idx, 0, At(doc, idx), At(doc, idx)), idx, |doc|, v)
  {
    hide Tokens, Group, Solid, Tracks, Head, After;
    if idx < |Parse(v)| {
      TrackStart(v, idx);
      SolidSentence(Tokens(v), idx);
    } else if idx == 0 {
      NoSentences(v);
    }
  }

  lemma NoSentences(v: string)
    requires Parse(v) == []
    ensures v == "" && Solid(Tokens(v)) == []
  {
    hide Parse;
    if v != "" { LoadedEnd(v); }
  }

  lemma LockRefines(x: Desk, f: string, s: Store, k: Key)
    requires Inv(s) && FileOk(x, f, s) && SessionsOk(x, f, s)
    requires k.file == f && Step(s, Lock(k)).status == SUCCESS
    ensures var s', x' := Step(s, Lock(k)).store, DeskStep(x, f, s, Lock(k));
      FileOk(x', f, s') && SessionsOk(x', f, s')
  {
    hide Inv, Step, HasSession, SessionOf, CopyOk, Parse, SolidAll;
    var s', x' := Step(s, Lock(k)).store, DeskStep(x, f, s, Lock(k));
    var v := if f in s.files then s.files[f] else "";
    EmptyParse();
    LockOpens(s, k);
    LockInRange(s, k);
    FreshCopy(v, k.idx);
    assert SessionOk(x'.doc, x'.open[k], s', k);
    forall k': Key | k'.file == f
      ensures HasSession(s', k') <==> k' in x'.open
      ensures k' != k && k' in x'.open ==> SessionOk(x'.doc, x'.open[k'], s', k')
    {
      LockSessions(s, k, k');
      if k' != k && k' in x'.open { SessionOkSame(x.doc, x.open[k'], s, s', k'); }
    }
  }

  lemma LockInRange(s: Store, k: Key)
    requires Step(s, Lock(k)).status == SUCCESS
    ensures 0 <= k.idx <= |Sentences(Lookup(s.files, k.file))|
  {
    hide Parse;
  }

  lemma SessionOkSame(doc: seq<seq<Token>>, slot: Slot, s: Store, s': Store, k: Key)
    requires HasSession(s, k) && SessionOk(doc, slot, s, k) && SameSession(s, s', k)
    ensures SessionOk(doc, slot, s', k)
  {
    hide CopyOk, HasSession, SessionOf;
  }

  lemma WriteRefines(x: Desk, f: string, s: Store, k: Key, word: int, content: string)
    requires Inv(s) && FileOk(x, f, s) && SessionsOk(x, f, s) && k in x.open
    ensures var r := Write(k, word, content); var s', x' := Step(s, r).store, DeskStep(x, f, s, r);
      FileOk(x', f, s') && SessionsOk(x', f, s')
  {
    hide Inv, HasSession, SessionOf, SessionOk, WriteText, Tokens, Solid, SpliceHead, SolidAll, Sentences;
    var r := Write(k, word, content);
    var s' := Step(s, r).store;
    WriteOwn(x.doc, x.open[k], s, k, word, content);
    forall k': Key | k'.file == f
      ensures HasSession(s', k') <==> HasSession(s, k')
      ensures k' != k && k' in x.open ==> SessionOk(x.doc, x.open[k'], s', k')
    {
      WriteOther(s, k, word, content, k');
      if k' != k && k' in x.open { SessionOkSame(x.doc, x.open[k'], s, s', k'); }
    }
  }

  lemma WriteOwn(doc: seq<seq<Token>>, slot: Slot, s: Store, k: Key, word: int, content: string)
    requires HasSession(s, k) && SessionOk(doc, slot, s, k)
    ensures var s' := Step(s, Write(k, word, content)).store;
      HasSession(s', k)
      && SessionOk(doc, slot.(region := SpliceHead(slot.region, word, Solid(Tokens(content)))), s', k)
  {
    hide CopyOk, WriteText, Parse, Tokens, Solid, SpliceHead, FindSession;
    var original := SessionOf(s, k).original;
    var v :| CopyOk(v, doc, slot, k.idx, original, s.temps[k]);
    var s' := Step(s, Write(k, word, content)).store;
    WriteOther(s, k, word, content, k);
    CopyWritten(v, doc, slot, k.idx, original, s.temps[k], word, content);
    assert SessionOf(s', k).original == original;
    assert CopyOk(v, doc, slot.(region := SpliceHead(slot.region, word, Solid(Tokens(content)))), k.idx, original, s'.temps[k]);
  }

  lemma CopyWritten(v: string, doc: seq<seq<Token>>, slot: Slot, idx: nat, original: nat, temp: string,
      word: int, content: string)
    requires CopyOk(v, doc, slot, idx, original, temp)
    ensures var r := WriteText(Some(temp), idx, word, content);
      CopyOk(v, doc, slot.(region := SpliceHead(slot.region, word, Solid(Tokens(content)))), idx, original,
             if r.Some? then r.value else temp)
  {
    hide Tracks, WriteText, Parse, Tokens, Solid, SpliceHead;
    var n := |Parse(v)|;
    if idx < n {
      TrackStep(v, idx, slot.region, temp, WriteOp(word, content));
    } else if n == 0 {
      EmptyTrackStep(temp, word, content);
    }
  }

  /** A WRITE is accepted if and only if its word position is one of the edited sentence. */
  lemma WriteAccepted(x: Desk, f: string, s: Store, k: Key, word: int, content: string)
    requires SessionsOk(x, f, s) && k in x.open && x.open[k].pos + x.open[k].lag < |x.doc|
    ensures Step(s, Write(k, word, content)).status
      == if ValidWord(Head(x.open[k].region), word) then SUCCESS else ERR_INVALID_INDEX
  {
    hide CopyOk, WriteText, FindSession, Tokens, Solid, ValidWord, Head;
    var slot, original := x.open[k], SessionOf(s, k).original;
    assert SessionOk(x.doc, slot, s, k);
    var v :| CopyOk(v, x.doc, slot, k.idx, original, s.temps[k]);
    CopyAccepts(v, x.doc, slot, k.idx, original, s.temps[k], WriteOp(word, content));
  }

  lemma CopyAccepts(v: string, doc: seq<seq<Token>>, slot: Slot, idx: nat, original: nat, temp: string, op: WriteOp)
    requires CopyOk(v, doc, slot, idx, original, temp) && slot.pos + slot.lag < |doc|
    ensures WriteText(Some(temp), idx, op.word, op.content).Some? <==> ValidWord(Head(slot.region), op.word)
  {
    hide Tracks, WriteText, Parse, Tokens, Solid, ValidWord, Head;
    TrackAccepts(v, idx, slot.region, temp, op);
  }

  lemma EmptyTrackStep(temp: string, word: int, content: string)
    ensures var r := WriteText(Some(temp), 0, word, content);
      Solid(Tokens(if r.Some? then r.value else temp)) == SpliceHead(Solid(Tokens(temp)), word, Solid(Tokens(content)))
  {
    hide WriteText, Tokens, Solid, SpliceHead;
    AnyFirstSentence(temp, content);
    WriteRefinesSplice(temp, 0, word, content);
    FirstSplice(Solid(Tokens(temp)), word, Solid(Tokens(content)));
  }

  lemma FirstSplice(ts: seq<Token>, word: int, parts: seq<Token>)
    ensures SpliceAt(ts, 0, word, parts) == SpliceHead(ts, word, parts)
  {}

  lemma WriteOther(s: Store, k: Key, word: int, content: string, k': Key)
    ensures var s' := Step(s, Write(k, word, content)).store;
      (HasSession(s', k') <==> HasSession(s, k')) && (k' != k ==> SameSession(s, s', k'))
      && (HasSession(s, k') ==> SessionOf(s', k') == SessionOf(s, k'))
  {
    hide WriteText, HasSession, SessionOf;
    SessionsSame(s, Step(s, Write(k, word, content)).store, k');
  }

  lemma CancelRefines(x: Desk, f: string, s: Store, k: Key)
    requires Inv(s) && FileOk(x, f, s) && SessionsOk(x, f, s) && k.file == f
    ensures var s', x' := Step(s, Cancel(k)).store, DeskStep(x, f, s, Cancel(k));
      FileOk(x', f, s') && SessionsOk(x', f, s')
  {
    hide Inv, Step, HasSession, SessionOf, SessionOk, Sentences, SolidAll;
    var s' := Step(s, Cancel(k)).store;
    CancelSessions(s, k, k);
    forall k': Key | k'.file == f
      ensures HasSession(s', k') <==> HasSession(s, k') && k' != k
      ensures k' != k && k' in x.open ==> SessionOk(x.doc, x.open[k'], s', k')
    {
      CancelSessions(s, k, k');
      if k' != k && k' in x.open { SessionOkSame(x.doc, x.open[k'], s, s', k'); }
    }
  }

  /** Two open sessions on one file have different indices. */
  lemma DistinctSentences(s: Store, k: Key, k': Key)
    requires Inv(s) && HasSession(s, k) && HasSession(s, k') && k != k' && k.file == k'.file
    ensures k.idx != k'.idx
  {
    assert HeldBy(s, k.file, k.idx, k.user) && HeldBy(s, k'.file, k'.idx, k'.user);
  }

  /** What a commit makes of the list, when a queue is there. */
  lemma CommitRefines(doc: seq<seq<Token>>, slot: Slot, file: Option<string>, v: string, idx: nat, temp: string)
    requires SolidAll(Sentences(file)) == doc && CopyOk(v, doc, slot, idx, |Parse(v)|, temp)
    ensures var t, tail := slot.pos + slot.lag, OpenText(temp);
      SolidAll(Sentences(ApplyCommit(file, idx, |Parse(v)|, Some(temp))))
      == if doc == [] then Pieces(slot.region, tail)
         else if t < |doc| then doc[..t] + Pieces(slot.region, t + 1 == |doc| && tail) + doc[t + 1..]
         else doc
    ensures doc != [] && slot.pos + slot.lag < |doc| ==>
      Pieces(slot.region, slot.pos + slot.lag + 1 == |doc| && OpenText(temp)) != []
  {
    hide Parse, SolidAll, ApplyCommit, Pieces, OpenText, Tracks;
    if doc == [] {
      CommitToNothing(file, temp);
    } else if idx < |Parse(v)| {
      CommitPieces(v, idx, slot.region, temp, file.value);
    } else {
      AppendLockIsDropped(file, idx, Some(temp));
    }
  }

  /** The first commit to an empty or missing file. */
  lemma CommitToNothing(file: Option<string>, temp: string)
    requires Sentences(file) == []
    ensures SolidAll(Sentences(ApplyCommit(file, 0, 0, Some(temp)))) == Pieces(Solid(Tokens(temp)), OpenText(temp))
  {
    hide Parse, Print, Norm, Document, Solid, Tokens, DelimiterCount, OpenText, Pieces, SolidAll;
    ParseIsDocument(temp);
    ParsePrint(Parse(temp));
    NormSolid(Parse(temp));
    AllPieces(temp);
  }

  lemma AllPieces(temp: string)
    ensures SolidAll(Parse(temp)) == Pieces(Solid(Tokens(temp)), OpenText(temp))
  {
    hide Solid, Tokens, DelimiterCount, OpenText, Head, After, Group;
    var d := Parse(temp);
    SentenceCount(temp);
    forall i | 0 <= i < |d| ensures Solid(d[i]) == Head(After(Solid(Tokens(temp)), i)) {
      SolidSentence(Tokens(temp), i);
    }
  }

  lemma UnlockFile(x: Desk, f: string, s: Store, k: Key)
    requires Inv(s) && FileOk(x, f, s) && SessionsOk(x, f, s) && k in x.open
    ensures FileOk(DeskStep(x, f, s, Unlock(k)), f, Step(s, Unlock(k)).store)
    ensures QueueFree(s, f) && x.doc != [] && x.open[k].pos + x.open[k].lag < |x.doc| ==>
      k in s.temps
      && Pieces(x.open[k].region, x.open[k].pos + x.open[k].lag + 1 == |x.doc| && OpenText(s.temps[k])) != []
  {
    hide Inv, Step, HasSession, SessionOf, CopyOk, Pieces, SolidAll, OpenText, QueueFree, ApplyCommit, Sentences;
    UnlockOutcome(s, k);
    var slot := x.open[k];
    assert SessionOk(x.doc, slot, s, k);
    var v :| CopyOk(v, x.doc, slot, k.idx, SessionOf(s, k).original, s.temps[k]);
    SlotRange(v, x.doc, slot, k.idx, SessionOf(s, k).original, s.temps[k]);
    CommitRefines(x.doc, slot, Lookup(s.files, f), v, k.idx, s.temps[k]);
  }

  lemma SlotRange(v: string, doc: seq<seq<Token>>, slot: Slot, idx: nat, original: nat, temp: string)
    requires CopyOk(v, doc, slot, idx, original, temp)
    ensures original == |Parse(v)| && slot.lag >= 0 && slot.pos + slot.lag <= |doc|
    ensures doc == [] ==> idx == 0
    ensures slot.pos + slot.lag == |doc| <==> idx == original
  {
    hide Parse;
  }

  /** A commit moves the other sessions' sentences and leaves their copies alone. */
  lemma CopyMoved(v: string, doc: seq<seq<Token>>, doc': seq<seq<Token>>, slot: Slot, t: nat,
      idx: nat, original: nat, temp: string)
    requires CopyOk(v, doc, slot, idx, original, temp) && doc != [] && doc' != [] && |doc'| >= |doc|
    ensures CopyOk(v, doc', Moved(slot, t, |doc'| - |doc|), idx, original, temp)
  {
    hide Parse, Tracks, Solid, Tokens;
  }

  lemma SessionMoved(doc: seq<seq<Token>>, doc': seq<seq<Token>>, slot: Slot, t: nat, s: Store, s': Store, k: Key)
    requires HasSession(s, k) && SessionOk(doc, slot, s, k) && SameSession(s, s', k)
    requires doc != [] && |doc'| >= |doc|
    ensures SessionOk(doc', Moved(slot, t, |doc'| - |doc|), s', k)
  {
    hide CopyOk, HasSession, SessionOf, Moved;
    var v :| CopyOk(v, doc, slot, k.idx, SessionOf(s, k).original, s.temps[k]);
    CopyMoved(v, doc, doc', slot, t, k.idx, SessionOf(s, k).original, s.temps[k]);
  }

  lemma AloneOnNothing(x: Desk, f: string, s: Store, k: Key, k': Key)
    requires Inv(s) && SessionsOk(x, f, s) && x.doc == [] && k in x.open && k' in x.open
    ensures k == k'
  {
    hide Inv, HasSession, SessionOf, CopyOk;
    var v :| CopyOk(v, x.doc, x.open[k], k.idx, SessionOf(s, k).original, s.temps[k]);
    var v' :| CopyOk(v', x.doc, x.open[k'], k'.idx, SessionOf(s, k').original, s.temps[k']);
    SlotRange(v, x.doc, x.open[k], k.idx, SessionOf(s, k).original, s.temps[k]);
    SlotRange(v', x.doc, x.open[k'], k'.idx, SessionOf(s, k').original, s.temps[k']);
    if k != k' { DistinctSentences(s, k, k'); }
  }

  lemma UnlockRefines(x: Desk, f: string, s: Store, k: Key)
    requires Inv(s) && FileOk(x, f, s) && SessionsOk(x, f, s) && k in x.open
    ensures var s', x' := Step(s, Unlock(k)).store, DeskStep(x, f, s, Unlock(k));
      FileOk(x', f, s') && SessionsOk(x', f, s')
  {
    hide Inv, Step, HasSession, SessionOf, SessionOk, Pieces, OpenText, QueueFree, FileOk, Moved;
    var s', x', slot := Step(s, Unlock(k)).store, DeskStep(x, f, s, Unlock(k)), x.open[k];
    UnlockFile(x, f, s, k);
    forall k': Key | k'.file == f
      ensures HasSession(s', k') <==> k' in x'.open
      ensures k' in x'.open ==> SessionOk(x'.doc, x'.open[k'], s', k')
    {
      UnlockSessions(s, k, k');
      if k' in x'.open {
        if x.doc == [] {
          AloneOnNothing(x, f, s, k, k');
        } else if x'.doc == x.doc && x'.open[k'] == x.open[k'] {
          SessionOkSame(x.doc, x.open[k'], s, s', k');
        } else {
          SessionMoved(x.doc, x'.doc, x.open[k'], slot.pos + slot.lag, s, s', k');
        }
      }
    }
  }

  /* ---- Whole runs ---- */

  lemma StepRefines(x: Desk, f: string, s: Store, r: Request)
    requires Inv(s) && FileOk(x, f, s) && SessionsOk(x, f, s) && Edits(r, f)
    ensures FileOk(DeskStep(x, f, s, r), f, Step(s, r).store)
    ensures SessionsOk(DeskStep(x, f, s, r), f, Step(s, r).store)
  {
    hide Inv, Step, HasSession, Parse, Tokens, Solid, SameFor, Put, FileOk;
    var s' := Step(s, r).store;
    OpenIsSession(x, f, s);
    match r
    case Lock(k) =>
      if k.file == f && Step(s, r).status == SUCCESS {
        LockInRange(s, k);
        LockRefines(x, f, s, k);
      } else {
        LockElsewhere(s, f, k);
        SameKeeps(x, f, s, s');
      }
    case Write(k, word, content) =>
      if k in x.open {
        WriteRefines(x, f, s, k, word, content);
      } else {
        WriteElsewhere(s, f, k, word, content);
        SameKeeps(x, f, s, s');
      }
    case Cancel(k) =>
      if k.file == f {
        CancelRefines(x, f, s, k);
      } else {
        CancelElsewhere(s, f, k);
        SameKeeps(x, f, s, s');
        assert x.open - {k} == x.open;
      }
    case Unlock(k) =>
      if k in x.open {
        UnlockRefines(x, f, s, k);
      } else {
        UnlockElsewhere(s, f, k);
        SameKeeps(x, f, s, s');
      }
    case _ =>
      OthersElsewhere(s, f, r);
      SameKeeps(x, f, s, s');
  }

  lemma OpenIsSession(x: Desk, f: string, s: Store)
    requires SessionsOk(x, f, s)
    ensures forall k: Key :: k in x.open <==> k.file == f && HasSession(s, k)
  {
    hide HasSession;
  }

  lemma {:induction false} RunRefines(x: Desk, f: string, s: Store, rs: seq<Request>)
    requires Inv(s) && FileOk(x, f, s) && SessionsOk(x, f, s)
    requires forall j | 0 <= j < |rs| :: Edits(rs[j], f)
    ensures FileOk(DeskRun(x, f, s, rs), f, Run(s, rs)) && SessionsOk(DeskRun(x, f, s, rs), f, Run(s, rs))
    decreases |rs|
  {
    hide Inv, Step, FileOk, SessionsOk, DeskStep, Edits;
    if rs == [] {
    } else {
      StepRefines(x, f, s, rs[0]);
      StepKeepsInv(s, rs[0]);
      RunRefines(DeskStep(x, f, s, rs[0]), f, Step(s, rs[0]).store, rs[1..]);
    }
  }

  /** The desk of a file that nobody edits. */
  function Start(f: string, s: Store): Desk {
    Desk(SolidAll(Sentences(Lookup(s.files, f))), map[])
  }

  /** Any number of users, any interleaving of LOCK, WRITE, CANCEL and UNLOCK with each other and
      with requests for other files.  From a state where nobody edits `f`, as long as UNDO, REVERT and
      DELETE do not replace it: its sentences are, up to spaces, those of the reference machine, and
      its open sessions are the machine's. */
  lemma ConcurrentEditing(s: Store, f: string, rs: seq<Request>)
    requires Inv(s) && forall k: Key | k.file == f :: !HasSession(s, k)
    requires forall j | 0 <= j < |rs| :: Edits(rs[j], f)
    ensures var s', desk := Run(s, rs), DeskRun(Start(f, s), f, s, rs);
      && SolidAll(Sentences(Lookup(s'.files, f))) == desk.doc
      && (f in s'.files ==> Solid(Tokens(s'.files[f])) == Flatten(desk.doc))
      && forall k: Key | k.file == f :: HasSession(s', k) <==> k in desk.open
  {
    hide Inv, Run, DeskRun, Parse, Tokens, Solid, HasSession, SolidAll, Edits;
    RunRefines(Start(f, s), f, s, rs);
    var s' := Run(s, rs);
    if f in s'.files {
      FlattenParse(s'.files[f]);
      SolidFlatten(Parse(s'.files[f]));
    }
  }

  lemma FlattenParse(file: string)
    ensures Flatten(Parse(file)) == Tokens(file)
  {
    FlattenGroup(Tokens(file));
  }

  /* ---- Which sentence a commit replaces ---- */

  /** The request commits another session and adds sentences at or behind the place of session `k`. */
  ghost predicate AddsBehind(x: Desk, f: string, s: Store, r: Request, k: Key)
    requires k in x.open
  {
    r.Unlock? && r.key != k && r.key in x.open && QueueFree(s, f) && x.doc != [] &&
    var slot, t := x.open[r.key], x.open[r.key].pos + x.open[r.key].lag;
    0 <= t < |x.doc| && t >= x.open[k].pos
    && |Pieces(slot.region, t + 1 == |x.doc| && r.key in s.temps && OpenText(s.temps[r.key]))| > 1
  }

  /** No request of the run does. */
  ghost predicate NoneBehind(x: Desk, f: string, s: Store, rs: seq<Request>, k: Key)
    decreases |rs|
  {
    rs == [] || k !in x.open ||
    (!AddsBehind(x, f, s, rs[0], k) && NoneBehind(DeskStep(x, f, s, rs[0]), f, Step(s, rs[0]).store, rs[1..], k))
  }

  lemma StepLag(x: Desk, f: string, s: Store, r: Request, k: Key)
    requires Inv(s) && FileOk(x, f, s) && SessionsOk(x, f, s) && Edits(r, f) && k in x.open && Leaves(r, k)
    ensures var x' := DeskStep(x, f, s, r);
      && k in x'.open && x'.open[k].lag >= x.open[k].lag
      && (x'.open[k].lag == x.open[k].lag <==> !AddsBehind(x, f, s, r, k))
  {
    hide Inv, Step, HasSession, SessionOk, Pieces, OpenText, QueueFree, FileOk, Edits;
    OpenIsSession(x, f, s);
    if r.Unlock? && r.key in x.open {
      UnlockFile(x, f, s, r.key);
      if x.doc == [] { AloneOnNothing(x, f, s, r.key, k); }
    }
  }

  /** A session's lag is zero if and only if no commit since its LOCK added sentences at or behind
      the place of its sentence. */
  lemma {:induction false} LagExactly(x: Desk, f: string, s: Store, rs: seq<Request>, k: Key)
    requires Inv(s) && FileOk(x, f, s) && SessionsOk(x, f, s) && k in x.open
    requires forall j | 0 <= j < |rs| :: Edits(rs[j], f) && Leaves(rs[j], k)
    ensures var x' := DeskRun(x, f, s, rs);
      && k in x'.open && x'.open[k].lag >= x.open[k].lag
      && (x'.open[k].lag == x.open[k].lag <==> NoneBehind(x, f, s, rs, k))
    decreases |rs|
  {
    hide Inv, Step, FileOk, SessionsOk, DeskStep, Edits, Leaves, AddsBehind;
    if rs == [] {
    } else {
      StepLag(x, f, s, rs[0], k);
      StepRefines(x, f, s, rs[0]);
      StepKeepsInv(s, rs[0]);
      LagExactly(DeskStep(x, f, s, rs[0]), f, Step(s, rs[0]).store, rs[1..], k);
    }
  }

  /** Every open session's sentence is in the file as it was locked, and no two sessions edit the
      same one. */
  ghost predicate Apart(x: Desk) {
    && (forall k | k in x.open && x.open[k].pos < |x.doc| :: x.doc[x.open[k].pos] == x.open[k].start)
    && (forall k, k' | k in x.open && k' in x.open && k != k' && x.open[k].pos < |x.doc| ::
          x.open[k].pos != x.open[k'].pos)
  }

  /** A LOCK does not take a sentence that another session is editing, and a commit has no lag. */
  ghost predicate Calm(x: Desk, f: string, s: Store, r: Request) {
    match r
    case Lock(k) =>
      k.file == f && k.idx < |x.doc| && Step(s, r).status == SUCCESS ==>
        forall k' | k' in x.open && k' != k :: x.open[k'].pos != k.idx
    case Unlock(k) => k in x.open && QueueFree(s, f) && x.open[k].pos < |x.doc| ==> x.open[k].lag == 0
    case _ => true
  }

  ghost predicate CalmRun(x: Desk, f: string, s: Store, rs: seq<Request>)
    decreases |rs|
  {
    rs == [] || (Calm(x, f, s, rs[0]) && CalmRun(DeskStep(x, f, s, rs[0]), f, Step(s, rs[0]).store, rs[1..]))
  }

  lemma StepApart(x: Desk, f: string, s: Store, r: Request)
    requires Inv(s) && FileOk(x, f, s) && SessionsOk(x, f, s) && Edits(r, f) && Apart(x) && Calm(x, f, s, r)
    ensures Apart(DeskStep(x, f, s, r))
  {
    hide Inv, Step, HasSession, SessionOk, Pieces, OpenText, QueueFree, FileOk, Edits;
    match r
    case Lock(k) =>
    case Write(k, _, _) =>
    case Cancel(k) =>
    case Unlock(k) =>
      if k in x.open && QueueFree(s, f) {
        UnlockFile(x, f, s, k);
        OpenRange(x, f, s, k);
        if x.doc == [] {
          forall k' | k' in x.open ensures k' == k { AloneOnNothing(x, f, s, k, k'); }
        } else {
          PutApart(x, k, OpenText(s.temps[k]));
        }
      }
    case _ =>
  }

  lemma PutApart(x: Desk, k: Key, tail: bool)
    requires Apart(x) && k in x.open && x.doc != []
    requires x.open[k].lag == 0 && x.open[k].pos <= |x.doc|
    requires x.open[k].pos < |x.doc| ==> Pieces(x.open[k].region, x.open[k].pos + 1 == |x.doc| && tail) != []
    ensures Apart(Put(x, k, tail))
  {
    hide Pieces, Moved;
    var t, x' := x.open[k].pos, Put(x, k, tail);
    if t < |x.doc| {
      var new_ := Pieces(x.open[k].region, t + 1 == |x.doc| && tail);
      forall k' | k' in x'.open
        ensures k' in x.open && x.open[k'].pos != t && x'.open[k'] == Moved(x.open[k'], t, |new_| - 1)
        ensures x'.open[k'].pos < |x'.doc| ==> x'.doc[x'.open[k'].pos] == x'.open[k'].start
      {
        MovedInPlace(x.doc, new_, t, x.open[k']);
      }
      forall k', l | k' in x'.open && l in x'.open && k' != l && x'.open[k'].pos < |x'.doc|
        ensures x'.open[k'].pos != x'.open[l].pos
      {
        MovedInPlace(x.doc, new_, t, x.open[k']);
        MovedApart(x.open[k'], x.open[l], t, |new_| - 1);
      }
    }
  }

  lemma MovedInPlace(doc: seq<seq<Token>>, new_: seq<seq<Token>>, t: nat, slot: Slot)
    requires t < |doc| && new_ != [] && slot.pos != t
    ensures var doc', moved := doc[..t] + new_ + doc[t + 1..], Moved(slot, t, |new_| - 1);
      && moved.start == slot.start
      && (moved.pos < |doc'| <==> slot.pos < |doc|)
      && (slot.pos < |doc| ==> doc'[moved.pos] == doc[slot.pos])
  {}

  lemma MovedApart(a: Slot, b: Slot, t: nat, g: nat)
    requires a.pos != t && b.pos != t
    ensures Moved(a, t, g).pos == Moved(b, t, g).pos <==> a.pos == b.pos
  {}

  lemma {:induction false} RunApart(x: Desk, f: string, s: Store, rs: seq<Request>)
    requires Inv(s) && FileOk(x, f, s) && SessionsOk(x, f, s) && Apart(x) && CalmRun(x, f, s, rs)
    requires forall j | 0 <= j < |rs| :: Edits(rs[j], f)
    ensures Apart(DeskRun(x, f, s, rs))
    decreases |rs|
  {
    hide Inv, Step, FileOk, SessionsOk, DeskStep, Edits, Apart, Calm;
    if rs == [] {
    } else {
      StepApart(x, f, s, rs[0]);
      StepRefines(x, f, s, rs[0]);
      StepKeepsInv(s, rs[0]);
      RunApart(DeskStep(x, f, s, rs[0]), f, Step(s, rs[0]).store, rs[1..]);
    }
  }

  /** After such a run the sentence that a session locked is in the file unchanged, and no other
      session edits it.  Its UNLOCK, with a queue free, replaces one sentence by what its own WRITEs
      made of the locked one; and that is the locked one if and only if the lag is zero.  With a lag
      the locked sentence stays and a later one is overwritten. */
  lemma CommitReplaces(s: Store, f: string, rs: seq<Request>, k: Key)
    requires Inv(s) && forall k: Key | k.file == f :: !HasSession(s, k)
    requires (forall j | 0 <= j < |rs| :: Edits(rs[j], f)) && CalmRun(Start(f, s), f, s, rs)
    requires var desk := DeskRun(Start(f, s), f, s, rs);
      k in desk.open && desk.open[k].pos < |desk.doc| && QueueFree(Run(s, rs), f)
    ensures var s', desk := Run(s, rs), DeskRun(Start(f, s), f, s, rs);
      var slot, doc' := desk.open[k], SolidAll(Sentences(Lookup(Step(s', Unlock(k)).store.files, f)));
      var t := slot.pos + slot.lag;
      && desk.doc[slot.pos] == slot.start
      && (forall k' | k' in desk.open && k' != k :: desk.open[k'].pos != slot.pos)
      && slot.pos <= t <= |desk.doc| && k in s'.temps
      && doc' == (if t < |desk.doc|
                  then desk.doc[..t] + Pieces(slot.region, t + 1 == |desk.doc| && OpenText(s'.temps[k])) + desk.doc[t + 1..]
                  else desk.doc)
      && (slot.lag != 0 ==> |doc'| > slot.pos && doc'[slot.pos] == slot.start)
  {
    hide Inv, Run, DeskRun, CalmRun, Parse, HasSession, SolidAll, Edits, Step, Pieces, OpenText, SessionOk, QueueFree;
    var x, s' := DeskRun(Start(f, s), f, s, rs), Run(s, rs);
    RunRefines(Start(f, s), f, s, rs);
    RunApart(Start(f, s), f, s, rs);
    RunKeepsInv(s, rs);
    UnlockFile(x, f, s', k);
    OpenRange(x, f, s', k);
  }

  lemma OpenRange(x: Desk, f: string, s: Store, k: Key)
    requires SessionsOk(x, f, s) && k in x.open
    ensures k in s.temps && x.open[k].lag >= 0 && x.open[k].pos + x.open[k].lag <= |x.doc|
  {
    hide HasSession, SessionOf, CopyOk;
    var v :| CopyOk(v, x.doc, x.open[k], k.idx, SessionOf(s, k).original, s.temps[k]);
    SlotRange(v, x.doc, x.open[k], k.idx, SessionOf(s, k).original, s.temps[k]);
  }

  /** LOCK compares the index it is given with those that the open sessions gave at their LOCK, not
      with where their sentences are now.  So a sentence that is being edited can be locked again as
      soon as a commit before it has moved it. */
  lemma LockLooksAtIndex(x: Desk, f: string, s: Store, k: Key)
    requires Inv(s) && FileOk(x, f, s) && SessionsOk(x, f, s) && k.file == f && 0 <= k.idx < |x.doc|
    ensures Step(s, Lock(k)).status == SUCCESS <==>
      && (forall k' | k' in x.open && k'.idx == k.idx :: k'.user == k.user)
      && (k in x.open || |s.sessions| < MAX_SESSIONS)
  {
    hide Step, Parse, SessionOk, HasSession, HeldBy;
    LockGranted(s, k);
    OpenIsSession(x, f, s);
    forall u ensures HeldBy(s, f, k.idx, u) <==> Key(f, u, k.idx) in x.open {
      assert HasSession(s, Key(f, u, k.idx)) <==> HeldBy(s, f, k.idx, u);
    }
  }
}
