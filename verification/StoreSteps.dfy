/** The storage server's handlers (`ss.c`) as atomic steps on a value.

    Files, undo copies, checkpoints and session copies are separate maps.  Sentence locks are a
    growing array per file, write sessions a compacted array, commits a queue per file.
 */
module StoreSteps {
  import opened Wrappers
  import opened Text
  import opened Insertion
  import opened Merge

  const SUCCESS := 200
  const ERR_INVALID_INDEX := 400
  const ERR_ACCESS_DENIED := 403
  const ERR_FILE_NOT_FOUND := 404
  const ERR_INVALID_OPERATION := 405
  const ERR_FILE_EXISTS := 409
  const ERR_SENTENCE_LOCKED := 423
  const ERR_SERVER_ERROR := 500

  const MAX_SESSIONS := 1000
  const MAX_FILE_QUEUES := 100

  datatype SentenceLock = SentenceLock(locked: bool, holder: string)

  const FREE := SentenceLock(false, "")

  /** A write session is identified by its file, user and sentence; so is its copy of the file. */
  datatype Key = Key(file: string, user: string, idx: int)

  datatype WriteSession = WriteSession(key: Key, original: nat)

  datatype CommitEntry = CommitEntry(key: Key, original: nat)

  datatype Store = Store(
    files: map<string, string>,
    undo: map<string, string>,
    checkpoints: map<(string, string), string>,
    temps: map<Key, string>,
    locks: map<string, seq<SentenceLock>>,
    sessions: seq<WriteSession>,
    queues: map<string, seq<CommitEntry>>)

  datatype Reply = Reply(store: Store, status: int)

  function Lookup<K, V>(m: map<K, V>, k: K): Option<V> {
    if k in m then Some(m[k]) else None
  }

  /* ---- Locks ---- */

  /** `init_file_locks`: at least `count` locks, and at least one, keeping those there are. */
  function GrownLocks(locks: seq<SentenceLock>, count: nat): (r: seq<SentenceLock>)
    ensures |r| >= count && |r| >= |locks| && r[..|locks|] == locks
    ensures forall i | |locks| <= i < |r| :: r[i] == FREE
  {
    var n := if count == 0 then 1 else count;
    if |locks| < n then locks + seq(n - |locks|, _ => FREE) else locks
  }

  function LocksOf(s: Store, f: string): seq<SentenceLock> {
    if f in s.locks then s.locks[f] else []
  }

  function InitLocks(s: Store, f: string, count: nat): Store {
    s.(locks := s.locks[f := GrownLocks(LocksOf(s, f), count)])
  }

  predicate LockExists(s: Store, f: string, i: int) {
    f in s.locks && 0 <= i < |s.locks[f]|
  }

  /** The lock of sentence `i` is held by user `u`. */
  predicate HeldBy(s: Store, f: string, i: int, u: string) {
    LockExists(s, f, i) && s.locks[f][i].locked && s.locks[f][i].holder == u
  }

  function SetLock(s: Store, f: string, i: int, l: SentenceLock): Store
    requires LockExists(s, f, i)
  {
    s.(locks := s.locks[f := s.locks[f][i := l]])
  }

  /** `lock_sentence_ss`: a user may lock again what he has locked. */
  function LockSentence(s: Store, f: string, i: nat, u: string): Reply {
    var s1 := InitLocks(s, f, i + 1);
    var lock := s1.locks[f][i];
    if lock.locked && lock.holder != u then Reply(s1, ERR_SENTENCE_LOCKED)
    else Reply(SetLock(s1, f, i, SentenceLock(true, u)), SUCCESS)
  }

  /** `unlock_sentence_ss` */
  function UnlockSentence(s: Store, f: string, i: int, u: string): Reply {
    if !LockExists(s, f, i) then Reply(s, ERR_INVALID_INDEX)
    else if !HeldBy(s, f, i, u) then Reply(s, ERR_ACCESS_DENIED)
    else Reply(SetLock(s, f, i, FREE), SUCCESS)
  }

  /* ---- Sessions ---- */

  /** The position of the first session with the given key, or the number of sessions. */
  function FindSession(ss: seq<WriteSession>, k: Key): (n: nat)
    ensures n <= |ss|
    ensures n < |ss| ==> ss[n].key == k
    ensures forall j | 0 <= j < n :: ss[j].key != k
  {
    if ss == [] || ss[0].key == k then 0 else 1 + FindSession(ss[1..], k)
  }

  predicate HasSession(s: Store, k: Key) {
    FindSession(s.sessions, k) < |s.sessions|
  }

  function RemoveSession(ss: seq<WriteSession>, k: Key): seq<WriteSession> {
    var n := FindSession(ss, k);
    if n < |ss| then ss[..n] + ss[n + 1..] else ss
  }

  /** `start_write_session_ss`: open a session, or start an open one afresh, on a copy of the
      file; fails when the session array is full. */
  function StartSession(s: Store, k: Key): Option<Store> {
    var file := Lookup(s.files, k.file);
    var session := WriteSession(k, |Sentences(file)|);
    var n := FindSession(s.sessions, k);
    if n == |s.sessions| && |s.sessions| >= MAX_SESSIONS then None
    else
      var sessions := if n < |s.sessions| then s.sessions[n := session] else s.sessions + [session];
      Some(s.(sessions := sessions, temps := s.temps[k := if file.Some? then file.value else ""]))
  }

  /* ---- Commits ---- */

  /** `enqueue_commit`, which fails when all file queues are taken. */
  function Enqueue(s: Store, e: CommitEntry): Option<Store> {
    var f := e.key.file;
    if f in s.queues then Some(s.(queues := s.queues[f := s.queues[f] + [e]]))
    else if |s.queues| >= MAX_FILE_QUEUES then None
    else Some(s.(queues := s.queues[f := [e]]))
  }

  /** A commit to the file finds its queue, or a free place for one. */
  predicate QueueFree(s: Store, f: string) {
    f in s.queues || |s.queues| < MAX_FILE_QUEUES
  }

  function SetFile(s: Store, f: string, file: Option<string>): Store {
    if file.Some? then s.(files := s.files[f := file.value]) else s
  }

  /** One entry off the front of the file's queue. */
  function ProcessEntry(s: Store, f: string, e: CommitEntry): Store {
    var temp := Lookup(s.temps, e.key);
    var idx := if e.key.idx < 0 then 0 else e.key.idx;
    SetFile(s, f, ApplyCommit(Lookup(s.files, f), idx, e.original, temp)).(temps := s.temps - {e.key})
  }

  function ProcessEntries(s: Store, f: string, entries: seq<CommitEntry>): Store
    decreases |entries|
  {
    if entries == [] then s else ProcessEntries(ProcessEntry(s, f, entries[0]), f, entries[1..])
  }

  /** `create_undo_backup`, which does nothing when the file is missing. */
  function Backup(s: Store, f: string): Store {
    if f in s.files then s.(undo := s.undo[f := s.files[f]]) else s
  }

  /** `process_commit_queue` on a file that has a queue. */
  function ProcessQueue(s: Store, f: string): Store
    requires f in s.queues
  {
    if s.queues[f] == [] then s
    else ProcessEntries(Backup(s, f), f, s.queues[f]).(queues := s.queues[f := []])
  }

  /** `commit_write_session_ss` */
  function CommitSession(s: Store, k: Key): Reply {
    var n := FindSession(s.sessions, k);
    if n == |s.sessions| then Reply(s, SUCCESS)
    else
      var removed := RemoveSession(s.sessions, k);
      match Enqueue(s, CommitEntry(k, s.sessions[n].original))
      case None => Reply(s.(sessions := removed, temps := s.temps - {k}), ERR_SERVER_ERROR)
      case Some(s1) => Reply(ProcessQueue(s1.(sessions := removed), k.file), SUCCESS)
  }

  /* ---- Requests ---- */

  datatype Request =
    | Lock(key: Key)
    | Write(key: Key, word: int, content: string)
    | Unlock(key: Key)
    | Cancel(key: Key)
    | Undo(file: string)
    | Create(file: string)
    | Delete(file: string)
    | Checkpoint(file: string, tag: string)
    | Revert(file: string, tag: string)

  /** The index check of LOCK: an existing sentence, or the one past a file whose last token is
      a delimiter or a newline; sentence 0 of an empty file. */
  predicate LockAllowed(ss: seq<Sentence>, i: int) {
    if ss == [] then i == 0
    else
      0 <= i <= |ss| &&
      (i == |ss| ==>
        var last := ss[|ss| - 1];
        last != [] && (IsDelimiterToken(last[|last| - 1]) || IsNewlineToken(last[|last| - 1])))
  }

  function HandleLock(s: Store, k: Key): Reply {
    if !LockAllowed(Sentences(Lookup(s.files, k.file)), k.idx) then Reply(s, ERR_INVALID_INDEX)
    else
      var r := LockSentence(s, k.file, k.idx, k.user);
      if r.status != SUCCESS then r
      else match StartSession(r.store, k)
        case Some(s2) => Reply(s2, SUCCESS)
        case None => Reply(UnlockSentence(r.store, k.file, k.idx, k.user).store, ERR_SERVER_ERROR)
  }

  /** `write_file_ss` */
  function HandleWrite(s: Store, k: Key, word: int, content: string): Reply {
    if !HasSession(s, k) then Reply(s, ERR_INVALID_OPERATION)
    else match WriteText(Lookup(s.temps, k), k.idx, word, content)
      case None => Reply(s, ERR_INVALID_INDEX)
      case Some(text) => Reply(s.(temps := s.temps[k := text]), SUCCESS)
  }

  function HandleUnlock(s: Store, k: Key): Reply {
    var c := CommitSession(s, k);
    var u := UnlockSentence(c.store, k.file, k.idx, k.user);
    Reply(u.store, if c.status == SUCCESS then u.status else c.status)
  }

  function HandleCancel(s: Store, k: Key): Reply {
    var s1 := if HasSession(s, k)
      then s.(sessions := RemoveSession(s.sessions, k), temps := s.temps - {k}) else s;
    UnlockSentence(s1, k.file, k.idx, k.user)
  }

  function HandleUndo(s: Store, f: string): Reply {
    if f in s.undo then
      Reply(s.(files := s.files[f := s.undo[f]], undo := s.undo - {f}), SUCCESS)
    else Reply(s, ERR_INVALID_OPERATION)
  }

  /** `create_file_ss` */
  function HandleCreate(s: Store, f: string): Reply {
    if f in s.files then Reply(s, ERR_FILE_EXISTS)
    else Reply(InitLocks(s.(files := s.files[f := ""]), f, 1), SUCCESS)
  }

  /** `delete_file_ss`: the undo copy goes too, locks, sessions and checkpoints stay. */
  function HandleDelete(s: Store, f: string): Reply {
    if f !in s.files then Reply(s, ERR_FILE_NOT_FOUND)
    else Reply(s.(files := s.files - {f}, undo := s.undo - {f}), SUCCESS)
  }

  function HandleCheckpoint(s: Store, f: string, tag: string): Reply {
    if (f, tag) in s.checkpoints then Reply(s, ERR_FILE_EXISTS)
    else if f !in s.files then Reply(s, ERR_FILE_NOT_FOUND)
    else Reply(s.(checkpoints := s.checkpoints[(f, tag) := s.files[f]]), SUCCESS)
  }

  function HandleRevert(s: Store, f: string, tag: string): Reply {
    if (f, tag) !in s.checkpoints then Reply(s, ERR_FILE_NOT_FOUND)
    else
      var s1 := Backup(s, f);
      Reply(s1.(files := s1.files[f := s.checkpoints[(f, tag)]]), SUCCESS)
  }

  function Step(s: Store, r: Request): Reply {
    match r
    case Lock(k) => HandleLock(s, k)
    case Write(k, word, content) => HandleWrite(s, k, word, content)
    case Unlock(k) => HandleUnlock(s, k)
    case Cancel(k) => HandleCancel(s, k)
    case Undo(f) => HandleUndo(s, f)
    case Create(f) => HandleCreate(s, f)
    case Delete(f) => HandleDelete(s, f)
    case Checkpoint(f, tag) => HandleCheckpoint(s, f, tag)
    case Revert(f, tag) => HandleRevert(s, f, tag)
  }

  /** The state after a run of requests. */
  function Run(s: Store, rs: seq<Request>): Store
    decreases |rs|
  {
    if rs == [] then s else Run(Step(s, rs[0]).store, rs[1..])
  }

  const EMPTY := Store(map[], map[], map[], map[], map[], [], map[])
}
