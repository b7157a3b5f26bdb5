/** The name server's requests (`nm.c`) as atomic steps on values.  The answers of storage servers
    and the clock are parameters of a request. */
module NameSteps {
  import opened Wrappers
  import opened Metadata
  import opened TrieModel
  import Cached = CacheModel

  const SUCCESS := 200
  const ERR_INVALID_INDEX := 400
  const ERR_NOT_OWNER := 401
  const ERR_ACCESS_DENIED := 403
  const ERR_FILE_NOT_FOUND := 404
  const ERR_INVALID_OPERATION := 405
  const ERR_USER_NOT_FOUND := 406
  const ERR_FILE_EXISTS := 409
  const ERR_FILE_LOCKED := 424
  const ERR_SERVER_ERROR := 500
  const ERR_SS_UNAVAILABLE := 503

  const MAX_ACL_ENTRIES := 100
  const MAX_REQUESTS := 100000
  const MAX_USERS := 1000
  const MAX_SS := 50
  const MAX_FILES := 10000

  datatype AccessRequest = AccessRequest(username: string, filename: string, requested: int, time: int)

  datatype Server = Server(id: int, active: bool)

  datatype Names = Names(
    trie: Shape,
    cache: Cached.Cache<FileMetadata>,
    hash: string -> nat,
    requests: seq<AccessRequest>,
    users: seq<string>,
    servers: seq<Server>,
    nextSs: nat
  )

  /** What the storage server reports about a file. */
  datatype Stat = Stat(size: int, words: int, chars: int, modified: int, accessed: int)

  datatype Request =
    | Create(sender: string, filename: string, reply: int, now: int)
    | Delete(sender: string, filename: string, lockReply: int, reply: int)
    | AddAccess(sender: string, filename: string, target: string, access: int)
    | RemAccess(sender: string, filename: string, target: string)
    | RequestAccess(sender: string, filename: string, access: int, now: int)
    | Approve(sender: string, id: int)
    | Deny(sender: string, id: int)
    | Move(sender: string, filename: string, path: string, folderExists: bool, reply: int)
    | Touch(sender: string, filename: string, required: int, now: int)
    | Lookup(sender: string, filename: string, required: int)
    | Info(filename: string)
    | Refresh(filename: string, stat: Stat)
    | RegisterUser(user: string)
    | RegisterServer(id: int, files: seq<string>, now: int)
    | ServerTimeout(id: int)

  /* ---- Access-control lists ---- */

  /** The index of the user's first entry, or the length. */
  function FindEntry(acl: seq<AclEntry>, user: string): (i: nat)
    ensures i <= |acl| && (i < |acl| ==> acl[i].username == user)
    ensures forall j | 0 <= j < i :: acl[j].username != user
  {
    if acl == [] || acl[0].username == user then 0
    else
      var i := FindEntry(acl[1..], user);
      assert forall j | 0 < j < i + 1 :: acl[j] == acl[1..][j - 1];
      i + 1
  }

  /** The grant of `handle_access` and `handle_approverequest`: a full list drops it silently. */
  function Grant(acl: seq<AclEntry>, user: string, access: int): seq<AclEntry> {
    var i := FindEntry(acl, user);
    if i < |acl| then acl[i := AclEntry(user, access)]
    else if |acl| < MAX_ACL_ENTRIES then acl + [AclEntry(user, access)]
    else acl
  }

  function Revoke(acl: seq<AclEntry>, user: string): seq<AclEntry> {
    var i := FindEntry(acl, user);
    if i < |acl| then Cut(acl, i) else acl
  }

  /** `check_access` */
  predicate CheckAccess(files: map<string, FileMetadata>, filename: string, user: string, required: int) {
    filename in files &&
    var meta := files[filename];
    (meta.owner == user ||
     var i := FindEntry(meta.acl, user);
     i < |meta.acl| && Allows(meta.acl[i].access, required))
  }

  /** Writing needs read-write access: a bare write entry allows nothing. */
  predicate Allows(access: int, required: int) {
    if required == ACCESS_READ then access == ACCESS_READ || access == ACCESS_READWRITE
    else required == ACCESS_WRITE && access == ACCESS_READWRITE
  }

  /* ---- The cache in front of the index ---- */

  function HomeOf(s: Names, key: string): (h: nat)
    requires s.cache.slots != []
    ensures h < |s.cache.slots|
  {
    Cached.Home(s.hash, key, |s.cache.slots|)
  }

  /** The cache's probe loops for this key end. */
  predicate Ends(s: Names, key: string) {
    s.cache.slots != [] && Cached.Probe(s.cache.slots, key, HomeOf(s, key), 0) < |s.cache.slots|
  }

  /** `find_ss_for_file` */
  function FindSs(s: Names, filename: string): (Names, int)
    requires Ends(s, filename)
  {
    var home := HomeOf(s, filename);
    var (cache, hit) := Cached.Get(s.cache, filename, home);
    if hit.Some? then (s.(cache := cache), hit.value.ssId)
    else if filename in s.trie.files then
      var meta := s.trie.files[filename];
      (s.(cache := Cached.Put(cache, filename, home, meta)), meta.ssId)
    else (s.(cache := cache), -1)
  }

  /** `trie_update` and `cache_put` of the same metadata. */
  function Store(s: Names, filename: string, meta: FileMetadata): Names
    requires Ends(s, filename)
  {
    s.(trie := Update(s.trie, filename, meta),
       cache := Cached.Put(s.cache, filename, HomeOf(s, filename), meta))
  }

  /* ---- Requests ---- */

  function FindServer(servers: seq<Server>, id: int): (i: nat)
    ensures i <= |servers| && (i < |servers| ==> servers[i].id == id)
    ensures forall j | 0 <= j < i :: servers[j].id != id
  {
    if servers == [] || servers[0].id == id then 0
    else
      var i := FindServer(servers[1..], id);
      assert forall j | 0 < j < i + 1 :: servers[j] == servers[1..][j - 1];
      i + 1
  }

  predicate ServerActive(servers: seq<Server>, id: int) {
    exists i :: 0 <= i < |servers| && servers[i] == Server(id, true)
  }

  predicate IsOwner(s: Names, filename: string, user: string) {
    filename in s.trie.files && s.trie.files[filename].owner == user
  }

  predicate ValidId(s: Names, id: int) {
    0 <= id < |s.requests|
  }

  /** The file that an approval or denial is about. */
  function RequestFile(s: Names, id: int): string {
    if ValidId(s, id) then s.requests[id].filename else ""
  }

  predicate Pending(s: Names, user: string, filename: string, access: int) {
    exists i :: 0 <= i < |s.requests| && SameRequest(s.requests[i], user, filename, access)
  }

  predicate SameRequest(q: AccessRequest, user: string, filename: string, access: int) {
    q.username == user && q.filename == filename && q.requested == access
  }

  /** `get_next_ss_round_robin`: the storage server of the next new file, or -1 without any. */
  function NextId(s: Names): int {
    if s.servers == [] then -1 else s.servers[s.nextSs % |s.servers|].id
  }

  function TakeTurn(s: Names): Names {
    if s.servers == [] then s else s.(nextSs := s.nextSs + 1)
  }

  /** The status a request is answered with, decided before anything is stored. */
  function Status(s: Names, r: Request): int {
    var files := s.trie.files;
    match r
    case Create(_, filename, reply, _) =>
      if filename in files then ERR_FILE_EXISTS
      else if NextId(s) < 0 then ERR_SS_UNAVAILABLE
      else reply
    case Delete(sender, filename, lockReply, reply) =>
      if filename !in files then ERR_FILE_NOT_FOUND
      else if !IsOwner(s, filename, sender) then ERR_NOT_OWNER
      else if FindServer(s.servers, files[filename].ssId) == |s.servers| then ERR_SS_UNAVAILABLE
      else if lockReply == ERR_FILE_LOCKED then ERR_FILE_LOCKED
      else reply
    case AddAccess(sender, filename, target, _) =>
      if filename !in files then ERR_FILE_NOT_FOUND
      else if !IsOwner(s, filename, sender) then ERR_NOT_OWNER
      else if target !in s.users then ERR_USER_NOT_FOUND
      else if target == sender then ERR_INVALID_OPERATION
      else SUCCESS
    case RemAccess(sender, filename, _) =>
      if filename !in files then ERR_FILE_NOT_FOUND
      else if !IsOwner(s, filename, sender) then ERR_NOT_OWNER
      else SUCCESS
    case RequestAccess(sender, filename, access, _) =>
      if filename !in files then ERR_FILE_NOT_FOUND
      else if CheckAccess(files, filename, sender, access) || Pending(s, sender, filename, access) then SUCCESS
      else if |s.requests| < MAX_REQUESTS then SUCCESS
      else ERR_SERVER_ERROR
    case Approve(sender, id) =>
      if !ValidId(s, id) then ERR_INVALID_INDEX
      else if !IsOwner(s, s.requests[id].filename, sender) then ERR_NOT_OWNER
      else SUCCESS
    case Deny(sender, id) =>
      if !ValidId(s, id) then ERR_INVALID_INDEX
      else if !IsOwner(s, s.requests[id].filename, sender) then ERR_NOT_OWNER
      else SUCCESS
    case Move(sender, filename, path, folderExists, reply) =>
      if filename !in files then ERR_FILE_NOT_FOUND
      else if !CheckAccess(files, filename, sender, ACCESS_WRITE) then ERR_ACCESS_DENIED
      else if path != "" && path != "/" && !folderExists then ERR_FILE_NOT_FOUND
      else if !ServerActive(s.servers, files[filename].ssId) then ERR_SS_UNAVAILABLE
      else reply
    case Touch(sender, filename, required, _) =>
      if !CheckAccess(files, filename, sender, required) then ERR_ACCESS_DENIED else SUCCESS
    case Lookup(sender, filename, required) =>
      if !CheckAccess(files, filename, sender, required) then ERR_ACCESS_DENIED else SUCCESS
    case Info(filename) => if filename !in files then ERR_FILE_NOT_FOUND else SUCCESS
    case Refresh(filename, _) => if filename !in files then ERR_FILE_NOT_FOUND else SUCCESS
    case RegisterUser(_) => SUCCESS
    case RegisterServer(_, _, _) => SUCCESS
    case ServerTimeout(_) => SUCCESS
  }

  /** The file whose cache entry a successful request works on. */
  function CacheKey(s: Names, r: Request): Option<string> {
    match r
    case Create(_, filename, _, _) => Some(filename)
    case Delete(_, filename, _, _) => Some(filename)
    case AddAccess(_, filename, _, _) => Some(filename)
    case RemAccess(_, filename, _) => Some(filename)
    case Approve(_, id) => Some(RequestFile(s, id))
    case Move(_, filename, _, _, _) => Some(filename)
    case Touch(_, filename, _, _) => Some(filename)
    case Lookup(_, filename, _) => Some(filename)
    case Info(filename) => Some(filename)
    case Refresh(filename, _) => Some(filename)
    case RequestAccess(_, _, _, _) => None
    case Deny(_, _) => None
    case RegisterUser(_) => None
    case RegisterServer(_, _, _) => None
    case ServerTimeout(_) => None
  }

  /** Every cache operation of the request ends. */
  predicate Enabled(s: Names, r: Request) {
    Status(s, r) == SUCCESS && CacheKey(s, r).Some? ==> Ends(s, CacheKey(s, r).value)
  }

  function NewFile(filename: string, owner: string, ssId: int, now: int, visitor: string): FileMetadata {
    FileMetadata(filename, "", owner, ssId, 0, 0, 0, now, now, now, visitor, [])
  }

  /** One file of a storage server's list at registration: the index alone is changed. */
  function RegisterFile(t: Shape, filename: string, ssId: int, now: int): Shape {
    if filename in t.files then Update(t, filename, t.files[filename].(ssId := ssId))
    else Insert(t, filename, NewFile(filename, "system", ssId, now, ""))
  }

  function RegisterFiles(t: Shape, files: seq<string>, ssId: int, now: int): Shape
    decreases |files|
  {
    if files == [] then t else RegisterFiles(RegisterFile(t, files[0], ssId, now), files[1..], ssId, now)
  }

  function CreateFile(s: Names, filename: string, owner: string, now: int): Names
    requires Ends(s, filename)
  {
    var meta := NewFile(filename, owner, NextId(s), now, owner);
    TakeTurn(s).(trie := Insert(s.trie, filename, meta),
                 cache := Cached.Put(s.cache, filename, HomeOf(s, filename), meta))
  }

  ghost function DropFile(s: Names, filename: string): Names
    requires Ends(s, filename)
  {
    s.(trie := TrieModel.Delete(s.trie, filename),
       cache := Cached.Remove(s.cache, filename, HomeOf(s, filename)))
  }

  function ChangeAcl(s: Names, filename: string, acl: seq<AclEntry>): Names
    requires filename in s.trie.files && Ends(s, filename)
  {
    Store(s, filename, s.trie.files[filename].(acl := acl))
  }

  function ApproveRequest(s: Names, id: nat): Names
    requires id < |s.requests| && s.requests[id].filename in s.trie.files && Ends(s, s.requests[id].filename)
  {
    var q := s.requests[id];
    var acl := Grant(s.trie.files[q.filename].acl, q.username, q.requested);
    ChangeAcl(s, q.filename, acl).(requests := Cut(s.requests, id))
  }

  function AddRequest(s: Names, sender: string, filename: string, access: int, now: int): Names {
    if CheckAccess(s.trie.files, filename, sender, access) || Pending(s, sender, filename, access) then s
    else s.(requests := s.requests + [AccessRequest(sender, filename, access, now)])
  }

  /** READ, WRITE, STREAM and UNDO: look the server up, then note the access. */
  function TouchFile(s: Names, sender: string, filename: string, now: int): (Names, int)
    requires filename in s.trie.files && Ends(s, filename)
  {
    var (s', ssId) := FindSs(s, filename);
    FoundEnds(s, filename);
    if ssId < 0 then (s', ERR_FILE_NOT_FOUND)
    else (Store(s', filename, s.trie.files[filename].(accessed := now, lastAccessedBy := sender)), SUCCESS)
  }

  function LookupFile(s: Names, filename: string): (Names, int)
    requires Ends(s, filename)
  {
    var (s', ssId) := FindSs(s, filename);
    (s', if ssId < 0 then ERR_FILE_NOT_FOUND else SUCCESS)
  }

  function RegisterSs(s: Names, id: int, files: seq<string>, now: int): Names {
    var i := FindServer(s.servers, id);
    if i == |s.servers| && |s.servers| >= MAX_SS then s
    else
      s.(servers := if i < |s.servers| then s.servers[i := Server(id, true)] else s.servers + [Server(id, true)],
         trie := RegisterFiles(s.trie, FirstFiles(files), id, now))
  }

  function FirstFiles(files: seq<string>): seq<string> {
    if |files| <= MAX_FILES then files else files[..MAX_FILES]
  }

  /** One request: the new state and the answered status. */
  ghost function Step(s: Names, r: Request): (Names, int)
    requires Enabled(s, r)
  {
    var status := Status(s, r);
    if status != SUCCESS then
      if r.Create? && r.filename !in s.trie.files then (TakeTurn(s), status)
      else (s, status)
    else Accept(s, r)
  }

  ghost function Accept(s: Names, r: Request): (Names, int)
    requires Enabled(s, r) && Status(s, r) == SUCCESS
  {
    match r
    case Create(sender, filename, _, now) => (CreateFile(s, filename, sender, now), SUCCESS)
    case Delete(_, filename, _, _) => (DropFile(s, filename), SUCCESS)
    case AddAccess(_, filename, target, access) =>
      (ChangeAcl(s, filename, Grant(s.trie.files[filename].acl, target, access)), SUCCESS)
    case RemAccess(_, filename, target) =>
      (ChangeAcl(s, filename, Revoke(s.trie.files[filename].acl, target)), SUCCESS)
    case RequestAccess(sender, filename, access, now) => (AddRequest(s, sender, filename, access, now), SUCCESS)
    case Approve(_, id) => (ApproveRequest(s, id), SUCCESS)
    case Deny(_, id) => (s.(requests := Cut(s.requests, id)), SUCCESS)
    case Move(_, filename, path, _, _) => (Store(s, filename, s.trie.files[filename].(folderPath := path)), SUCCESS)
    case Touch(sender, filename, _, now) => TouchFile(s, sender, filename, now)
    case Lookup(_, filename, _) => LookupFile(s, filename)
    case Info(filename) => (LookupFile(s, filename).0, SUCCESS)
    case Refresh(filename, stat) => (Store(s, filename, WithStat(s.trie.files[filename], stat)), SUCCESS)
    case RegisterUser(user) =>
      (if user in s.users || |s.users| >= MAX_USERS then s else s.(users := s.users + [user]), SUCCESS)
    case RegisterServer(id, files, now) => (RegisterSs(s, id, files, now), SUCCESS)
    case ServerTimeout(id) =>
      var i := FindServer(s.servers, id);
      (if i < |s.servers| then s.(servers := s.servers[i := Server(id, false)]) else s, SUCCESS)
  }

  function WithStat(meta: FileMetadata, stat: Stat): FileMetadata {
    meta.(size := stat.size, wordCount := stat.words, charCount := stat.chars,
          modified := stat.modified, accessed := stat.accessed)
  }

  /** A lookup changes the cache alone. */
  lemma FindFrame(s: Names, f: string)
    requires Ends(s, f)
    ensures FindSs(s, f).0 == s.(cache := FindSs(s, f).0.cache)
  {}

  /** After the lookup the key's probe loops still end. */
  lemma FoundEnds(s: Names, filename: string)
    requires Ends(s, filename)
    ensures Ends(FindSs(s, filename).0, filename)
  {
    var home, n := HomeOf(s, filename), |s.cache.slots|;
    var s' := FindSs(s, filename).0;
    if s'.cache.slots != s.cache.slots {
      var j := Cached.Probe(s.cache.slots, filename, home, 0);
      assert Cached.Holds(s'.cache.slots, Cached.ProbeSlot(home, j, n), filename);
      assert Cached.Probe(s'.cache.slots, filename, home, 0) <= j;
    }
  }
}
