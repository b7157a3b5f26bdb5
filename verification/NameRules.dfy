/** What every request of the name server keeps: the cache agrees with the index, access lists and
    pending requests have no duplicates, and rights trace back to a grant by the owner. */
module NameRules {
  import opened Wrappers
  import opened Metadata
  import opened TrieModel
  import opened NameSteps
  import Cached = CacheModel

  /* ---- Invariants ---- */

  predicate AclOk(acl: seq<AclEntry>) {
    |acl| <= MAX_ACL_ENTRIES &&
    forall i, j | 0 <= i < j < |acl| :: acl[i].username != acl[j].username
  }

  predicate RequestsOk(requests: seq<AccessRequest>) {
    && |requests| <= MAX_REQUESTS
    && forall i, j | 0 <= i < j < |requests| ::
         !SameRequest(requests[i], requests[j].username, requests[j].filename, requests[j].requested)
  }

  ghost predicate AclsOk(files: map<string, FileMetadata>) {
    forall f | f in files :: AclOk(files[f].acl)
  }

  ghost predicate Inv(s: Names) {
    && Cached.CacheOk(s.cache)
    && Closed(s.trie)
    && AclsOk(s.trie.files)
    && RequestsOk(s.requests)
  }

  /** What the cache would answer for a key at most: the entry nearest to its home. */
  function Nearest(s: Names, key: string): Option<FileMetadata>
    requires s.cache.slots != []
  {
    Cached.NearestValue(s.cache.slots, key, HomeOf(s, key))
  }

  predicate AgreesOn(s: Names, key: string)
    requires s.cache.slots != [] && key in s.trie.files
  {
    Nearest(s, key).Some? ==> Nearest(s, key).value.ssId == s.trie.files[key].ssId
  }

  /** The cache never names a wrong storage server for a file in the index. */
  ghost predicate Agrees(s: Names) {
    s.cache.slots != [] && forall k | k in s.trie.files :: AgreesOn(s, k)
  }

  const INITIAL_CAPACITY := 100

  ghost predicate Initial(s: Names) {
    && s.trie == EMPTY && s.cache == Cached.EmptyCache(INITIAL_CAPACITY)
    && s.requests == [] && s.users == [] && s.servers == [] && s.nextSs == 0
  }

  /* ---- Access-control lists ---- */

  function Entry(acl: seq<AclEntry>, user: string): Option<int> {
    var i := FindEntry(acl, user);
    if i < |acl| then Some(acl[i].access) else None
  }

  lemma FindUnique(acl: seq<AclEntry>, i: nat)
    requires AclOk(acl) && i < |acl|
    ensures FindEntry(acl, acl[i].username) == i
  {}

  lemma FindIs(acl: seq<AclEntry>, user: string)
    ensures var i := FindEntry(acl, user);
      && i <= |acl| && (i < |acl| ==> acl[i].username == user)
      && forall j | 0 <= j < i :: acl[j].username != user
  {}

  lemma GrantIs(acl: seq<AclEntry>, user: string, access: int, other: string)
    requires AclOk(acl)
    ensures AclOk(Grant(acl, user, access))
    ensures Entry(Grant(acl, user, access), other)
      == if other == user && (Entry(acl, user).Some? || |acl| < MAX_ACL_ENTRIES) then Some(access) else Entry(acl, other)
  {
    hide FindEntry;
    var g, i, k := Grant(acl, user, access), FindEntry(acl, user), FindEntry(acl, other);
    FindIs(acl, user);
    FindIs(acl, other);
    FindIs(g, other);
    if other == user {
      if i < |g| { FindUnique(g, i); }
    } else if k < |acl| {
      FindUnique(g, k);
    }
  }

  lemma RevokeIs(acl: seq<AclEntry>, user: string, other: string)
    requires AclOk(acl)
    ensures AclOk(Revoke(acl, user))
    ensures Entry(Revoke(acl, user), other) == if other == user then None else Entry(acl, other)
  {
    hide FindEntry;
    RevokeOk(acl, user);
    var g, i, k := Revoke(acl, user), FindEntry(acl, user), FindEntry(acl, other);
    FindIs(acl, user);
    FindIs(acl, other);
    FindIs(g, other);
    if i < |acl| {
      assert forall j | 0 <= j < |g| :: g[j] == acl[if j < i then j else j + 1];
      if other != user && k < |acl| {
        FindUnique(g, if k < i then k else k - 1);
      }
    }
  }

  lemma RevokeOk(acl: seq<AclEntry>, user: string)
    requires AclOk(acl)
    ensures AclOk(Revoke(acl, user))
  {
    var g, i := Revoke(acl, user), FindEntry(acl, user);
    assert i < |acl| ==> forall j | 0 <= j < |g| :: g[j] == acl[if j < i then j else j + 1];
  }

  /** Access is the ownership, or the entry of the list. */
  lemma AccessIs(files: map<string, FileMetadata>, f: string, user: string, required: int)
    requires f in files
    ensures CheckAccess(files, f, user, required)
      <==> files[f].owner == user || (Entry(files[f].acl, user).Some? && Allows(Entry(files[f].acl, user).value, required))
  {}

  /* ---- The cache and the index ---- */

  /** A lookup of a live file answers the index's storage server, hit or miss. */
  lemma FindReturnsIndex(s: Names, f: string)
    requires Inv(s) && Agrees(s) && Ends(s, f) && f in s.trie.files
    ensures FindSs(s, f).1 == s.trie.files[f].ssId
  {
    Cached.HitIsNearest(s.cache, f, HomeOf(s, f));
    assert AgreesOn(s, f);
  }

  lemma FindKeeps(s: Names, f: string)
    requires Inv(s) && Ends(s, f)
    ensures var s' := FindSs(s, f).0;
      && Inv(s') && |s'.cache.slots| == |s.cache.slots|
      && s' == s.(cache := s'.cache)
      && (Agrees(s) ==> Agrees(s'))
  {
    var home := HomeOf(s, f);
    var (cache, hit) := Cached.Get(s.cache, f, home);
    Cached.KeepsOk(s.cache, f, home);
    if hit.None? && f in s.trie.files {
      assert cache == s.cache;
      CachePut(s, f, s.trie.files[f], s.trie);
    }
    var s' := FindSs(s, f).0;
    if Agrees(s) {
      forall k | k in s'.trie.files ensures AgreesOn(s', k) {
        assert AgreesOn(s, k);
      }
    }
  }

  /** A put keeps the cache's structure, and the agreement on every other file; it makes the two
      agree on its own key. */
  lemma CachePut(s: Names, f: string, meta: FileMetadata, trie: Shape)
    requires Inv(s) && Ends(s, f)
    ensures var s' := s.(trie := trie, cache := Cached.Put(s.cache, f, HomeOf(s, f), meta));
      && Cached.CacheOk(s'.cache) && |s'.cache.slots| == |s.cache.slots|
      && forall k :: Nearest(s', k) == if k == f then Some(meta) else Nearest(s, k)
  {
    hide Cached.CacheOk, Cached.Put, Cached.NearestValue, Closed, AclsOk, RequestsOk;
    Cached.OperationsKeepOk(s.cache, f, HomeOf(s, f), meta);
    var s' := s.(trie := trie, cache := Cached.Put(s.cache, f, HomeOf(s, f), meta));
    forall k ensures Nearest(s', k) == if k == f then Some(meta) else Nearest(s, k) {
      Cached.PutIsNearest(s.cache, f, HomeOf(s, f), meta, k, HomeOf(s, k));
    }
  }

  /** Storing new metadata in both keeps them in agreement. */
  lemma StoreKeeps(s: Names, f: string, meta: FileMetadata)
    requires Inv(s) && Ends(s, f) && AclOk(meta.acl) && f in s.trie.files
    ensures Inv(Store(s, f, meta)) && (Agrees(s) ==> Agrees(Store(s, f, meta)))
  {
    var s' := Store(s, f, meta);
    CachePut(s, f, meta, s'.trie);
    UpdateClosed(s.trie, f, meta);
    if Agrees(s) {
      forall k | k in s'.trie.files ensures AgreesOn(s', k) {
        if k != f { assert AgreesOn(s, k); }
      }
    }
  }

  lemma UpdateClosed(t: Shape, f: string, meta: FileMetadata)
    requires Closed(t)
    ensures Closed(Update(t, f, meta))
  {
    UpdateKeeps(t, f, meta);
  }

  lemma CreateKeeps(s: Names, f: string, owner: string, now: int)
    requires Inv(s) && Ends(s, f)
    ensures var s' := CreateFile(s, f, owner, now); Inv(s') && (Agrees(s) ==> Agrees(s'))
  {
    var s' := CreateFile(s, f, owner, now);
    var meta := NewFile(f, owner, NextId(s), now, owner);
    CachePut(s, f, meta, s'.trie);
    InsertClosed(s.trie, f, meta);
    if Agrees(s) {
      forall k | k in s'.trie.files ensures AgreesOn(s', k) {
        if k != f { assert AgreesOn(s, k); }
      }
    }
  }

  /** CREATE does not look at the answer of the index: it succeeds and caches the new file for any
      name, and has registered the file if and only if the name is 7-bit. */
  lemma CreateRegisters(s: Names, r: Request)
    requires Inv(s) && Enabled(s, r) && r.Create? && Status(s, r) == SUCCESS
    ensures var (s', status) := Step(s, r);
      && status == SUCCESS
      && |s'.cache.slots| == |s.cache.slots|
      && (r.filename in s'.trie.files <==> Ascii(r.filename))
      && Nearest(s', r.filename) == Some(NewFile(r.filename, r.sender, NextId(s), r.now, r.sender))
  {
    hide Closed, AclsOk, RequestsOk, Cached.CacheOk;
    var meta := NewFile(r.filename, r.sender, NextId(s), r.now, r.sender);
    CachePut(s, r.filename, meta, Step(s, r).0.trie);
  }

  /** The file that a request other than CREATE is about. */
  predicate IsAbout(s: Names, r: Request, f: string) {
    match r
    case Create(_, _, _, _) => false
    case RequestAccess(_, filename, _, _) => filename == f
    case Deny(_, id) => ValidId(s, id) && s.requests[id].filename == f
    case Approve(_, id) => ValidId(s, id) && s.requests[id].filename == f
    case _ => CacheKey(s, r) == Some(f)
  }

  /** Every request about a name that is not in the index is refused and changes nothing. */
  lemma UnknownRefused(s: Names, r: Request, f: string)
    requires f !in s.trie.files && IsAbout(s, r, f)
    ensures Enabled(s, r)
    ensures Step(s, r).0 == s
    ensures Step(s, r).1 in {ERR_FILE_NOT_FOUND, ERR_ACCESS_DENIED, ERR_NOT_OWNER}
  {}

  /** Deletion keeps both for the files that stay. */
  lemma DropKeeps(s: Names, f: string)
    requires Inv(s) && Ends(s, f)
    ensures Inv(DropFile(s, f)) && (Agrees(s) ==> Agrees(DropFile(s, f)))
  {
    var s' := DropFile(s, f);
    DeleteExact(s.trie, f);
    Cached.KeepsOk(s.cache, f, HomeOf(s, f));
    if Agrees(s) {
      forall k | k in s'.trie.files ensures AgreesOn(s', k) {
        Cached.RemoveKeepsNearest(s.cache, f, HomeOf(s, f), k, HomeOf(s, k));
        assert AgreesOn(s, k);
      }
    }
  }

  /** Of the deleted name a stale duplicate stays in the cache unless the removal took the only entry;
      without one a lookup of the name, if it ends, finds nothing. */
  lemma DropUncovers(s: Names, f: string)
    requires Inv(s) && Ends(s, f)
    ensures var s' := DropFile(s, f);
      && |s'.cache.slots| == |s.cache.slots| && f !in s'.trie.files
      && (Nearest(s', f).None? <==> Cached.OnlyCopy(s.cache, f, HomeOf(s, f)))
      && (Nearest(s', f).None? && Ends(s', f) ==> FindSs(s', f).1 == -1)
  {
    hide Closed, AclsOk, RequestsOk, Cached.Copies, Cached.NoDuplicates, Cached.Remove;
    var s', home := DropFile(s, f), HomeOf(s, f);
    DeleteExact(s.trie, f);
    Cached.KeepsOk(s.cache, f, home);
    Cached.RemoveCopies(s.cache, f, home, f);
    Cached.CopiesPresent(s'.cache.slots, f);
    Cached.NearestPresent(s'.cache.slots, f, home);
    if Nearest(s', f).None? && Ends(s', f) { Cached.HitExactly(s'.cache, f, home); }
  }

  /* ---- Registration ---- */

  /** What registering a list of files makes of the index: listed names that the alphabet covers get
      the new server, keeping the owner and the access list of files already known. */
  lemma {:induction false} RegisteredFiles(t: Shape, files: seq<string>, id: int, now: int)
    requires Closed(t)
    ensures var t' := RegisterFiles(t, files, id, now);
      && Closed(t')
      && (forall k :: k in t'.files <==> k in t.files || (k in files && Ascii(k)))
      && (forall k | k in t'.files :: t'.files[k].ssId == if k in files then id else t.files[k].ssId)
      && (forall k | k in t'.files :: t'.files[k].acl == if k in t.files then t.files[k].acl else [])
      && (forall k | k in t'.files :: t'.files[k].owner == if k in t.files then t.files[k].owner else "system")
    decreases |files|
  {
    hide Closed, Ascii, RegisterFile;
    if files == [] {
    } else {
      var f, t1 := files[0], RegisterFile(t, files[0], id, now);
      RegisteredFile(t, f, id, now);
      RegisteredFiles(t1, files[1..], id, now);
      assert files == [f] + files[1..];
      assert forall k :: k in files <==> k == f || k in files[1..];
    }
  }

  lemma RegisteredFile(t: Shape, f: string, id: int, now: int)
    requires Closed(t)
    ensures var t' := RegisterFile(t, f, id, now);
      && Closed(t')
      && (forall k :: k in t'.files <==> k in t.files || (k == f && Ascii(k)))
      && (forall k | k in t'.files :: t'.files[k].ssId == if k == f then id else t.files[k].ssId)
      && (forall k | k in t'.files :: t'.files[k].acl == if k in t.files then t.files[k].acl else [])
      && (forall k | k in t'.files :: t'.files[k].owner == if k in t.files then t.files[k].owner else "system")
  {
    if f in t.files {
      UpdateClosed(t, f, t.files[f].(ssId := id));
    } else {
      InsertClosed(t, f, NewFile(f, "system", id, now, ""));
    }
  }

  /** The cache holds nothing, or the same server, for each file of the list. */
  predicate RegistrationFits(s: Names, id: int, files: seq<string>)
    requires s.cache.slots != []
  {
    forall f | f in FirstFiles(files) && Ascii(f) :: Nearest(s, f).Some? ==> Nearest(s, f).value.ssId == id
  }

  predicate ServersFull(s: Names, id: int) {
    FindServer(s.servers, id) == |s.servers| >= MAX_SS
  }

  /** Registration bypasses the cache: it keeps the agreement if and only if, for every listed file,
      the nearest cache entry is absent or names the same server already. */
  lemma RegistrationAgrees(s: Names, id: int, files: seq<string>, now: int)
    requires Inv(s) && Agrees(s)
    ensures Inv(RegisterSs(s, id, files, now))
    ensures Agrees(RegisterSs(s, id, files, now)) <==> ServersFull(s, id) || RegistrationFits(s, id, files)
  {
    hide Closed, Ascii, RegisterFiles, FirstFiles;
    var s', first := RegisterSs(s, id, files, now), FirstFiles(files);
    RegisteredFiles(s.trie, first, id, now);
    if !ServersFull(s, id) {
      assert forall k | k in s'.trie.files :: Nearest(s', k) == Nearest(s, k);
      forall k | k in s'.trie.files && k !in first ensures AgreesOn(s', k) {
        assert AgreesOn(s, k);
      }
      if Agrees(s') {
        forall f | f in first && Ascii(f) ensures Nearest(s, f).Some? ==> Nearest(s, f).value.ssId == id {
          assert AgreesOn(s', f);
        }
      }
      if RegistrationFits(s, id, files) {
        forall k | k in s'.trie.files && k in first ensures AgreesOn(s', k) {
          FilesAscii(s'.trie, k);
        }
      }
    }
  }

  /** What lookups answer right after a registration: for a listed file the new server, if and only
      if the cache misses the file or already names that server; for any other file what they
      answered before.  A stale entry behind a hole does no harm until the hole is filled. */
  lemma RegistrationAnswers(s: Names, id: int, files: seq<string>, now: int, f: string)
    requires Inv(s) && !ServersFull(s, id) && Ends(s, f) && f in RegisterSs(s, id, files, now).trie.files
    ensures var s', hit := RegisterSs(s, id, files, now), Cached.Get(s.cache, f, HomeOf(s, f)).1;
      var right := FindSs(s', f).1 == s'.trie.files[f].ssId;
      && Ends(s', f)
      && (f in FirstFiles(files) ==> (right <==> hit.None? || hit.value.ssId == id))
      && (f !in FirstFiles(files) ==>
            f in s.trie.files && (right <==> FindSs(s, f).1 == s.trie.files[f].ssId))
      && (Agrees(s) ==> (right <==> f !in FirstFiles(files) || hit.None? || hit.value.ssId == id))
  {
    hide Closed, RegisterFiles, FirstFiles, Cached.Get, Cached.Put, AclsOk, RequestsOk, Agrees;
    RegisteredFiles(s.trie, FirstFiles(files), id, now);
    if Agrees(s) && f in s.trie.files {
      FindReturnsIndex(s, f);
    }
  }

  lemma FilesAscii(t: Shape, k: string)
    requires Closed(t) && k in t.files
    ensures Ascii(k)
  {
    FileIsNode(t, k);
    NodeAscii(t, k);
  }

  /* ---- Every request ---- */

  lemma RemoveKeepsRequests(requests: seq<AccessRequest>, id: nat)
    requires RequestsOk(requests) && id < |requests|
    ensures RequestsOk(Cut(requests, id))
  {
    var g := Cut(requests, id);
    assert forall j | 0 <= j < |g| :: g[j] == requests[if j < id then j else j + 1];
  }

  lemma AddKeepsRequests(s: Names, sender: string, filename: string, access: int, now: int)
    requires RequestsOk(s.requests) && (|s.requests| < MAX_REQUESTS || Pending(s, sender, filename, access))
    ensures RequestsOk(AddRequest(s, sender, filename, access, now).requests)
  {}

  lemma AclKeeps(s: Names, f: string, acl: seq<AclEntry>)
    requires Inv(s) && f in s.trie.files && Ends(s, f) && AclOk(acl)
    ensures Inv(ChangeAcl(s, f, acl)) && (Agrees(s) ==> Agrees(ChangeAcl(s, f, acl)))
  {
    hide Closed, AclsOk, RequestsOk, Store, Agrees;
    StoreKeeps(s, f, s.trie.files[f].(acl := acl));
  }

  lemma OwnAcl(s: Names, f: string)
    requires Inv(s) && f in s.trie.files
    ensures AclOk(s.trie.files[f].acl)
  {}

  lemma ApproveKeeps(s: Names, id: nat)
    requires Inv(s) && id < |s.requests|
    requires s.requests[id].filename in s.trie.files && Ends(s, s.requests[id].filename)
    ensures Inv(ApproveRequest(s, id)) && (Agrees(s) ==> Agrees(ApproveRequest(s, id)))
  {
    hide Closed, AclsOk, RequestsOk, Grant;
    var q := s.requests[id];
    OwnAcl(s, q.filename);
    var acl := s.trie.files[q.filename].acl;
    GrantIs(acl, q.username, q.requested, "");
    AclKeeps(s, q.filename, Grant(acl, q.username, q.requested));
    RemoveKeepsRequests(s.requests, id);
    SameCache(ChangeAcl(s, q.filename, Grant(acl, q.username, q.requested)), ApproveRequest(s, id));
  }

  /** The agreement is about the cache and the index only. */
  lemma SameCache(s: Names, s': Names)
    requires s'.cache == s.cache && s'.trie == s.trie && s'.hash == s.hash
    ensures Agrees(s) ==> Agrees(s')
  {
    if Agrees(s) {
      forall k | k in s'.trie.files ensures AgreesOn(s', k) {
        assert AgreesOn(s, k);
      }
    }
  }

  lemma TouchKeeps(s: Names, sender: string, f: string, now: int)
    requires Inv(s) && f in s.trie.files && Ends(s, f)
    ensures Inv(TouchFile(s, sender, f, now).0) && (Agrees(s) ==> Agrees(TouchFile(s, sender, f, now).0))
  {
    hide Closed, AclsOk, RequestsOk, Store, Agrees, FindSs;
    FindKeeps(s, f);
    FoundEnds(s, f);
    OwnAcl(s, f);
    StoreKeeps(FindSs(s, f).0, f, s.trie.files[f].(accessed := now, lastAccessedBy := sender));
  }

  /** Every request keeps the invariants, and every request but a registration keeps the agreement
      of the cache with the index. */
  lemma StepKeeps(s: Names, r: Request)
    requires Inv(s) && Enabled(s, r)
    ensures Inv(Step(s, r).0)
    ensures Agrees(s) && !r.RegisterServer? ==> Agrees(Step(s, r).0)
  {
    hide Inv, Agrees, CreateFile, Status, Store, DropFile, ChangeAcl, ApproveRequest, TouchFile, LookupFile, AddRequest,
      RegisterSs, Grant, Revoke, Ends;
    if Status(s, r) != SUCCESS {
      OthersKeep(s, Step(s, r).0);
    } else {
      AcceptKeeps(s, r);
    }
  }

  lemma AcceptKeeps(s: Names, r: Request)
    requires Inv(s) && Enabled(s, r) && Status(s, r) == SUCCESS
    ensures Inv(Accept(s, r).0)
    ensures Agrees(s) && !r.RegisterServer? ==> Agrees(Accept(s, r).0)
  {
    hide Inv, Agrees, CreateFile, Store, DropFile, ChangeAcl, ApproveRequest, TouchFile, AddRequest, FindSs,
      RegisterSs, Grant, Revoke, Ends;
    match r
    case Create(sender, filename, _, now) => CreateKeeps(s, filename, sender, now);
    case Delete(_, filename, _, _) => DropKeeps(s, filename);
    case AddAccess(_, filename, target, access) =>
      OwnAcl(s, filename);
      GrantIs(s.trie.files[filename].acl, target, access, "");
      AclKeeps(s, filename, Grant(s.trie.files[filename].acl, target, access));
    case RemAccess(_, filename, target) =>
      OwnAcl(s, filename);
      RevokeIs(s.trie.files[filename].acl, target, "");
      AclKeeps(s, filename, Revoke(s.trie.files[filename].acl, target));
    case RequestAccess(sender, filename, access, now) => RequestKeeps(s, sender, filename, access, now);
    case Approve(_, id) => ApproveKeeps(s, id);
    case Deny(_, id) => DenyKeeps(s, id);
    case Move(_, filename, path, _, _) =>
      OwnAcl(s, filename);
      StoreKeeps(s, filename, s.trie.files[filename].(folderPath := path));
    case Touch(sender, filename, _, now) => TouchKeeps(s, sender, filename, now);
    case Lookup(_, filename, _) => FindKeeps(s, filename);
    case Info(filename) => FindKeeps(s, filename);
    case Refresh(filename, stat) =>
      OwnAcl(s, filename);
      StoreKeeps(s, filename, WithStat(s.trie.files[filename], stat));
    case RegisterUser(user) => OthersKeep(s, Accept(s, r).0);
    case RegisterServer(id, files, now) => RegistrationKeeps(s, id, files, now);
    case ServerTimeout(id) => OthersKeep(s, Accept(s, r).0);
  }

  lemma OthersKeep(s: Names, s': Names)
    requires Inv(s) && s'.cache == s.cache && s'.trie == s.trie && s'.hash == s.hash && s'.requests == s.requests
    ensures Inv(s') && (Agrees(s) ==> Agrees(s'))
  {
    SameCache(s, s');
  }

  lemma RequestKeeps(s: Names, sender: string, f: string, access: int, now: int)
    requires Inv(s) && Status(s, RequestAccess(sender, f, access, now)) == SUCCESS
    ensures var s' := AddRequest(s, sender, f, access, now); Inv(s') && (Agrees(s) ==> Agrees(s'))
  {
    hide Closed, AclsOk, Agrees;
    var s' := AddRequest(s, sender, f, access, now);
    if s' != s { AddKeepsRequests(s, sender, f, access, now); }
    SameCache(s, s');
  }

  lemma DenyKeeps(s: Names, id: nat)
    requires Inv(s) && id < |s.requests|
    ensures var s' := s.(requests := Cut(s.requests, id)); Inv(s') && (Agrees(s) ==> Agrees(s'))
  {
    hide Closed, AclsOk, Agrees, RequestsOk;
    RemoveKeepsRequests(s.requests, id);
    SameCache(s, s.(requests := Cut(s.requests, id)));
  }

  lemma RegistrationKeeps(s: Names, id: int, files: seq<string>, now: int)
    requires Inv(s)
    ensures Inv(RegisterSs(s, id, files, now))
  {
    hide Closed, Ascii, RegisterFiles, FirstFiles;
    RegisteredFiles(s.trie, FirstFiles(files), id, now);
  }
}
