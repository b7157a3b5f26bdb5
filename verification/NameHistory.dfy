/** Whole runs of the name server: who owns a file and why, how files leave the index, what becomes of
    requests for access, whose turn it is, and what the cache holds. */
module NameHistory {
  import opened Wrappers
  import opened Metadata
  import opened TrieModel
  import opened NameSteps
  import opened NameRules
  import opened NameRuns
  import opened NameLaws
  import Cached = CacheModel

  /* ---- The files of the index ---- */

  /** The request puts the file `f`, which is not there, in the index: a CREATE by its owner, or a
      registration, for the system. */
  ghost predicate Founds(s: Names, r: Request, f: string, owner: string)
    requires Enabled(s, r)
  {
    f !in s.trie.files && Ascii(f) &&
    match r
    case Create(sender, filename, reply, _) => filename == f && sender == owner && Step(s, r).1 == 200
    case RegisterServer(id, list, _) =>
      (KnownServer(s.servers, id) || |s.servers| < 50)
      && f in list[..if |list| < 10000 then |list| else 10000] && owner == "system"
    case _ => false
  }

  /** The request is a DELETE of `f` by its owner that the storage server carried out. */
  predicate DeletesOwn(s: Names, r: Request, f: string) {
    r.Delete? && r.filename == f && f in s.trie.files && s.trie.files[f].owner == r.sender
    && r.reply == 200 && r.lockReply != 424 && KnownServer(s.servers, s.trie.files[f].ssId)
  }

  /** Which files are in the index after a request, and whose they are. */
  lemma IndexAfter(s: Names, r: Request, f: string)
    requires Inv(s) && Enabled(s, r)
    ensures f in s.trie.files ==> (f in After(s, r) <==> !DeletesOwn(s, r, f))
    ensures f !in s.trie.files ==> (f in After(s, r) <==> exists owner :: Founds(s, r, f, owner))
    ensures f !in s.trie.files && f in After(s, r) ==> Founds(s, r, f, After(s, r)[f].owner)
    ensures f in s.trie.files && f in After(s, r) ==> After(s, r)[f].owner == s.trie.files[f].owner
  {
    hide Inv, Step, Enabled, KnownServer, Ascii;
    match r
    case Create(sender, filename, reply, now) =>
      CreateAnswers(s, sender, filename, reply, now);
      CreateIndexes(s, sender, filename, reply, now, f);
      if f !in s.trie.files && f in After(s, r) { assert Founds(s, r, f, sender); }
    case Delete(sender, filename, lockReply, reply) => DeleteAnswers(s, sender, filename, lockReply, reply);
    case RegisterServer(id, list, now) =>
      RegistrationIndexes(s, id, list, now, f);
      assert After(s, r) == Step(s, RegisterServer(id, list, now)).0.trie.files;
      if f !in s.trie.files && f in After(s, r) { assert Founds(s, r, f, "system"); }
    case _ => OwnersStay(s, r, f);
  }

  /** The other requests neither add nor remove files, and change no owner. */
  lemma OwnersStay(s: Names, r: Request, f: string)
    requires Inv(s) && Enabled(s, r) && !r.Create? && !r.Delete? && !r.RegisterServer?
    ensures f in After(s, r) <==> f in s.trie.files
    ensures f in s.trie.files ==> After(s, r)[f].owner == s.trie.files[f].owner
  {
    hide Inv, Step, Enabled, KnownServer, Passes, HasEntry, FindSs, Asked, Entry;
    match r
    case AddAccess(sender, filename, target, access) => AddAccessAnswers(s, sender, filename, target, access);
    case RemAccess(sender, filename, target) => RemAccessAnswers(s, sender, filename, target);
    case RequestAccess(sender, filename, access, now) => RequestAnswers(s, sender, filename, access, now);
    case Approve(sender, id) => ApproveAnswers(s, sender, id);
    case Deny(sender, id) => DenyAnswers(s, sender, id);
    case Move(sender, filename, path, folderExists, reply) =>
      MoveAnswers(s, sender, filename, path, folderExists, reply);
    case Touch(sender, filename, required, now) => TouchAnswers(s, sender, filename, required, now);
    case Lookup(sender, filename, required) => LookupAnswers(s, sender, filename, required);
    case Info(filename) => InfoAnswers(s, filename);
    case Refresh(filename, stat) => RefreshAnswers(s, filename, stat);
    case RegisterUser(user) => UserAnswers(s, user);
    case ServerTimeout(id) => ServerAnswers(s, id, [], 0);
  }

  lemma CreateIndexes(s: Names, sender: string, g: string, reply: int, now: int, f: string)
    requires Inv(s) && Enabled(s, Create(sender, g, reply, now))
    ensures var r := Create(sender, g, reply, now);
      && (Step(s, r).1 == 200 && !Ascii(g) ==> After(s, r) == s.trie.files)
      && (Step(s, r).1 == 200 && Ascii(g) ==>
            g !in s.trie.files && g in After(s, r) && After(s, r)[g].owner == sender
            && After(s, r) == s.trie.files[g := After(s, r)[g]])
      && (Step(s, r).1 != 200 ==> After(s, r) == s.trie.files)
  {
    hide Inv, Cached.Put, Cached.Probe, Ascii;
  }

  /** A file leaves the index only by a DELETE of the one who owns it at that moment. */
  lemma FileLeaves(states: seq<Names>, requests: seq<Request>, n: nat, f: string)
    requires IsRun(states, requests) && n < |requests|
    requires f in states[n].trie.files && f !in states[n + 1].trie.files
    ensures DeletesOwn(states[n], requests[n], f)
  {
    hide Inv, Initial, Enabled, Step, DeletesOwn;
    RunInv(states, requests, n);
    var r := requests[n];
    IndexAfter(states[n], r, f);
  }

  /** Request `i` put the file in the index for `owner`, and it has been there, and his, up to `n`. */
  ghost predicate FoundedAt(states: seq<Names>, requests: seq<Request>, n: nat, i: nat, f: string, owner: string)
    requires IsRun(states, requests) && n <= |requests|
  {
    && i < n && Enabled(states[i], requests[i]) && Founds(states[i], requests[i], f, owner)
    && forall j | i < j <= n :: f in states[j].trie.files && states[j].trie.files[f].owner == owner
  }

  /** In every reachable state a file belongs to the sender of the CREATE that made it, or to the system
      if a registration did, and it was not deleted since. */
  lemma {:induction false} OwnerTraced(states: seq<Names>, requests: seq<Request>, n: nat, f: string)
    requires IsRun(states, requests) && n <= |requests| && f in states[n].trie.files
    ensures exists i :: FoundedAt(states, requests, n, i, f, states[n].trie.files[f].owner)
  {
    hide Inv, Enabled, Step, Founds, DeletesOwn;
    var owner := states[n].trie.files[f].owner;
    if n == 0 {
    } else {
      var s, r := states[n - 1], requests[n - 1];
      RunInv(states, requests, n - 1);
      IndexAfter(s, r, f);
      if f in s.trie.files {
        OwnerTraced(states, requests, n - 1, f);
        var i :| FoundedAt(states, requests, n - 1, i, f, owner);
        assert FoundedAt(states, requests, n, i, f, owner);
      } else {
        assert FoundedAt(states, requests, n, n - 1, f, owner);
      }
    }
  }

  /* ---- Requests for access ---- */

  /** The request decides the pending request `q`: the owner of its file approves or denies it. */
  ghost predicate Decides(s: Names, r: Request, q: AccessRequest) {
    && (r.Approve? || r.Deny?) && 0 <= r.id < |s.requests| && s.requests[r.id] == q
    && q.filename in s.trie.files && s.trie.files[q.filename].owner == r.sender
  }

  /** A request for access is pending after a request exactly when it was and is not decided, or is filed
      by this one. */
  lemma PendingAfter(s: Names, r: Request, q: AccessRequest)
    requires Inv(s) && Enabled(s, r)
    ensures q in Step(s, r).0.requests <==>
      || (q in s.requests && !Decides(s, r, q))
      || Files(s, r, q)
  {
    hide Inv, Step, Enabled, KnownServer, Passes, HasEntry, FindSs, Asked, Entry, OnlyAcl;
    match r
    case Create(sender, filename, reply, now) => CreateAnswers(s, sender, filename, reply, now);
    case Delete(sender, filename, lockReply, reply) => DeleteAnswers(s, sender, filename, lockReply, reply);
    case AddAccess(sender, filename, target, access) => AddAccessAnswers(s, sender, filename, target, access);
    case RemAccess(sender, filename, target) => RemAccessAnswers(s, sender, filename, target);
    case RequestAccess(sender, filename, access, now) => RequestAnswers(s, sender, filename, access, now);
    case Approve(sender, id) =>
      ApproveAnswers(s, sender, id);
      if 0 <= id < |s.requests| { WithoutOne(s, id, q); }
    case Deny(sender, id) =>
      DenyAnswers(s, sender, id);
      if 0 <= id < |s.requests| { WithoutOne(s, id, q); }
    case Move(sender, filename, path, folderExists, reply) =>
      MoveAnswers(s, sender, filename, path, folderExists, reply);
    case Touch(sender, filename, required, now) => TouchAnswers(s, sender, filename, required, now);
    case Lookup(sender, filename, required) => LookupAnswers(s, sender, filename, required);
    case Info(filename) => InfoAnswers(s, filename);
    case Refresh(filename, stat) => RefreshAnswers(s, filename, stat);
    case RegisterUser(user) => UserAnswers(s, user);
    case RegisterServer(id, list, now) => ServerAnswers(s, id, list, now);
    case ServerTimeout(id) => ServerAnswers(s, id, [], 0);
  }

  /** The request files `q`. */
  ghost predicate Files(s: Names, r: Request, q: AccessRequest) {
    && r == RequestAccess(q.username, q.filename, q.requested, q.time)
    && q.filename in s.trie.files && |s.requests| < 100000
    && !Passes(s.trie.files, q.filename, q.username, q.requested) && !Asked(s, q.username, q.filename, q.requested)
  }

  lemma WithoutOne(s: Names, id: nat, q: AccessRequest)
    requires Inv(s) && id < |s.requests|
    ensures q in s.requests[..id] + s.requests[id + 1..] <==> q in s.requests && q != s.requests[id]
  {
    hide Closed, AclsOk, Cached.CacheOk;
    var qs, r := s.requests, s.requests[..id] + s.requests[id + 1..];
    assert forall i | 0 <= i < |r| :: r[i] == qs[if i < id then i else i + 1];
    if q in qs && q != qs[id] {
      var i :| 0 <= i < |qs| && qs[i] == q;
      assert r[if i < id then i else i - 1] == q;
    }
    if q in r {
      var i :| 0 <= i < |r| && r[i] == q;
      var j := if i < id then i else i + 1;
      assert qs[j] == q;
      if j < id { assert !SameRequest(qs[j], qs[id].username, qs[id].filename, qs[id].requested); }
      if j > id { assert !SameRequest(qs[id], qs[j].username, qs[j].filename, qs[j].requested); }
    }
  }

  /** Every pending request was filed by its user, who had no such right then, and was not decided
      since. */
  lemma {:induction false} PendingTraced(states: seq<Names>, requests: seq<Request>, n: nat, q: AccessRequest)
    requires IsRun(states, requests) && n <= |requests| && q in states[n].requests
    ensures exists i :: FiledAt(states, requests, n, i, q)
  {
    hide Inv, Enabled, Step, Files, Decides;
    if n == 0 {
    } else {
      var s, r := states[n - 1], requests[n - 1];
      RunInv(states, requests, n - 1);
      PendingAfter(s, r, q);
      if Files(s, r, q) {
        assert FiledAt(states, requests, n, n - 1, q);
      } else {
        PendingTraced(states, requests, n - 1, q);
        var i :| FiledAt(states, requests, n - 1, i, q);
        assert FiledAt(states, requests, n, i, q);
      }
    }
  }

  ghost predicate FiledAt(states: seq<Names>, requests: seq<Request>, n: nat, i: nat, q: AccessRequest)
    requires n <= |requests| < |states|
  {
    && i < n && Files(states[i], requests[i], q)
    && forall j | i < j < n :: !Decides(states[j], requests[j], q)
  }

  /* ---- Turns ---- */

  /** The request is a CREATE that asks for a server. */
  ghost predicate TakesTurn(s: Names, r: Request) {
    r.Create? && r.filename !in s.trie.files && s.servers != []
  }

  ghost function Turns(states: seq<Names>, requests: seq<Request>, n: nat): nat
    requires n <= |requests| < |states|
  {
    if n == 0 then 0 else Turns(states, requests, n - 1) + if TakesTurn(states[n - 1], requests[n - 1]) then 1 else 0
  }

  lemma TurnAfter(s: Names, r: Request)
    requires Inv(s) && Enabled(s, r)
    ensures Step(s, r).0.nextSs == s.nextSs + if TakesTurn(s, r) then 1 else 0
  {
    hide Inv, Cached.Put, Cached.Probe, Cached.Get, Cached.Remove, TrieModel.Delete, Grant, Revoke, RegisterFiles;
    if r.Touch? && Status(s, r) == SUCCESS {
      FoundEnds(s, r.filename);
    }
  }

  /** The CREATEs that ask for a server get the registered ones in turn: in every reachable state the next
      is the one at the number of such CREATEs so far, modulo the number of servers. */
  lemma {:induction false} TurnsCounted(states: seq<Names>, requests: seq<Request>, n: nat)
    requires IsRun(states, requests) && n <= |requests|
    ensures states[n].nextSs == Turns(states, requests, n)
    ensures states[n].servers != [] ==>
      Turn(states[n]) == states[n].servers[Turns(states, requests, n) % |states[n].servers|].id
  {
    hide Inv, Enabled, Step, TakesTurn;
    if n == 0 {
      FirstTurn(states[0]);
    } else {
      TurnsCounted(states, requests, n - 1);
      RunInv(states, requests, n - 1);
      var r := requests[n - 1];
      TurnAfter(states[n - 1], r);
    }
  }

  lemma FirstTurn(s: Names)
    requires Initial(s)
    ensures s.nextSs == 0
  {}

  /* ---- What the cache holds ---- */

  /** Of a file in the index the cache holds nothing, or nearest of all the index's own record. */
  ghost predicate Mirrors(s: Names) {
    s.cache.slots != [] && forall k | k in s.trie.files :: Nearest(s, k).Some? ==> Nearest(s, k).value == s.trie.files[k]
  }

  /** `s'` came from `s` by putting `meta` under `f` in the cache, and by changing no other file. */
  ghost predicate PutOf(s: Names, s': Names, f: string, meta: FileMetadata) {
    && s.cache.slots != [] && s'.cache.slots != []
    && (forall k :: Nearest(s', k) == if k == f then Some(meta) else Nearest(s, k))
    && (forall k | k in s'.trie.files && k != f :: k in s.trie.files && s'.trie.files[k] == s.trie.files[k])
    && (f in s'.trie.files ==> s'.trie.files[f] == meta)
  }

  lemma PutMirrors(s: Names, s': Names, f: string, meta: FileMetadata)
    requires PutOf(s, s', f, meta) && Mirrors(s)
    ensures Mirrors(s')
  {}

  lemma StoreIsPut(s: Names, f: string, meta: FileMetadata)
    requires Inv(s) && Ends(s, f) && f in s.trie.files
    ensures PutOf(s, Store(s, f, meta), f, meta)
  {
    hide Closed, AclsOk, RequestsOk, Cached.CacheOk;
    CachePut(s, f, meta, Store(s, f, meta).trie);
  }

  lemma CreateIsPut(s: Names, f: string, owner: string, now: int)
    requires Inv(s) && Ends(s, f) && f !in s.trie.files
    ensures PutOf(s, CreateFile(s, f, owner, now), f, NewFile(f, owner, NextId(s), now, owner))
  {
    hide Closed, AclsOk, RequestsOk, Cached.CacheOk, Ascii;
    var meta := NewFile(f, owner, NextId(s), now, owner);
    CachePut(s, f, meta, CreateFile(s, f, owner, now).trie);
    var s' := CreateFile(s, f, owner, now);
    var t := s.(trie := Insert(s.trie, f, meta), cache := Cached.Put(s.cache, f, HomeOf(s, f), meta));
    assert s'.cache == t.cache && s'.hash == t.hash;
    forall k ensures Nearest(s', k) == Nearest(t, k) {}
  }

  /** The most recent entry of the cache is one of `f`. */
  predicate IsFirst(c: Cached.Cache<FileMetadata>, f: string) {
    c.order != [] && c.order[0] < |c.slots| && Cached.Holds(c.slots, c.order[0], f)
  }

  /** Storing and creating leave the file in front. */
  lemma StoredFirst(s: Names, f: string, meta: FileMetadata, owner: string, now: int)
    requires Inv(s) && Ends(s, f)
    ensures IsFirst(Store(s, f, meta).cache, f) && IsFirst(CreateFile(s, f, owner, now).cache, f)
  {
    hide Inv, Cached.Without, Cached.Probe;
  }

  /** A lookup of a file in the index leaves it in the cache, and in front. */
  lemma FindMirrors(s: Names, f: string)
    requires Inv(s) && Ends(s, f) && f in s.trie.files && Mirrors(s)
    ensures var s' := FindSs(s, f).0;
      Inv(s') && Mirrors(s') && Ends(s', f) && Nearest(s', f) == Some(s.trie.files[f])
      && Cached.Get(s'.cache, f, HomeOf(s', f)).1 == Some(s.trie.files[f])
      && IsFirst(s'.cache, f)
  {
    hide Closed, AclsOk, RequestsOk;
    var home := HomeOf(s, f);
    FindKeeps(s, f);
    FoundEnds(s, f);
    Cached.HitIsNearest(s.cache, f, home);
    var (cache, hit) := Cached.Get(s.cache, f, home);
    if hit.None? {
      assert cache == s.cache;
      CachePut(s, f, s.trie.files[f], s.trie);
      PutHits(s, f);
    } else {
      assert cache.slots == s.cache.slots;
    }
  }

  lemma PutHits(s: Names, f: string)
    requires Inv(s) && Ends(s, f) && f in s.trie.files
    ensures var c := Cached.Put(s.cache, f, HomeOf(s, f), s.trie.files[f]);
      |c.slots| == |s.cache.slots| && Cached.Probe(c.slots, f, HomeOf(s, f), 0) < |c.slots|
      && Cached.Get(c, f, HomeOf(s, f)).1 == Some(s.trie.files[f])
  {
    hide Closed, AclsOk, RequestsOk, Cached.CacheOk;
    var home, n := HomeOf(s, f), |s.cache.slots|;
    var c, j := Cached.Put(s.cache, f, home, s.trie.files[f]), Cached.Probe(s.cache.slots, f, home, 0);
    assert Cached.Holds(c.slots, Cached.ProbeSlot(home, j, n), f);
    assert forall k | 0 <= k < j :: c.slots[Cached.ProbeSlot(home, k, n)] == s.cache.slots[Cached.ProbeSlot(home, k, n)];
    assert Cached.Probe(c.slots, f, home, 0) == j;
  }

  lemma DropMirrors(s: Names, f: string)
    requires Inv(s) && Ends(s, f) && Mirrors(s)
    ensures Mirrors(DropFile(s, f))
  {
    hide Closed, AclsOk, RequestsOk, Cached.CacheOk, Cached.Remove, Cached.NearestValue;
    var s' := DropFile(s, f);
    DropEntries(s, f);
    Cached.KeepsOk(s.cache, f, HomeOf(s, f));
    forall k | k in s'.trie.files ensures Nearest(s', k) == Nearest(s, k) {
      Cached.RemoveKeepsNearest(s.cache, f, HomeOf(s, f), k, HomeOf(s, k));
    }
  }

  /** Every request but a registration keeps the cache a mirror of the index, whole records and not the
      server alone. */
  lemma StepMirrors(s: Names, r: Request)
    requires Inv(s) && Enabled(s, r) && Mirrors(s) && !r.RegisterServer?
    ensures Mirrors(Step(s, r).0)
  {
    hide Inv, Mirrors, Store, CreateFile, DropFile, FindSs, Ends, Grant, Revoke, AddRequest, PutOf;
    if Status(s, r) != SUCCESS {
      SameMirrors(s, Step(s, r).0);
    } else {
      match r
      case Create(sender, f, _, now) =>
        CreateIsPut(s, f, sender, now);
        PutMirrors(s, CreateFile(s, f, sender, now), f, NewFile(f, sender, NextId(s), now, sender));
      case Delete(_, f, _, _) => DropMirrors(s, f);
      case AddAccess(_, f, target, access) => AclMirrors(s, f, Grant(s.trie.files[f].acl, target, access));
      case RemAccess(_, f, target) => AclMirrors(s, f, Revoke(s.trie.files[f].acl, target));
      case Approve(_, id) =>
        var q := s.requests[id];
        var acl := Grant(s.trie.files[q.filename].acl, q.username, q.requested);
        AclMirrors(s, q.filename, acl);
        SameMirrors(ChangeAcl(s, q.filename, acl), Step(s, r).0);
      case Move(_, f, path, _, _) => StoreMirrors(s, f, s.trie.files[f].(folderPath := path));
      case Touch(sender, f, _, now) => TouchMirrors(s, sender, f, now);
      case Lookup(_, f, _) => FindMirrors(s, f);
      case Info(f) => FindMirrors(s, f);
      case Refresh(f, stat) => StoreMirrors(s, f, WithStat(s.trie.files[f], stat));
      case RequestAccess(sender, f, access, now) =>
        RequestFrame(s, sender, f, access, now);
        RequestCache(s, sender, f, access, now);
        SameMirrors(s, Step(s, r).0);
      case Deny(_, _) => SameMirrors(s, Step(s, r).0);
      case RegisterUser(_) => SameMirrors(s, Step(s, r).0);
      case ServerTimeout(_) => SameMirrors(s, Step(s, r).0);
    }
  }

  lemma RequestCache(s: Names, sender: string, f: string, access: int, now: int)
    ensures var s' := AddRequest(s, sender, f, access, now); s'.cache == s.cache && s'.hash == s.hash
  {}

  lemma SameMirrors(s: Names, s': Names)
    requires s'.cache == s.cache && s'.trie == s.trie && s'.hash == s.hash && Mirrors(s)
    ensures Mirrors(s')
  {
    forall k | k in s'.trie.files ensures Nearest(s', k) == Nearest(s, k) {}
  }

  lemma StoreMirrors(s: Names, f: string, meta: FileMetadata)
    requires Inv(s) && Ends(s, f) && f in s.trie.files && Mirrors(s)
    ensures Mirrors(Store(s, f, meta))
  {
    hide Inv, PutOf, Mirrors;
    StoreIsPut(s, f, meta);
    PutMirrors(s, Store(s, f, meta), f, meta);
  }

  lemma AclMirrors(s: Names, f: string, acl: seq<AclEntry>)
    requires Inv(s) && Ends(s, f) && f in s.trie.files && Mirrors(s)
    ensures Mirrors(ChangeAcl(s, f, acl))
  {
    hide Inv, Mirrors, Ends;
    StoreMirrors(s, f, s.trie.files[f].(acl := acl));
  }

  lemma TouchMirrors(s: Names, sender: string, f: string, now: int)
    requires Inv(s) && Ends(s, f) && f in s.trie.files && Mirrors(s)
    ensures Mirrors(TouchFile(s, sender, f, now).0)
  {
    hide Inv, Mirrors, Ends;
    FindMirrors(s, f);
    FindFrame(s, f);
    StoreMirrors(FindSs(s, f).0, f, s.trie.files[f].(accessed := now, lastAccessedBy := sender));
  }

  /** In every state of a run before the first registration that lists files, the cache mirrors the
      index. */
  lemma {:induction false} RunMirrors(states: seq<Names>, requests: seq<Request>, n: nat)
    requires IsRun(states, requests) && n <= |requests|
    requires forall i | 0 <= i < n && requests[i].RegisterServer? :: requests[i].files == []
    ensures Mirrors(states[n])
  {
    hide Inv, Enabled, Step, Mirrors, Initial;
    if n == 0 {
      InitialMirrors(states[0]);
    } else {
      var s, r := states[n - 1], requests[n - 1];
      RunMirrors(states, requests, n - 1);
      RunInv(states, requests, n - 1);
      if r.RegisterServer? { EmptyRegistration(s, r.id, r.now); } else { StepMirrors(s, r); }
    }
  }

  lemma InitialMirrors(s: Names)
    requires Initial(s)
    ensures Mirrors(s)
  {}

  lemma EmptyRegistration(s: Names, id: int, now: int)
    requires Mirrors(s)
    ensures Mirrors(Step(s, RegisterServer(id, [], now)).0)
  {
    hide Mirrors;
    SameMirrors(s, Step(s, RegisterServer(id, [], now)).0);
  }

  lemma StepSize(s: Names, r: Request)
    requires Inv(s) && Enabled(s, r)
    ensures |Step(s, r).0.cache.slots| == |s.cache.slots|
  {
    hide Inv, Cached.Without, Cached.Probe, TrieModel.Delete, Grant, Revoke, RegisterFiles;
    if r.Touch? && Status(s, r) == SUCCESS { FoundEnds(s, r.filename); }
  }

  /** In every reachable state the cache has 100 slots. */
  lemma {:induction false} RunSize(states: seq<Names>, requests: seq<Request>, n: nat)
    requires IsRun(states, requests) && n <= |requests|
    ensures |states[n].cache.slots| == 100
  {
    hide Inv, Enabled, Step, Initial;
    if n == 0 {
      InitialSize(states[0]);
    } else {
      RunSize(states, requests, n - 1);
      RunInv(states, requests, n - 1);
      var r := requests[n - 1];
      StepSize(states[n - 1], r);
    }
  }

  lemma InitialSize(s: Names)
    requires Initial(s)
    ensures |s.cache.slots| == 100
  {}
}
