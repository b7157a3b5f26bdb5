/** Whole runs of the name server: agreement of the cache with the index, and rights. */
module NameRuns {
  import opened Wrappers
  import opened Metadata
  import opened TrieModel
  import opened NameSteps
  import opened NameRules
  import Cached = CacheModel

  /** `states[i]` is the state before request `i`, and every cache operation on the way ends. */
  ghost predicate IsRun(states: seq<Names>, requests: seq<Request>) {
    && |states| == |requests| + 1
    && Initial(states[0])
    && forall i {:trigger requests[i]} | 0 <= i < |requests| ::
         Enabled(states[i], requests[i]) && states[i + 1] == Step(states[i], requests[i]).0
  }

  lemma InitialInv(s: Names)
    requires Initial(s)
    ensures Inv(s) && Agrees(s)
  {
    Cached.EmptyOk<FileMetadata>(INITIAL_CAPACITY);
  }

  lemma {:induction false} RunInv(states: seq<Names>, requests: seq<Request>, n: nat)
    requires IsRun(states, requests) && n <= |requests|
    ensures Inv(states[n])
  {
    hide Inv, Initial, Enabled, Step;
    if n == 0 {
      InitialInv(states[0]);
    } else {
      RunInv(states, requests, n - 1);
      var r := requests[n - 1];
      StepKeeps(states[n - 1], r);
    }
  }

  /** In every reachable state access lists and pending requests are duplicate-free and within
      their bounds. */
  lemma RunNoDuplicates(states: seq<Names>, requests: seq<Request>, n: nat)
    requires IsRun(states, requests) && n <= |requests|
    ensures RequestsOk(states[n].requests) && AclsOk(states[n].trie.files)
  {
    RunInv(states, requests, n);
  }

  /** A name outside 7-bit ASCII is never in the index, so once created its file is out of reach: in
      every reachable state all requests about it, the owner's included, are refused, and only another
      CREATE is not. */
  lemma ForeignRefused(states: seq<Names>, requests: seq<Request>, n: nat, r: Request, f: string)
    requires IsRun(states, requests) && n <= |requests| && !Ascii(f)
    ensures f !in states[n].trie.files
    ensures IsAbout(states[n], r, f) ==>
      && Enabled(states[n], r) && Step(states[n], r).0 == states[n]
      && Step(states[n], r).1 in {ERR_FILE_NOT_FOUND, ERR_ACCESS_DENIED, ERR_NOT_OWNER}
    ensures r.Create? && r.filename == f && NextId(states[n]) >= 0 ==> Status(states[n], r) == r.reply
  {
    hide Initial, Step, Enabled, IsAbout;
    RunInv(states, requests, n);
    if IsAbout(states[n], r, f) { UnknownRefused(states[n], r, f); }
  }

  /* ---- The cache agrees with the index ---- */

  /** Every registration of the run fits the cache at its time. */
  ghost predicate RegistrationsFit(states: seq<Names>, requests: seq<Request>)
    requires IsRun(states, requests)
  {
    forall i | 0 <= i < |requests| && requests[i].RegisterServer? ::
      Fits(states[i], requests[i].id, requests[i].files)
  }

  predicate Fits(s: Names, id: int, files: seq<string>) {
    s.cache.slots != [] && (ServersFull(s, id) || RegistrationFits(s, id, files))
  }

  lemma {:induction false} RunAgrees(states: seq<Names>, requests: seq<Request>, n: nat)
    requires IsRun(states, requests) && n <= |requests| && RegistrationsFit(states, requests)
    ensures Agrees(states[n])
  {
    hide Inv, Initial, Enabled, Agrees, Fits, Status, Accept;
    if n == 0 {
      InitialInv(states[0]);
    } else {
      RunAgrees(states, requests, n - 1);
      RunInv(states, requests, n - 1);
      var s, r := states[n - 1], requests[n - 1];
      StepKeeps(s, r);
      if r.RegisterServer? {
        RegistrationStep(s, r);
      }
    }
  }

  lemma RegistrationStep(s: Names, r: Request)
    requires Inv(s) && Agrees(s) && r.RegisterServer? && Enabled(s, r)
    ensures Agrees(Step(s, r).0) <==> Fits(s, r.id, r.files)
  {
    hide Inv, Agrees, RegistrationFits, RegisterSs, Nearest;
    RegistrationAgrees(s, r.id, r.files, r.now);
    HasSlots(s);
  }

  lemma HasSlots(s: Names)
    requires Inv(s)
    ensures s.cache.slots != []
  {}

  /** In every reachable state, if the registrations so far fitted, the lookup of a file in the index
      answers the index's storage server. */
  lemma LookupIsIndex(states: seq<Names>, requests: seq<Request>, n: nat, f: string)
    requires IsRun(states, requests) && n <= |requests| && RegistrationsFit(states, requests)
    requires f in states[n].trie.files && Ends(states[n], f)
    ensures FindSs(states[n], f).1 == states[n].trie.files[f].ssId
  {
    RunInv(states, requests, n);
    RunAgrees(states, requests, n);
    FindReturnsIndex(states[n], f);
  }

  /** Which lookups a registration in a reachable state in agreement leaves right. */
  lemma LookupAfterRegistration(states: seq<Names>, requests: seq<Request>, n: nat, f: string)
    requires IsRun(states, requests) && n < |requests| && Agrees(states[n])
    requires requests[n].RegisterServer? && !ServersFull(states[n], requests[n].id)
    requires f in states[n + 1].trie.files && Ends(states[n], f)
    ensures var s, s' := states[n], states[n + 1];
      var hit := Cached.Get(s.cache, f, HomeOf(s, f)).1;
      && Ends(s', f)
      && (FindSs(s', f).1 == s'.trie.files[f].ssId <==>
            f !in FirstFiles(requests[n].files) || hit.None? || hit.value.ssId == requests[n].id)
  {
    hide Inv, Agrees, Enabled, FirstFiles, RegisterSs, FindSs;
    var s, r := states[n], requests[n];
    RunInv(states, requests, n);
    assert Step(s, r).0 == RegisterSs(s, r.id, r.files, r.now);
    RegistrationAnswers(s, r.id, r.files, r.now, f);
  }

  /** In every reachable state in agreement, a registration keeps the agreement if and only if it fits:
      the condition above cannot be weakened. */
  lemma MisfitBreaks(states: seq<Names>, requests: seq<Request>, n: nat)
    requires IsRun(states, requests) && n < |requests| && Agrees(states[n]) && requests[n].RegisterServer?
    ensures Agrees(states[n + 1]) <==> Fits(states[n], requests[n].id, requests[n].files)
  {
    hide Inv, Initial, Enabled, Agrees, Fits, Step;
    RunInv(states, requests, n);
    var r := requests[n];
    RegistrationStep(states[n], r);
  }

  const REGISTER_1 := RegisterServer(1, [], 0)
  const CREATE_A := Create("u", "a", SUCCESS, 0)
  const REGISTER_2 := RegisterServer(2, ["a"], 1)

  /** A file re-registered by another server: its lookup keeps answering the old one, for every
      hash function. */
  lemma StaleAfterReregistration(s0: Names)
    requires Initial(s0)
    ensures Enabled(s0, REGISTER_1)
    ensures Enabled(Step(s0, REGISTER_1).0, CREATE_A)
    ensures Enabled(Step(Step(s0, REGISTER_1).0, CREATE_A).0, REGISTER_2)
    ensures var s := Step(Step(Step(s0, REGISTER_1).0, CREATE_A).0, REGISTER_2).0;
      Ends(s, "a") && "a" in s.trie.files && s.trie.files["a"].ssId == 2 && FindSs(s, "a").1 == 1
  {
    hide Closed, AclsOk, RequestsOk, Cached.CacheOk, Cached.Probe, Cached.NearestValue;
    var r1, r2, r3 := REGISTER_1, CREATE_A, REGISTER_2;
    InitialInv(s0);
    var s1 := Step(s0, r1).0;
    StepKeeps(s0, r1);
    assert s1.servers == [Server(1, true)];
    assert s1.cache.slots[HomeOf(s1, "a")] == None;
    assert Cached.Probe(s1.cache.slots, "a", HomeOf(s1, "a"), 0) == 0 by { EmptyProbe(s1.cache.slots, "a", HomeOf(s1, "a")); }
    var s2 := Step(s1, r2).0;
    assert s2.cache.slots == s1.cache.slots[HomeOf(s1, "a") := Some(Cached.Entry("a", s2.trie.files["a"]))];
    FullProbe(s2.cache.slots, "a", HomeOf(s2, "a"));
    var s3 := Step(s2, r3).0;
    assert RegisterFiles(s2.trie, ["a"], 2, 1) == RegisterFile(s2.trie, "a", 2, 1) by {
      assert ["a"][1..] == [];
    }
  }

  lemma EmptyProbe(slots: Cached.Slots<FileMetadata>, key: string, home: nat)
    requires home < |slots| && slots[home].None?
    ensures Cached.Probe(slots, key, home, 0) == 0
  {}

  lemma FullProbe(slots: Cached.Slots<FileMetadata>, key: string, home: nat)
    requires home < |slots| && Cached.Holds(slots, home, key)
    ensures Cached.Probe(slots, key, home, 0) == 0
  {}

  /* ---- What a grant does ---- */

  ghost function After(s: Names, r: Request): map<string, FileMetadata>
    requires Enabled(s, r)
  {
    Step(s, r).0.trie.files
  }

  function AclEntryOf(files: map<string, FileMetadata>, f: string, user: string): Option<int> {
    if f in files then Entry(files[f].acl, user) else None
  }

  lemma ChangedAcl(s: Names, f: string, acl: seq<AclEntry>)
    requires f in s.trie.files && Ends(s, f)
    ensures ChangeAcl(s, f, acl).trie.files == s.trie.files[f := s.trie.files[f].(acl := acl)]
  {}

  /** ADDACCESS gives its target exactly what the access number allows, provided the list has room;
      nobody else's access to any file changes. */
  lemma AddAccessGives(s: Names, r: Request, f: string, user: string, required: int)
    requires Inv(s) && Enabled(s, r) && r.AddAccess? && Status(s, r) == SUCCESS
    ensures CheckAccess(After(s, r), f, user, required) <==>
      if f == r.filename && user == r.target
        && HasPlace(s.trie.files, f, user)
      then Allows(r.access, required)
      else CheckAccess(s.trie.files, f, user, required)
  {
    hide Closed, Ends, ChangeAcl, Grant, AclsOk, FindEntry;
    var files := s.trie.files;
    OwnAcl(s, r.filename);
    ChangedAcl(s, r.filename, Grant(files[r.filename].acl, r.target, r.access));
    GrantIs(files[r.filename].acl, r.target, r.access, user);
    if f in files {
      AccessIs(files, f, user, required);
      AccessIs(After(s, r), f, user, required);
    }
  }

  /** REMACCESS leaves its target no access, since the list has at most one entry for it; nobody
      else's access changes. */
  lemma RemAccessTakes(s: Names, r: Request, f: string, user: string, required: int)
    requires Inv(s) && Enabled(s, r) && r.RemAccess? && Status(s, r) == SUCCESS
    ensures CheckAccess(After(s, r), f, user, required) <==>
      if f == r.filename && user == r.target then user == r.sender
      else CheckAccess(s.trie.files, f, user, required)
  {
    hide Closed, Ends, ChangeAcl, Revoke, AclsOk, FindEntry;
    var files := s.trie.files;
    OwnAcl(s, r.filename);
    ChangedAcl(s, r.filename, Revoke(files[r.filename].acl, r.target));
    RevokeIs(files[r.filename].acl, r.target, user);
    if f in files {
      AccessIs(files, f, user, required);
      AccessIs(After(s, r), f, user, required);
    }
  }

  /** The list has an entry, or room for one. */
  predicate HasPlace(files: map<string, FileMetadata>, f: string, user: string) {
    f in files && (Entry(files[f].acl, user).Some? || |files[f].acl| < MAX_ACL_ENTRIES)
  }

  /** Approving a request for reading gives reading, and one for read-write both, if and only if the
      list has an entry or room for the user; the owner has both in any case.  The bare write value,
      which no client command sends, gives nothing. */
  lemma ApproveGives(s: Names, r: Request)
    requires Inv(s) && Enabled(s, r) && r.Approve? && Status(s, r) == SUCCESS
    ensures var q, after := s.requests[r.id], After(s, r);
      var granted := HasPlace(s.trie.files, q.filename, q.username);
      && (CheckAccess(after, q.filename, q.username, ACCESS_READ) <==>
            q.username == r.sender || (granted && q.requested in {ACCESS_READ, ACCESS_READWRITE}))
      && (CheckAccess(after, q.filename, q.username, ACCESS_WRITE) <==>
            q.username == r.sender || (granted && q.requested == ACCESS_READWRITE))
  {
    var files, q := s.trie.files, s.requests[r.id];
    ApproveAccess(s, r, ACCESS_READ);
    ApproveAccess(s, r, ACCESS_WRITE);
    AccessIs(files, q.filename, q.username, ACCESS_READ);
    AccessIs(files, q.filename, q.username, ACCESS_WRITE);
  }

  /** What a request asks for: reading, writing, or both. */
  predicate AsksFor(requested: int, required: int) {
    if required == ACCESS_READ then requested == ACCESS_READ || requested == ACCESS_READWRITE
    else required == ACCESS_WRITE && (requested == ACCESS_WRITE || requested == ACCESS_READWRITE)
  }

  /** An approval satisfies the request if and only if the requester owns the file, or there is a
      place in the list and the request is not for the bare write value. */
  lemma ApprovalSatisfies(s: Names, r: Request)
    requires Inv(s) && Enabled(s, r) && r.Approve? && Status(s, r) == SUCCESS
    requires s.requests[r.id].requested in {ACCESS_READ, ACCESS_WRITE, ACCESS_READWRITE}
    ensures var q := s.requests[r.id];
      (forall required | AsksFor(q.requested, required) :: CheckAccess(After(s, r), q.filename, q.username, required))
      <==> q.username == r.sender
           || (HasPlace(s.trie.files, q.filename, q.username) && q.requested != ACCESS_WRITE)
  {
    hide Inv, Enabled, CheckAccess, After, HasPlace;
    var q := s.requests[r.id];
    ApproveGives(s, r);
    assert q.requested != ACCESS_WRITE ==> AsksFor(q.requested, ACCESS_READ);
    assert q.requested != ACCESS_READ ==> AsksFor(q.requested, ACCESS_WRITE);
  }

  /** A request for read-write is filed even by a user who can read and write, because the access
      check knows no such level: it passes for the owner alone. */
  lemma ReadWriteCheckIsOwnership(files: map<string, FileMetadata>, f: string, user: string)
    ensures CheckAccess(files, f, user, ACCESS_READWRITE) <==> f in files && files[f].owner == user
  {}

  /** The requester's access after an approval. */
  lemma ApproveAccess(s: Names, r: Request, required: int)
    requires Inv(s) && Enabled(s, r) && r.Approve? && Status(s, r) == SUCCESS
    ensures var q := s.requests[r.id];
      CheckAccess(After(s, r), q.filename, q.username, required) <==>
        if HasPlace(s.trie.files, q.filename, q.username)
        then q.username == r.sender || Allows(q.requested, required)
        else CheckAccess(s.trie.files, q.filename, q.username, required)
  {
    hide Closed, Ends, ChangeAcl, Grant, AclsOk, FindEntry, RequestsOk;
    var files, q := s.trie.files, s.requests[r.id];
    OwnAcl(s, q.filename);
    ChangedAcl(s, q.filename, Grant(files[q.filename].acl, q.username, q.requested));
    GrantIs(files[q.filename].acl, q.username, q.requested, q.username);
    AccessIs(files, q.filename, q.username, required);
    AccessIs(After(s, r), q.filename, q.username, required);
  }

  /** Approving a request with the bare write value takes a reader's access away. */
  lemma ApprovedWriteLosesRead(s: Names, r: Request, required: int)
    requires Inv(s) && Enabled(s, r) && r.Approve? && Status(s, r) == SUCCESS
    requires var q := s.requests[r.id];
      && q.requested == ACCESS_WRITE && q.username != r.sender
      && CheckAccess(s.trie.files, q.filename, q.username, ACCESS_READ)
    ensures var q := s.requests[r.id]; !CheckAccess(After(s, r), q.filename, q.username, required)
  {
    var q := s.requests[r.id];
    ApproveAccess(s, r, required);
    AccessIs(s.trie.files, q.filename, q.username, ACCESS_READ);
  }

  /* ---- Rights trace back to the owner ---- */

  /** The request is a grant of `access` on `f` to `user`, by the owner of `f`. */
  ghost predicate Grants(s: Names, r: Request, f: string, user: string, access: int, owner: string) {
    && Status(s, r) == SUCCESS
    && match r
       case AddAccess(sender, filename, target, a) =>
         filename == f && target == user && a == access && sender == owner && IsOwner(s, f, owner)
       case Approve(sender, id) =>
         && ValidId(s, id) && SameRequest(s.requests[id], user, f, access) && sender == owner && IsOwner(s, f, owner)
       case _ => false
  }

  /** The request takes the right back, or the file away. */
  ghost predicate Revokes(s: Names, r: Request, f: string, user: string) {
    && Status(s, r) == SUCCESS
    && match r
       case RemAccess(_, filename, target) => filename == f && target == user
       case Delete(_, filename, _, _) => filename == f
       case _ => false
  }

  /** Request `i` granted the access, and no later one before request `n` took it back. */
  ghost predicate GrantedAt(states: seq<Names>, requests: seq<Request>, n: nat, i: nat,
                            f: string, user: string, access: int, owner: string)
    requires n <= |requests| < |states|
  {
    && i < n
    && Grants(states[i], requests[i], f, user, access, owner)
    && forall j | i < j < n :: !Revokes(states[j], requests[j], f, user)
  }

  /** An entry of an access list comes from this request's grant, or was there and is not revoked. */
  lemma StepEntry(s: Names, r: Request, f: string, user: string, access: int)
    requires Inv(s) && Enabled(s, r) && AclEntryOf(After(s, r), f, user) == Some(access)
    ensures Grants(s, r, f, user, access, OwnerOf(After(s, r), f))
      || (AclEntryOf(s.trie.files, f, user) == Some(access) && !Revokes(s, r, f, user))
  {
    hide Inv, Ends, CreateFile, DropFile, Store, ChangeAcl, Grant, Revoke, RegisterSs, FindSs, AddRequest, Entry;
    var files := s.trie.files;
    if Status(s, r) == SUCCESS {
      match r
      case Create(sender, filename, _, now) => CreateEntries(s, filename, sender, now, f, user);
      case Delete(_, filename, _, _) => DropEntries(s, filename);
      case AddAccess(_, filename, target, a) =>
        OwnAcl(s, filename);
        ChangedAcl(s, filename, Grant(files[filename].acl, target, a));
        GrantIs(files[filename].acl, target, a, user);
      case RemAccess(_, filename, target) =>
        OwnAcl(s, filename);
        ChangedAcl(s, filename, Revoke(files[filename].acl, target));
        RevokeIs(files[filename].acl, target, user);
      case Approve(_, id) =>
        var q := s.requests[id];
        OwnAcl(s, q.filename);
        ChangedAcl(s, q.filename, Grant(files[q.filename].acl, q.username, q.requested));
        GrantIs(files[q.filename].acl, q.username, q.requested, user);
      case Move(_, filename, path, _, _) => StoreEntries(s, filename, files[filename].(folderPath := path), f, user);
      case Touch(sender, filename, _, now) => TouchEntries(s, sender, filename, now, f, user);
      case Refresh(filename, stat) => StoreEntries(s, filename, WithStat(files[filename], stat), f, user);
      case RegisterServer(id, list, now) => RegisterEntries(s, id, list, now, f, user);
      case Lookup(_, filename, _) => FindFrame(s, filename);
      case Info(filename) => FindFrame(s, filename);
      case RequestAccess(sender, filename, a, now) => RequestFrame(s, sender, filename, a, now);
      case Deny(_, _) =>
      case RegisterUser(_) =>
      case ServerTimeout(_) =>
    }
  }

  function OwnerOf(files: map<string, FileMetadata>, f: string): string {
    if f in files then files[f].owner else ""
  }

  lemma EntryIsLive(s: Names, f: string, user: string)
    ensures AclEntryOf(s.trie.files, f, user).Some? ==> f in s.trie.files
  {}

  /** The owner of a file that stays in the index stays its owner. */
  lemma StepOwner(s: Names, r: Request, f: string)
    requires Inv(s) && Enabled(s, r) && f in s.trie.files && f in After(s, r)
    ensures OwnerOf(After(s, r), f) == OwnerOf(s.trie.files, f)
  {
    hide Closed, AclsOk, RequestsOk, Ends, Grant, Revoke, RegisterFiles, FindSs, AddRequest, FirstFiles, Cached.CacheOk,
      Pending;
    if Status(s, r) == SUCCESS {
      match r
      case Delete(_, filename, _, _) => DropEntries(s, filename);
      case Touch(_, filename, _, _) => TouchOwner(s, r.sender, filename, r.now, f);
      case RegisterServer(id, list, now) => RegisteredFiles(s.trie, FirstFiles(list), id, now);
      case Lookup(_, filename, _) => FindFrame(s, filename);
      case Info(filename) => FindFrame(s, filename);
      case RequestAccess(sender, filename, a, now) => RequestFrame(s, sender, filename, a, now);
      case _ =>
    }
  }

  lemma TouchOwner(s: Names, sender: string, f: string, now: int, k: string)
    requires f in s.trie.files && Ends(s, f)
    ensures OwnerOf(TouchFile(s, sender, f, now).0.trie.files, k) == OwnerOf(s.trie.files, k)
  {
    FindFrame(s, f);
    FoundEnds(s, f);
  }

  lemma CreateEntries(s: Names, f: string, owner: string, now: int, k: string, user: string)
    requires Ends(s, f) && f !in s.trie.files
    ensures AclEntryOf(CreateFile(s, f, owner, now).trie.files, k, user) == AclEntryOf(s.trie.files, k, user)
  {}

  lemma DropEntries(s: Names, f: string)
    requires Inv(s) && Ends(s, f)
    ensures DropFile(s, f).trie.files == s.trie.files - {f}
  {
    DeleteExact(s.trie, f);
  }

  lemma StoreEntries(s: Names, f: string, meta: FileMetadata, k: string, user: string)
    requires f in s.trie.files && Ends(s, f) && meta.acl == s.trie.files[f].acl
    ensures AclEntryOf(Store(s, f, meta).trie.files, k, user) == AclEntryOf(s.trie.files, k, user)
  {}

  lemma RequestFrame(s: Names, sender: string, f: string, access: int, now: int)
    ensures AddRequest(s, sender, f, access, now).trie == s.trie
  {}

  lemma TouchEntries(s: Names, sender: string, f: string, now: int, k: string, user: string)
    requires f in s.trie.files && Ends(s, f)
    ensures AclEntryOf(TouchFile(s, sender, f, now).0.trie.files, k, user) == AclEntryOf(s.trie.files, k, user)
  {
    FindFrame(s, f);
    FoundEnds(s, f);
  }

  lemma RegisterEntries(s: Names, id: int, list: seq<string>, now: int, k: string, user: string)
    requires Inv(s)
    ensures AclEntryOf(RegisterSs(s, id, list, now).trie.files, k, user) == AclEntryOf(s.trie.files, k, user)
  {
    hide Closed, Ascii, RegisterFiles, FirstFiles;
    RegisteredFiles(s.trie, FirstFiles(list), id, now);
  }

  lemma {:induction false} EntryTraced(states: seq<Names>, requests: seq<Request>, n: nat, f: string, user: string, access: int)
    requires IsRun(states, requests) && n <= |requests|
    requires AclEntryOf(states[n].trie.files, f, user) == Some(access)
    ensures exists i :: GrantedAt(states, requests, n, i, f, user, access, OwnerOf(states[n].trie.files, f))
  {
    hide Inv, Enabled, Step, AclEntryOf, Grants, Revokes, OwnerOf;
    var owner := OwnerOf(states[n].trie.files, f);
    if n == 0 {
      NoEntryAtStart(states[0], f, user);
    } else {
      var s, r := states[n - 1], requests[n - 1];
      RunInv(states, requests, n - 1);
      StepEntry(s, r, f, user, access);
      if Grants(s, r, f, user, access, owner) {
        assert GrantedAt(states, requests, n, n - 1, f, user, access, owner);
      } else {
        EntryIsLive(s, f, user);
        EntryIsLive(states[n], f, user);
        StepOwner(s, r, f);
        EntryTraced(states, requests, n - 1, f, user, access);
        var i :| GrantedAt(states, requests, n - 1, i, f, user, access, owner);
        assert GrantedAt(states, requests, n, i, f, user, access, owner);
      }
    }
  }

  lemma NoEntryAtStart(s: Names, f: string, user: string)
    requires Initial(s)
    ensures AclEntryOf(s.trie.files, f, user) == None
  {}

  /** In every reachable state, whoever has access to a file without owning it got it from its owner,
      by an ADDACCESS or an approved request that allows it, which no REMACCESS or deletion followed. */
  lemma RightsTraceToOwner(states: seq<Names>, requests: seq<Request>, n: nat, f: string, user: string, required: int)
    requires IsRun(states, requests) && n <= |requests|
    requires CheckAccess(states[n].trie.files, f, user, required) && states[n].trie.files[f].owner != user
    ensures exists i, access ::
      Allows(access, required) && GrantedAt(states, requests, n, i, f, user, access, states[n].trie.files[f].owner)
  {
    AccessIs(states[n].trie.files, f, user, required);
    var access := Entry(states[n].trie.files[f].acl, user).value;
    EntryTraced(states, requests, n, f, user, access);
    var i :| GrantedAt(states, requests, n, i, f, user, access, states[n].trie.files[f].owner);
    assert Allows(access, required) && GrantedAt(states, requests, n, i, f, user, access, states[n].trie.files[f].owner);
  }
}
