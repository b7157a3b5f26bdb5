/** The name server (`nm.c`) as it is written: one trie, one cache, and the arrays of access requests,
    users and storage servers, changed in place.  Every handler is proved to be its step of
    NameSteps.dfy. */
module NameServers {
  import opened Wrappers
  import opened Metadata
  import opened TrieModel
  import opened NameSteps
  import opened Tries
  import opened LruCaches
  import Cached = CacheModel
  import Rules = NameRules

  class NameServer {
    const trie: Trie
    const cache: LruCache<FileMetadata>
    const accessRequests: array<AccessRequest>
    var requestCount: nat
    var users: seq<string>
    var servers: seq<Server>
    var nextSs: nat

    ghost function Frame(): set<object>
      reads trie, cache
    {
      {this, accessRequests, trie} + trie.Repr + cache.Repr
    }

    ghost predicate Valid()
      reads this, trie, trie.Repr, cache, cache.Repr
    {
      && trie.Valid() && cache.Valid()
      && {this, accessRequests, trie} + trie.Repr !! cache.Repr
      && requestCount <= accessRequests.Length == MAX_REQUESTS
    }

    ghost function View(): Names
      requires Valid()
      reads this, accessRequests, trie, trie.Repr, cache, cache.Repr
    {
      Names(trie.View(), cache.View(), cache.hash, accessRequests[..requestCount], users, servers, nextSs)
    }

    /** `init_name_server` */
    constructor (hash: string -> nat)
      ensures Valid() && fresh(Frame()) && View().hash == hash && Rules.Initial(View())
    {
      hide Trie.Valid, LruCache.Valid, Closed, Cached.CacheOk;
      var t := new Trie();
      var c := new LruCache<FileMetadata>(Rules.INITIAL_CAPACITY, hash);
      var a := new AccessRequest[MAX_REQUESTS](_ => AccessRequest("", "", 0, 0));
      trie, cache, accessRequests := t, c, a;
      requestCount, users, servers, nextSs := 0, [], [], 0;
    }

    lemma ViewInv(key: string)
      requires Valid()
      ensures Closed(View().trie) && Cached.CacheOk(View().cache) && View().cache.slots != []
      ensures HomeOf(View(), key) == cache.HomeOf(key)
      ensures Ends(View(), key) <==> Cached.CanProbe(cache.View(), key)
    {
      cache.ViewOk();
      Cached.ProbeEnds(cache.View(), key, cache.HomeOf(key));
    }

    lemma ViewFields()
      requires Valid()
      ensures View().servers == servers && View().users == users && View().nextSs == nextSs
      ensures requestCount <= accessRequests.Length && View().requests == accessRequests[..requestCount]
    {}

    /** `trie_search` in the file trie. */
    method SearchFile(filename: string) returns (meta: Option<FileMetadata>)
      requires Valid()
      ensures meta == if filename in View().trie.files then Some(View().trie.files[filename]) else None
    {
      hide Closed;
      meta := trie.Search(filename);
    }

    /** `find_ss_for_file` */
    method FindSsForFile(filename: string) returns (ssId: int)
      requires Valid() && Ends(View(), filename)
      modifies cache.Repr
      ensures Valid() && trie.Repr == old(trie.Repr) && fresh(cache.Repr - old(cache.Repr))
      ensures (View(), ssId) == FindSs(old(View()), filename)
    {
      hide Closed, Cached.CacheOk, Cached.Probe, Cached.CanProbe, Cached.Get, Cached.Put;
      ViewInv(filename);
      var meta := cache.Get(filename);
      if meta == None {
        var found := trie.Search(filename);
        if found == None {
          return -1;
        }
        GetMiss(old(View()), filename);
        ViewInv(filename);
        cache.Put(filename, found.value);
        return found.value.ssId;
      }
      ssId := meta.value.ssId;
    }

    /** `trie_update`, then `cache_put`. */
    method StoreMeta(filename: string, meta: FileMetadata)
      requires Valid() && Ends(View(), filename)
      modifies trie, trie.Repr, cache.Repr
      ensures Valid() && trie.Repr == old(trie.Repr) && fresh(cache.Repr - old(cache.Repr))
      ensures View() == Store(old(View()), filename, meta)
    {
      hide Closed, Cached.CacheOk, Cached.Probe, Cached.CanProbe, Cached.Put;
      ViewInv(filename);
      var _ := trie.Update(filename, meta);
      cache.Put(filename, meta);
    }

    /** `trie_insert`, then `cache_put`. */
    method CreateMeta(filename: string, meta: FileMetadata)
      requires Valid() && Ends(View(), filename)
      modifies trie, trie.Repr, cache.Repr
      ensures Valid() && fresh(trie.Repr - old(trie.Repr)) && fresh(cache.Repr - old(cache.Repr))
      ensures View() == old(View()).(trie := Insert(old(View()).trie, filename, meta),
                                     cache := Cached.Put(old(View()).cache, filename, HomeOf(old(View()), filename), meta))
    {
      hide LruCache.Valid, LruCache.View, LruCache.HomeOf, Trie.View, Closed, Cached.CacheOk, Cached.Probe, Cached.CanProbe,
        Cached.Put, Insert, Ends;
      ViewInv(filename);
      var _ := trie.Insert(filename, meta);
      cache.Put(filename, meta);
    }

    /** `trie_delete`, then `cache_remove`. */
    method DropMeta(filename: string)
      requires Valid() && Ends(View(), filename)
      modifies trie, trie.Repr, cache.Repr
      ensures Valid() && trie.Repr == old(trie.Repr) && fresh(cache.Repr - old(cache.Repr))
      ensures View() == DropFile(old(View()), filename)
    {
      hide Closed, Cached.CacheOk, Cached.Probe, Cached.CanProbe, Cached.Remove, TrieModel.Delete;
      ViewInv(filename);
      trie.Delete(filename);
      cache.Remove(filename);
    }

    /** `check_access` */
    method MayAccess(filename: string, username: string, required: int) returns (ok: bool)
      requires Valid()
      ensures ok == CheckAccess(View().trie.files, filename, username, required)
    {
      ViewFields();
      hide Valid, View, Closed;
      var meta := SearchFile(filename);
      if meta == None {
        return false;
      }
      if meta.value.owner == username {
        return true;
      }
      var acl := meta.value.acl;
      var i := FindInAcl(acl, username);
      ok := i < |acl| && Allows(acl[i].access, required);
    }

    /** `user_exists` */
    method UserExists(username: string) returns (found: bool)
      ensures found == (username in users)
    {
      for i := 0 to |users|
        invariant username !in users[..i]
      {
        if users[i] == username {
          return true;
        }
      }
      found := false;
      assert users[..|users|] == users;
    }

    method FindServerIndex(id: int) returns (i: nat)
      ensures i == FindServer(servers, id)
    {
      i := 0;
      while i < |servers| && servers[i].id != id
        invariant i <= |servers| && forall j | 0 <= j < i :: servers[j].id != id
      {
        i := i + 1;
      }
    }

    /** `handle_create` */
    method HandleCreate(sender: string, filename: string, reply: int, now: int) returns (status: int)
      requires Valid() && Enabled(View(), Create(sender, filename, reply, now))
      modifies this`nextSs, trie, trie.Repr, cache.Repr
      ensures Valid() && fresh(trie.Repr - old(trie.Repr)) && fresh(cache.Repr - old(cache.Repr))
      ensures (View(), status) == Step(old(View()), Create(sender, filename, reply, now))
    {
      ViewFields();
      CreateStep(View(), sender, filename, reply, now);
      hide Valid, View, Ends, NextId, TakeTurn, CreateFile, Step, Status, Accept, Enabled;
      var existing := SearchFile(filename);
      if existing.Some? {
        return ERR_FILE_EXISTS;
      }
      status := CreateOnServer(sender, filename, reply, now);
    }

    /** The part of a creation after the existence check. */
    method CreateOnServer(sender: string, filename: string, reply: int, now: int) returns (status: int)
      requires Valid() && (NextId(View()) >= 0 && reply == SUCCESS ==> Ends(View(), filename))
      modifies this`nextSs, trie, trie.Repr, cache.Repr
      ensures Valid() && fresh(trie.Repr - old(trie.Repr)) && fresh(cache.Repr - old(cache.Repr))
      ensures (View(), status) ==
        if NextId(old(View())) < 0 then (TakeTurn(old(View())), ERR_SS_UNAVAILABLE)
        else if reply != SUCCESS then (TakeTurn(old(View())), reply)
        else (CreateFile(old(View()), filename, sender, now), SUCCESS)
    {
      ViewInv(filename);
      TurnKeeps(View(), filename);
      hide Valid, View, Ends, HomeOf, NextId, TakeTurn, Cached.Put, Insert;
      var ssId := NextSs();
      if ssId < 0 {
        return ERR_SS_UNAVAILABLE;
      }
      if reply == SUCCESS {
        CreateMeta(filename, NewFile(filename, sender, ssId, now, sender));
      }
      status := reply;
    }

    /** `get_next_ss_round_robin` */
    method NextSs() returns (id: int)
      requires Valid()
      modifies this`nextSs
      ensures Valid() && servers == old(servers)
      ensures id == NextId(old(View())) && View() == TakeTurn(old(View()))
    {
      hide Trie.Valid, LruCache.Valid, Closed, Cached.CacheOk;
      if |servers| == 0 {
        return -1;
      }
      id := servers[nextSs % |servers|].id;
      nextSs := nextSs + 1;
    }

    /** `handle_delete` */
    method HandleDelete(sender: string, filename: string, lockReply: int, reply: int) returns (status: int)
      requires Valid() && Enabled(View(), NameSteps.Delete(sender, filename, lockReply, reply))
      modifies trie, trie.Repr, cache.Repr
      ensures Valid() && trie.Repr == old(trie.Repr) && fresh(cache.Repr - old(cache.Repr))
      ensures (View(), status) == Step(old(View()), NameSteps.Delete(sender, filename, lockReply, reply))
    {
      ViewFields();
      hide Valid, View, Closed, Cached.CacheOk, Ends, DropFile;
      var meta := SearchFile(filename);
      if meta == None {
        return ERR_FILE_NOT_FOUND;
      }
      if meta.value.owner != sender {
        return ERR_NOT_OWNER;
      }
      var i := FindServerIndex(meta.value.ssId);
      if i == |servers| {
        return ERR_SS_UNAVAILABLE;
      }
      if lockReply == ERR_FILE_LOCKED {
        return ERR_FILE_LOCKED;
      }
      if reply == SUCCESS {
        DropMeta(filename);
      }
      status := reply;
    }

    /** The grant that ADDACCESS and an approval share. */
    method GrantOn(filename: string, meta: FileMetadata, user: string, access: int)
      requires Valid() && filename in View().trie.files && View().trie.files[filename] == meta && Ends(View(), filename)
      modifies trie, trie.Repr, cache.Repr
      ensures Valid() && trie.Repr == old(trie.Repr) && fresh(cache.Repr - old(cache.Repr))
      ensures View() == ChangeAcl(old(View()), filename, Grant(meta.acl, user, access))
    {
      hide Valid, View, Closed, Cached.CacheOk, Ends, Store, Grant;
      var acl := GrantInAcl(meta.acl, user, access);
      StoreMeta(filename, meta.(acl := acl));
    }

    /** `handle_access`, granting */
    method HandleAddAccess(sender: string, filename: string, target: string, access: int) returns (status: int)
      requires Valid() && Enabled(View(), AddAccess(sender, filename, target, access))
      modifies trie, trie.Repr, cache.Repr
      ensures Valid() && trie.Repr == old(trie.Repr) && fresh(cache.Repr - old(cache.Repr))
      ensures (View(), status) == Step(old(View()), AddAccess(sender, filename, target, access))
    {
      ViewFields();
      hide Valid, View, Closed, Cached.CacheOk, Ends, Store, Grant;
      var meta := SearchFile(filename);
      if meta == None {
        return ERR_FILE_NOT_FOUND;
      }
      if meta.value.owner != sender {
        return ERR_NOT_OWNER;
      }
      var known := UserExists(target);
      if !known {
        return ERR_USER_NOT_FOUND;
      }
      if target == sender {
        return ERR_INVALID_OPERATION;
      }
      GrantOn(filename, meta.value, target, access);
      status := SUCCESS;
    }

    /** `handle_access`, revoking */
    method HandleRemAccess(sender: string, filename: string, target: string) returns (status: int)
      requires Valid() && Enabled(View(), RemAccess(sender, filename, target))
      modifies trie, trie.Repr, cache.Repr
      ensures Valid() && trie.Repr == old(trie.Repr) && fresh(cache.Repr - old(cache.Repr))
      ensures (View(), status) == Step(old(View()), RemAccess(sender, filename, target))
    {
      RemAccessStep(View(), sender, filename, target);
      hide Valid, View, Ends, ChangeAcl, Revoke, Step, Status, Accept, Enabled;
      var meta := SearchFile(filename);
      if meta == None {
        return ERR_FILE_NOT_FOUND;
      }
      if meta.value.owner != sender {
        return ERR_NOT_OWNER;
      }
      RevokeOn(filename, meta.value, target);
      status := SUCCESS;
    }

    method RevokeOn(filename: string, meta: FileMetadata, user: string)
      requires Valid() && filename in View().trie.files && View().trie.files[filename] == meta && Ends(View(), filename)
      modifies trie, trie.Repr, cache.Repr
      ensures Valid() && trie.Repr == old(trie.Repr) && fresh(cache.Repr - old(cache.Repr))
      ensures View() == ChangeAcl(old(View()), filename, Revoke(meta.acl, user))
    {
      hide Valid, View, Closed, Cached.CacheOk, Ends, Store, Revoke;
      var acl := RevokeInAcl(meta.acl, user);
      StoreMeta(filename, meta.(acl := acl));
    }

    method RemoveRequest(id: nat)
      requires Valid() && id < requestCount
      modifies this`requestCount, accessRequests
      ensures Valid() && View() == old(View()).(requests := Cut(old(View()).requests, id))
    {
      hide Trie.Valid, LruCache.Valid, Closed, Cached.CacheOk, Cut;
      CloseGap(accessRequests, requestCount, id);
      requestCount := requestCount - 1;
    }

    /** The search for a request that is pending already. */
    method IsPending(sender: string, filename: string, access: int) returns (found: bool)
      requires Valid()
      ensures found == Pending(View(), sender, filename, access)
    {
      hide Trie.Valid, LruCache.Valid, Closed, Cached.CacheOk;
      assert forall i | 0 <= i < requestCount :: View().requests[i] == accessRequests[i];
      for i := 0 to requestCount
        invariant forall j | 0 <= j < i :: !SameRequest(accessRequests[j], sender, filename, access)
      {
        var q := accessRequests[i];
        if q.username == sender && q.filename == filename && q.requested == access {
          assert SameRequest(View().requests[i], sender, filename, access);
          return true;
        }
      }
      found := false;
    }

    /** `handle_requestaccess` */
    method HandleRequestAccess(sender: string, filename: string, access: int, now: int) returns (status: int)
      requires Valid()
      modifies this`requestCount, accessRequests
      ensures Valid() && (View(), status) == Step(old(View()), RequestAccess(sender, filename, access, now))
    {
      ViewFields();
      hide Valid, View, Closed, Cached.CacheOk, Pending, CheckAccess;
      var meta := SearchFile(filename);
      if meta == None {
        return ERR_FILE_NOT_FOUND;
      }
      var has := MayAccess(filename, sender, access);
      if has {
        return SUCCESS;
      }
      var pending := IsPending(sender, filename, access);
      if pending {
        return SUCCESS;
      }
      if requestCount < MAX_REQUESTS {
        AppendRequest(AccessRequest(sender, filename, access, now));
        status := SUCCESS;
      } else {
        status := ERR_SERVER_ERROR;
      }
    }

    method AppendRequest(q: AccessRequest)
      requires Valid() && requestCount < MAX_REQUESTS
      modifies this`requestCount, accessRequests
      ensures Valid() && View() == old(View()).(requests := old(View()).requests + [q])
    {
      hide Trie.Valid, LruCache.Valid, Closed, Cached.CacheOk;
      accessRequests[requestCount] := q;
      requestCount := requestCount + 1;
      assert accessRequests[..requestCount] == old(accessRequests[..requestCount]) + [q];
    }

    /** `handle_approverequest` */
    method HandleApprove(sender: string, id: int) returns (status: int)
      requires Valid() && Enabled(View(), Approve(sender, id))
      modifies this`requestCount, accessRequests, trie, trie.Repr, cache.Repr
      ensures Valid() && trie.Repr == old(trie.Repr) && fresh(cache.Repr - old(cache.Repr))
      ensures (View(), status) == Step(old(View()), Approve(sender, id))
    {
      ViewFields();
      ApproveStep(View(), sender, id);
      hide Valid, View, Ends, Grant, Cut, Step, Status, Accept, Enabled, ChangeAcl;
      if id < 0 || id >= requestCount {
        return ERR_INVALID_INDEX;
      }
      var q := accessRequests[id];
      assert View().requests[id] == q;
      var meta := SearchFile(q.filename);
      if meta == None || meta.value.owner != sender {
        return ERR_NOT_OWNER;
      }
      ApproveAt(id, q, meta.value);
      status := SUCCESS;
    }

    /** The effect of an approval. */
    method ApproveAt(id: nat, q: AccessRequest, meta: FileMetadata)
      requires Valid() && id < |View().requests| && View().requests[id] == q
      requires q.filename in View().trie.files && View().trie.files[q.filename] == meta && Ends(View(), q.filename)
      modifies this`requestCount, accessRequests, trie, trie.Repr, cache.Repr
      ensures Valid() && trie.Repr == old(trie.Repr) && fresh(cache.Repr - old(cache.Repr))
      ensures View() == ApproveRequest(old(View()), id)
    {
      ViewFields();
      StoreFrame(View(), q.filename, Grant(meta.acl, q.username, q.requested));
      hide Valid, View, Ends, Grant, Cut, ChangeAcl;
      GrantOn(q.filename, meta, q.username, q.requested);
      RemoveRequest(id);
    }

    /** `handle_denyrequest` */
    method HandleDeny(sender: string, id: int) returns (status: int)
      requires Valid()
      modifies this`requestCount, accessRequests
      ensures Valid() && (View(), status) == Step(old(View()), Deny(sender, id))
    {
      ViewFields();
      hide Valid, View, Closed, Cached.CacheOk, Cut;
      if id < 0 || id >= requestCount {
        return ERR_INVALID_INDEX;
      }
      var q := accessRequests[id];
      assert View().requests[id] == q;
      var meta := SearchFile(q.filename);
      if meta == None || meta.value.owner != sender {
        return ERR_NOT_OWNER;
      }
      RemoveRequest(id);
      status := SUCCESS;
    }

    method IsServerActive(id: int) returns (active: bool)
      ensures active == ServerActive(servers, id)
    {
      for i := 0 to |servers|
        invariant forall j | 0 <= j < i :: servers[j] != Server(id, true)
      {
        if servers[i].id == id && servers[i].active {
          assert servers[i] == Server(id, true);
          return true;
        }
      }
      active := false;
    }

    /** `handle_move` */
    method HandleMove(sender: string, filename: string, path: string, folderExists: bool, reply: int)
      returns (status: int)
      requires Valid() && Enabled(View(), Move(sender, filename, path, folderExists, reply))
      modifies trie, trie.Repr, cache.Repr
      ensures Valid() && trie.Repr == old(trie.Repr) && fresh(cache.Repr - old(cache.Repr))
      ensures (View(), status) == Step(old(View()), Move(sender, filename, path, folderExists, reply))
    {
      ViewFields();
      MoveStep(View(), sender, filename, path, folderExists, reply);
      hide Valid, View, Ends, Store, Step, Status, Accept, Enabled;
      var meta;
      status, meta := MoveStatus(sender, filename, path, folderExists, reply);
      if status == SUCCESS {
        MoveEnds(View(), sender, filename, path, folderExists);
        StoreMeta(filename, meta.(folderPath := path));
      }
    }

    /** The checks before a move. */
    method MoveStatus(sender: string, filename: string, path: string, folderExists: bool, reply: int)
      returns (status: int, meta: FileMetadata)
      requires Valid()
      ensures status == Status(View(), Move(sender, filename, path, folderExists, reply))
      ensures status == SUCCESS ==> filename in View().trie.files && View().trie.files[filename] == meta
    {
      ViewFields();
      hide Valid, View, ServerActive, CheckAccess;
      var found := SearchFile(filename);
      if found == None {
        return ERR_FILE_NOT_FOUND, NewFile("", "", 0, 0, "");
      }
      meta := found.value;
      var allowed := meta.owner == sender;
      if allowed {
        OwnerMay(View(), filename, sender, ACCESS_WRITE);
      } else {
        allowed := MayAccess(filename, sender, ACCESS_WRITE);
      }
      if !allowed {
        return ERR_ACCESS_DENIED, meta;
      }
      if |path| > 0 && path != "/" && !folderExists {
        return ERR_FILE_NOT_FOUND, meta;
      }
      var active := IsServerActive(meta.ssId);
      status := if active then reply else ERR_SS_UNAVAILABLE;
    }

    /** The READ, WRITE, STREAM and UNDO requests. */
    method HandleTouch(sender: string, filename: string, required: int, now: int) returns (status: int)
      requires Valid() && Enabled(View(), Touch(sender, filename, required, now))
      modifies trie, trie.Repr, cache.Repr
      ensures Valid() && trie.Repr == old(trie.Repr) && fresh(cache.Repr - old(cache.Repr))
      ensures (View(), status) == Step(old(View()), Touch(sender, filename, required, now))
    {
      ViewFields();
      TouchStep(View(), sender, filename, required, now);
      hide Valid, View, Ends, Step, Status, Accept, Enabled, CheckAccess, TouchFile;
      var allowed := MayAccess(filename, sender, required);
      if !allowed {
        return ERR_ACCESS_DENIED;
      }
      status := FindAndTouch(sender, filename, now);
    }

    /** The part of a touch after the access check. */
    method FindAndTouch(sender: string, filename: string, now: int) returns (status: int)
      requires Valid() && filename in View().trie.files && Ends(View(), filename)
      modifies trie, trie.Repr, cache.Repr
      ensures Valid() && trie.Repr == old(trie.Repr) && fresh(cache.Repr - old(cache.Repr))
      ensures (View(), status) == TouchFile(old(View()), sender, filename, now)
    {
      TouchCases(View(), sender, filename, now);
      hide Valid, View, Ends, Store, FindSs, TouchFile;
      var ssId := FindSsForFile(filename);
      if ssId < 0 {
        return ERR_FILE_NOT_FOUND;
      }
      NoteAccess(sender, filename, now);
      status := SUCCESS;
    }

    /** The update of the access time. */
    method NoteAccess(sender: string, filename: string, now: int)
      requires Valid() && filename in View().trie.files && Ends(View(), filename)
      modifies trie, trie.Repr, cache.Repr
      ensures Valid() && trie.Repr == old(trie.Repr) && fresh(cache.Repr - old(cache.Repr))
      ensures var meta := old(View()).trie.files[filename];
        View() == Store(old(View()), filename, meta.(accessed := now, lastAccessedBy := sender))
    {
      hide Valid, View, Ends, Store;
      var meta := SearchFile(filename);
      if meta.Some? {
        StoreMeta(filename, meta.value.(accessed := now, lastAccessedBy := sender));
      }
    }

    /** The lookups of `handle_exec` and `handle_checkpoint_request`. */
    method HandleLookup(sender: string, filename: string, required: int) returns (status: int)
      requires Valid() && Enabled(View(), Lookup(sender, filename, required))
      modifies cache.Repr
      ensures Valid() && fresh(cache.Repr - old(cache.Repr))
      ensures (View(), status) == Step(old(View()), Lookup(sender, filename, required))
    {
      LookupStep(View(), sender, filename, required);
      hide Valid, View, Ends, Step, Status, Accept, Enabled, CheckAccess, FindSs;
      var allowed := MayAccess(filename, sender, required);
      if !allowed {
        return ERR_ACCESS_DENIED;
      }
      var ssId := FindSsForFile(filename);
      status := if ssId < 0 then ERR_FILE_NOT_FOUND else SUCCESS;
    }

    /** The lookup of `handle_info`, which anybody may ask for. */
    method HandleInfo(filename: string) returns (status: int)
      requires Valid() && Enabled(View(), Info(filename))
      modifies cache.Repr
      ensures Valid() && fresh(cache.Repr - old(cache.Repr))
      ensures (View(), status) == Step(old(View()), Info(filename))
    {
      hide Valid, View, Ends, FindSs;
      var meta := SearchFile(filename);
      if meta == None {
        return ERR_FILE_NOT_FOUND;
      }
      var _ := FindSsForFile(filename);
      status := SUCCESS;
    }

    /** One file of `handle_view` with details: the storage server's report goes to index and cache. */
    method RefreshFile(filename: string, stat: Stat) returns (status: int)
      requires Valid() && Enabled(View(), Refresh(filename, stat))
      modifies trie, trie.Repr, cache.Repr
      ensures Valid() && trie.Repr == old(trie.Repr) && fresh(cache.Repr - old(cache.Repr))
      ensures (View(), status) == Step(old(View()), Refresh(filename, stat))
    {
      hide Valid, View, Ends, Store;
      var meta := SearchFile(filename);
      if meta == None {
        return ERR_FILE_NOT_FOUND;
      }
      StoreMeta(filename, WithStat(meta.value, stat));
      status := SUCCESS;
    }

    /** The part of `register_user_persistent` that later access grants depend on. */
    method HandleUser(user: string)
      requires Valid()
      modifies this`users
      ensures Valid() && View() == Step(old(View()), RegisterUser(user)).0
    {
      hide Trie.Valid, LruCache.Valid, Closed, Cached.CacheOk;
      var known := UserExists(user);
      if !known && |users| < MAX_USERS {
        users := users + [user];
      }
    }

    /** The file list in `handle_ss_connection`. */
    method RegisterList(files: seq<string>, id: int, now: int)
      requires Valid()
      modifies trie, trie.Repr
      ensures Valid() && fresh(trie.Repr - old(trie.Repr))
      ensures View() == old(View()).(trie := RegisterFiles(old(View()).trie, FirstFiles(files), id, now))
    {
      hide Closed, Cached.CacheOk, RegisterFile;
      ghost var first := FirstFiles(files);
      var i := 0;
      while i < |files| && i < MAX_FILES
        invariant i <= |first|
        invariant Valid() && fresh(trie.Repr - old(trie.Repr))
        invariant View() == old(View()).(trie := View().trie)
        invariant RegisterFiles(View().trie, first[i..], id, now) == RegisterFiles(old(View()).trie, first, id, now)
      {
        RegisterOne(files[i], id, now);
        assert first[i] == files[i] && first[i..][1..] == first[i + 1..];
        i := i + 1;
      }
    }

    method RegisterOne(filename: string, id: int, now: int)
      requires Valid()
      modifies trie, trie.Repr
      ensures Valid() && fresh(trie.Repr - old(trie.Repr))
      ensures View() == old(View()).(trie := RegisterFile(old(View()).trie, filename, id, now))
    {
      hide Trie.Valid, LruCache.Valid, Closed, Cached.CacheOk, Insert;
      var existing := SearchFile(filename);
      if existing.Some? {
        var _ := trie.Update(filename, existing.value.(ssId := id));
      } else {
        var _ := trie.Insert(filename, NewFile(filename, "system", id, now, ""));
      }
    }

    /** `handle_ss_connection` */
    method HandleRegistration(id: int, files: seq<string>, now: int)
      requires Valid()
      modifies this`servers, trie, trie.Repr
      ensures Valid() && fresh(trie.Repr - old(trie.Repr))
      ensures View() == Step(old(View()), RegisterServer(id, files, now)).0
    {
      RegisterStep(View(), id, files, now);
      hide Valid, View, Step, Status, Accept, Enabled, RegisterFiles, FirstFiles;
      var known := ActivateServer(id);
      if known {
        RegisterList(files, id, now);
      }
    }

    /** The server's slot is reused, or a new one taken if there is room. */
    method ActivateServer(id: int) returns (ok: bool)
      requires Valid()
      modifies this`servers
      ensures Valid() && ok == !Rules.ServersFull(old(View()), id)
      ensures View() == if !ok then old(View()) else
        old(View()).(servers :=
          var i := FindServer(old(servers), id);
          if i < |old(servers)| then old(servers)[i := Server(id, true)] else old(servers) + [Server(id, true)])
    {
      hide Trie.Valid, LruCache.Valid, Closed, Cached.CacheOk;
      var i := FindServerIndex(id);
      if i < |servers| {
        servers := servers[i := Server(id, true)];
      } else if |servers| >= MAX_SS {
        return false;
      } else {
        servers := servers + [Server(id, true)];
      }
      ok := true;
    }
  }

  /** The shift loop that closes the gap of a handled request. */
  method CloseGap(a: array<AccessRequest>, count: nat, id: nat)
    requires id < count <= a.Length
    modifies a
    ensures a[..count - 1] == Cut(old(a[..count]), id)
  {
    for i := id to count - 1
      invariant forall j | 0 <= j < a.Length :: a[j] == old(a[if id <= j < i then j + 1 else j])
    {
      a[i] := a[i + 1];
    }
  }

  method FindInAcl(acl: seq<AclEntry>, user: string) returns (i: nat)
    ensures i == FindEntry(acl, user)
  {
    i := 0;
    while i < |acl| && acl[i].username != user
      invariant i <= |acl| && forall j | 0 <= j < i :: acl[j].username != user
    {
      i := i + 1;
    }
  }

  method GrantInAcl(acl: seq<AclEntry>, user: string, access: int) returns (acl': seq<AclEntry>)
    ensures acl' == Grant(acl, user, access)
  {
    var i := FindInAcl(acl, user);
    acl' := acl;
    if i < |acl| {
      acl' := acl[i := AclEntry(user, access)];
    } else if |acl| < MAX_ACL_ENTRIES {
      acl' := acl + [AclEntry(user, access)];
    }
  }

  method RevokeInAcl(acl: seq<AclEntry>, user: string) returns (acl': seq<AclEntry>)
    ensures acl' == Revoke(acl, user)
  {
    var i := FindInAcl(acl, user);
    acl' := acl;
    if i < |acl| {
      for j := i to |acl| - 1
        invariant |acl'| == |acl|
        invariant forall k | 0 <= k < |acl| :: acl'[k] == acl[if i <= k < j then k + 1 else k]
      {
        acl' := acl'[j := acl'[j + 1]];
      }
      acl' := acl'[..|acl| - 1];
    }
  }

  lemma StoreFrame(s: Names, f: string, acl: seq<AclEntry>)
    requires f in s.trie.files && Ends(s, f)
    ensures ChangeAcl(s, f, acl).requests == s.requests
  {}

  lemma TurnKeeps(s: Names, f: string)
    requires s.cache.slots != []
    ensures var s' := TakeTurn(s);
      && s'.cache == s.cache && s'.trie == s.trie
      && HomeOf(s', f) == HomeOf(s, f) && (Ends(s', f) <==> Ends(s, f))
  {}

  lemma RegisterStep(s: Names, id: int, files: seq<string>, now: int)
    ensures Step(s, RegisterServer(id, files, now)).0 == RegisterSs(s, id, files, now)
  {}

  /** The cases of an approval. */
  lemma ApproveStep(s: Names, sender: string, id: int)
    requires Enabled(s, Approve(sender, id))
    ensures Step(s, Approve(sender, id)) ==
      if !ValidId(s, id) then (s, ERR_INVALID_INDEX)
      else if !IsOwner(s, s.requests[id].filename, sender) then (s, ERR_NOT_OWNER)
      else (ApproveRequest(s, id), SUCCESS)
    ensures ValidId(s, id) && IsOwner(s, s.requests[id].filename, sender) ==> Ends(s, s.requests[id].filename)
  {}

  lemma RemAccessStep(s: Names, sender: string, f: string, target: string)
    requires Enabled(s, RemAccess(sender, f, target))
    ensures IsOwner(s, f, sender) ==> Ends(s, f)
    ensures Step(s, RemAccess(sender, f, target)) ==
      if f !in s.trie.files then (s, ERR_FILE_NOT_FOUND)
      else if !IsOwner(s, f, sender) then (s, ERR_NOT_OWNER)
      else (ChangeAcl(s, f, Revoke(s.trie.files[f].acl, target)), SUCCESS)
  {}

  lemma CreateStep(s: Names, sender: string, f: string, reply: int, now: int)
    requires Enabled(s, Create(sender, f, reply, now))
    ensures f !in s.trie.files && NextId(s) >= 0 && reply == SUCCESS ==> Ends(s, f)
    ensures Step(s, Create(sender, f, reply, now)) ==
      if f in s.trie.files then (s, ERR_FILE_EXISTS)
      else if NextId(s) < 0 then (TakeTurn(s), ERR_SS_UNAVAILABLE)
      else if reply != SUCCESS then (TakeTurn(s), reply)
      else (CreateFile(s, f, sender, now), SUCCESS)
  {}

  lemma LookupStep(s: Names, sender: string, f: string, required: int)
    requires Enabled(s, Lookup(sender, f, required))
    ensures CheckAccess(s.trie.files, f, sender, required) ==> Ends(s, f)
    ensures Step(s, Lookup(sender, f, required)) ==
      if !CheckAccess(s.trie.files, f, sender, required) then (s, ERR_ACCESS_DENIED) else LookupFile(s, f)
  {}

  lemma TouchCases(s: Names, sender: string, f: string, now: int)
    requires f in s.trie.files && Ends(s, f)
    ensures var (s', ssId) := FindSs(s, f);
      && Ends(s', f) && s'.trie == s.trie
      && TouchFile(s, sender, f, now) ==
        if ssId < 0 then (s', ERR_FILE_NOT_FOUND)
        else (Store(s', f, s.trie.files[f].(accessed := now, lastAccessedBy := sender)), SUCCESS)
  {
    FoundEnds(s, f);
    FindFrame(s, f);
  }

  lemma OwnerMay(s: Names, f: string, user: string, required: int)
    requires IsOwner(s, f, user)
    ensures CheckAccess(s.trie.files, f, user, required)
  {}

  /** The cases of a move. */
  lemma MoveStep(s: Names, sender: string, f: string, path: string, folderExists: bool, reply: int)
    requires Enabled(s, Move(sender, f, path, folderExists, reply))
    ensures var files := s.trie.files;
      Step(s, Move(sender, f, path, folderExists, reply)) ==
        if f !in files then (s, ERR_FILE_NOT_FOUND)
        else if !CheckAccess(files, f, sender, ACCESS_WRITE) then (s, ERR_ACCESS_DENIED)
        else if |path| > 0 && path != "/" && !folderExists then (s, ERR_FILE_NOT_FOUND)
        else if !ServerActive(s.servers, files[f].ssId) then (s, ERR_SS_UNAVAILABLE)
        else if reply != SUCCESS then (s, reply)
        else (Store(s, f, files[f].(folderPath := path)), SUCCESS)
  {}

  lemma MoveEnds(s: Names, sender: string, f: string, path: string, folderExists: bool)
    requires Enabled(s, Move(sender, f, path, folderExists, SUCCESS))
    requires f in s.trie.files && CheckAccess(s.trie.files, f, sender, ACCESS_WRITE)
    requires ServerActive(s.servers, s.trie.files[f].ssId) && (|path| == 0 || path == "/" || folderExists)
    ensures Ends(s, f)
  {}

  lemma TouchStep(s: Names, sender: string, f: string, required: int, now: int)
    requires Enabled(s, Touch(sender, f, required, now))
    ensures CheckAccess(s.trie.files, f, sender, required) ==> f in s.trie.files && Ends(s, f)
    ensures Step(s, Touch(sender, f, required, now)) ==
      if !CheckAccess(s.trie.files, f, sender, required) then (s, ERR_ACCESS_DENIED) else TouchFile(s, sender, f, now)
  {}

  lemma GetMiss(s: Names, key: string)
    requires Ends(s, key) && Cached.Get(s.cache, key, HomeOf(s, key)).1.None?
    ensures Cached.Get(s.cache, key, HomeOf(s, key)).0 == s.cache
  {}
}
