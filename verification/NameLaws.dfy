/** What each request to the name server answers and changes, stated on owners, access lists, servers
    and pending requests, with the numbers written out; and what runs make of it. */
module NameLaws {
  import opened Wrappers
  import opened Metadata
  import opened TrieModel
  import opened NameSteps
  import opened NameRules
  import opened NameRuns
  import Cached = CacheModel

  /* ---- Rights ---- */

  predicate HasEntry(acl: seq<AclEntry>, user: string, access: int) {
    exists i :: 0 <= i < |acl| && acl[i].username == user && acl[i].access == access
  }

  predicate MayRead(files: map<string, FileMetadata>, f: string, user: string) {
    f in files &&
    (files[f].owner == user || HasEntry(files[f].acl, user, 1) || HasEntry(files[f].acl, user, 3))
  }

  predicate MayWrite(files: map<string, FileMetadata>, f: string, user: string) {
    f in files && (files[f].owner == user || HasEntry(files[f].acl, user, 3))
  }

  /** The check for reading (1), writing (2) and both at once (3). */
  predicate Passes(files: map<string, FileMetadata>, f: string, user: string, required: int) {
    if required == 1 then MayRead(files, f, user)
    else if required == 2 then MayWrite(files, f, user)
    else f in files && files[f].owner == user
  }

  lemma EntryIs(acl: seq<AclEntry>, user: string, access: int)
    requires AclOk(acl)
    ensures HasEntry(acl, user, access) <==> Entry(acl, user) == Some(access)
  {
    hide FindEntry;
    FindIs(acl, user);
    if HasEntry(acl, user, access) {
      var i :| 0 <= i < |acl| && acl[i].username == user && acl[i].access == access;
      FindUnique(acl, i);
    }
  }

  lemma RightsAre(s: Names, f: string, user: string, required: int)
    requires Inv(s)
    ensures CheckAccess(s.trie.files, f, user, required) <==> Passes(s.trie.files, f, user, required)
  {
    hide Closed, HasEntry, RequestsOk, Cached.CacheOk, FindEntry;
    if f in s.trie.files {
      OwnAcl(s, f);
      AccessIs(s.trie.files, f, user, required);
      EntryIs(s.trie.files[f].acl, user, 1);
      EntryIs(s.trie.files[f].acl, user, 3);
    }
  }

  /* ---- Creating and deleting ---- */

  /** The server whose turn it is. */
  function Turn(s: Names): int {
    if s.servers == [] then -1 else s.servers[s.nextSs % |s.servers|].id
  }

  /** CREATE's answer, and the turn it takes whatever the storage server answers. */
  lemma CreateAnswers(s: Names, sender: string, f: string, reply: int, now: int)
    requires Inv(s) && Enabled(s, Create(sender, f, reply, now))
    ensures var (s', status) := Step(s, Create(sender, f, reply, now));
      && status == (if f in s.trie.files then 409 else if Turn(s) < 0 then 503 else reply)
      && s'.nextSs == (if f in s.trie.files || s.servers == [] then s.nextSs else s.nextSs + 1)
      && s'.servers == s.servers && s'.users == s.users && s'.requests == s.requests
      && (status != 200 ==> s'.trie == s.trie && s'.cache == s.cache)
  {
    hide Cached.Put, Cached.Probe, Inv;
  }

  predicate SevenBit(name: string) {
    forall i | 0 <= i < |name| :: (name[i] as int) < 128
  }

  /** A file that was created is in the index if and only if its name is 7-bit.  It belongs to the sender,
      is on the server whose turn it was, and nobody else may read or write it; the other files stay as
      they were. */
  lemma CreatedBelongs(s: Names, sender: string, f: string, reply: int, now: int)
    requires Inv(s) && Enabled(s, Create(sender, f, reply, now))
    requires Step(s, Create(sender, f, reply, now)).1 == 200
    ensures var files := After(s, Create(sender, f, reply, now));
      && f !in s.trie.files && (f in files <==> SevenBit(f))
      && (!SevenBit(f) ==> files == s.trie.files)
      && (SevenBit(f) ==>
            && files[f].owner == sender && files[f].ssId == Turn(s) && files[f].acl == [] && files[f].filename == f
            && files[f].folderPath == "" && files[f].size == 0 && files[f].wordCount == 0 && files[f].charCount == 0
            && files[f].created == files[f].modified == files[f].accessed == now && files[f].lastAccessedBy == sender
            && (forall user :: MayRead(files, f, user) <==> user == sender)
            && (forall user :: MayWrite(files, f, user) <==> user == sender)
            && files == s.trie.files[f := files[f]])
  {
    hide Cached.Put, Cached.Probe, Inv, Ascii, SevenBit;
    SevenBitIs(f);
  }

  lemma SevenBitIs(f: string)
    ensures SevenBit(f) <==> Ascii(f)
  {}

  /** DELETE's answer: the file is there, the sender owns it, its server is known, nobody edits it, and
      the storage server agrees. */
  lemma DeleteAnswers(s: Names, sender: string, f: string, lockReply: int, reply: int)
    requires Inv(s) && Enabled(s, NameSteps.Delete(sender, f, lockReply, reply))
    ensures var (s', status) := Step(s, NameSteps.Delete(sender, f, lockReply, reply));
      && status == (if f !in s.trie.files then 404
                    else if s.trie.files[f].owner != sender then 401
                    else if !KnownServer(s.servers, s.trie.files[f].ssId) then 503
                    else if lockReply == 424 then 424
                    else reply)
      && (status == 200 ==> s'.trie.files == s.trie.files - {f})
      && (status != 200 ==> s' == s)
      && s'.servers == s.servers && s'.users == s.users && s'.requests == s.requests && s'.nextSs == s.nextSs
  {
    hide Cached.Remove, Cached.Probe, Inv, TrieModel.Delete;
    if f in s.trie.files { ServerFound(s.servers, s.trie.files[f].ssId); }
    if Status(s, NameSteps.Delete(sender, f, lockReply, reply)) == 200 { DropEntries(s, f); }
  }

  predicate KnownServer(servers: seq<Server>, id: int) {
    exists i :: 0 <= i < |servers| && servers[i].id == id
  }

  lemma ServerFound(servers: seq<Server>, id: int)
    ensures FindServer(servers, id) < |servers| <==> KnownServer(servers, id)
  {}

  /* ---- Access lists ---- */

  /** The files are the same but for the access list of `f`. */
  predicate OnlyAcl(files: map<string, FileMetadata>, files': map<string, FileMetadata>, f: string) {
    && f in files && f in files'
    && files' == files[f := files'[f]] && files'[f] == files[f].(acl := files'[f].acl)
  }

  lemma ChangedAclOnly(s: Names, f: string, acl: seq<AclEntry>)
    requires f in s.trie.files && Ends(s, f)
    ensures var s' := ChangeAcl(s, f, acl);
      && OnlyAcl(s.trie.files, s'.trie.files, f) && s'.trie.files[f].acl == acl
      && s'.requests == s.requests && s'.users == s.users && s'.servers == s.servers && s'.nextSs == s.nextSs
  {}

  /** ADDACCESS: the owner alone gives access, to a registered user other than himself. */
  lemma AddAccessAnswers(s: Names, sender: string, f: string, target: string, access: int)
    requires Inv(s) && Enabled(s, AddAccess(sender, f, target, access))
    ensures var (s', status) := Step(s, AddAccess(sender, f, target, access)); var files := s.trie.files;
      && status == (if f !in files then 404 else if files[f].owner != sender then 401
                    else if target !in s.users then 406 else if target == sender then 405 else 200)
      && (status != 200 ==> s' == s)
      && (status == 200 ==>
            && OnlyAcl(files, s'.trie.files, f)
            && forall user, a :: HasEntry(s'.trie.files[f].acl, user, a) <==>
                 if user == target && (Entry(files[f].acl, user).Some? || |files[f].acl| < 100) then a == access
                 else HasEntry(files[f].acl, user, a))
      && s'.requests == s.requests && s'.users == s.users && s'.servers == s.servers
  {
    hide Closed, Ends, ChangeAcl, Grant, AclsOk, FindEntry, HasEntry, RequestsOk, Entry, Cached.CacheOk;
    var r := AddAccess(sender, f, target, access);
    if Status(s, r) == 200 {
      var acl := s.trie.files[f].acl;
      OwnAcl(s, f);
      ChangedAclOnly(s, f, Grant(acl, target, access));
      forall user, a ensures HasEntry(Grant(acl, target, access), user, a) <==>
          if user == target && (Entry(acl, user).Some? || |acl| < 100) then a == access else HasEntry(acl, user, a)
      {
        GrantIs(acl, target, access, user);
        EntryIs(acl, user, a);
        EntryIs(Grant(acl, target, access), user, a);
      }
    }
  }

  /** REMACCESS: the owner alone takes access away. */
  lemma RemAccessAnswers(s: Names, sender: string, f: string, target: string)
    requires Inv(s) && Enabled(s, RemAccess(sender, f, target))
    ensures var (s', status) := Step(s, RemAccess(sender, f, target)); var files := s.trie.files;
      && status == (if f !in files then 404 else if files[f].owner != sender then 401 else 200)
      && (status != 200 ==> s' == s)
      && (status == 200 ==>
            && OnlyAcl(files, s'.trie.files, f)
            && forall user, a :: HasEntry(s'.trie.files[f].acl, user, a) <==> user != target && HasEntry(files[f].acl, user, a))
      && s'.requests == s.requests && s'.users == s.users && s'.servers == s.servers
  {
    hide Closed, Ends, ChangeAcl, Revoke, AclsOk, FindEntry, HasEntry, RequestsOk, Entry, Cached.CacheOk;
    var r := RemAccess(sender, f, target);
    if Status(s, r) == 200 {
      var acl := s.trie.files[f].acl;
      OwnAcl(s, f);
      ChangedAclOnly(s, f, Revoke(acl, target));
      forall user, a ensures HasEntry(Revoke(acl, target), user, a) <==> user != target && HasEntry(acl, user, a) {
        RevokeIs(acl, target, user);
        EntryIs(acl, user, a);
        EntryIs(Revoke(acl, target), user, a);
      }
    }
  }

  /* ---- Pending requests ---- */

  predicate Asked(s: Names, user: string, f: string, access: int) {
    exists i :: 0 <= i < |s.requests| && s.requests[i].username == user && s.requests[i].filename == f
                && s.requests[i].requested == access
  }

  lemma AskedIs(s: Names, user: string, f: string, access: int)
    ensures Asked(s, user, f, access) <==> Pending(s, user, f, access)
  {
    if Asked(s, user, f, access) {
      var i :| 0 <= i < |s.requests| && s.requests[i].username == user && s.requests[i].filename == f
        && s.requests[i].requested == access;
      assert SameRequest(s.requests[i], user, f, access);
    }
    if Pending(s, user, f, access) {
      var i :| 0 <= i < |s.requests| && SameRequest(s.requests[i], user, f, access);
      assert s.requests[i].username == user;
    }
  }

  /** REQUESTACCESS files the request at the end of the list, unless the sender has the access, asked for
      it before, or the list is full; it changes nothing else. */
  lemma RequestAnswers(s: Names, sender: string, f: string, access: int, now: int)
    requires Inv(s)
    ensures Enabled(s, RequestAccess(sender, f, access, now))
    ensures var (s', status) := Step(s, RequestAccess(sender, f, access, now)); var files := s.trie.files;
      var needless := Passes(files, f, sender, access) || Asked(s, sender, f, access);
      && status == (if f !in files then 404 else if needless || |s.requests| < 100000 then 200 else 500)
      && s' == (if f !in files || needless || |s.requests| >= 100000 then s
                else s.(requests := s.requests + [AccessRequest(sender, f, access, now)]))
  {
    hide Inv, CheckAccess, Passes, Asked, Pending;
    RightsAre(s, f, sender, access);
    AskedIs(s, sender, f, access);
  }

  /** DENYREQUEST: the owner of the file alone, and it takes just that request off the list. */
  lemma DenyAnswers(s: Names, sender: string, id: int)
    requires Inv(s)
    ensures Enabled(s, Deny(sender, id))
    ensures var (s', status) := Step(s, Deny(sender, id)); var files := s.trie.files;
      && status == (if !(0 <= id < |s.requests|) then 400
                    else if s.requests[id].filename !in files || files[s.requests[id].filename].owner != sender then 401
                    else 200)
      && s' == (if status == 200 then s.(requests := s.requests[..id] + s.requests[id + 1..]) else s)
  {
    hide Inv;
  }

  /** APPROVEREQUEST: the owner of the file alone; it gives the requester what he asked for, if there is a
      place, and takes just that request off the list. */
  lemma ApproveAnswers(s: Names, sender: string, id: int)
    requires Inv(s) && Enabled(s, Approve(sender, id))
    ensures var (s', status) := Step(s, Approve(sender, id)); var files := s.trie.files;
      && status == (if !(0 <= id < |s.requests|) then 400
                    else if s.requests[id].filename !in files || files[s.requests[id].filename].owner != sender then 401
                    else 200)
      && (status != 200 ==> s' == s)
      && (status == 200 ==>
            var q := s.requests[id];
            && s'.requests == s.requests[..id] + s.requests[id + 1..]
            && OnlyAcl(files, s'.trie.files, q.filename)
            && forall user, a :: HasEntry(s'.trie.files[q.filename].acl, user, a) <==>
                 if user == q.username && (Entry(files[q.filename].acl, user).Some? || |files[q.filename].acl| < 100)
                 then a == q.requested else HasEntry(files[q.filename].acl, user, a))
      && s'.users == s.users && s'.servers == s.servers
  {
    hide Closed, Ends, ChangeAcl, Grant, AclsOk, FindEntry, HasEntry, RequestsOk, Entry, Cached.CacheOk;
    var r := Approve(sender, id);
    if Status(s, r) == 200 {
      var q := s.requests[id];
      var acl := s.trie.files[q.filename].acl;
      OwnAcl(s, q.filename);
      ChangedAclOnly(s, q.filename, Grant(acl, q.username, q.requested));
      forall user, a ensures HasEntry(Grant(acl, q.username, q.requested), user, a) <==>
          if user == q.username && (Entry(acl, user).Some? || |acl| < 100) then a == q.requested else HasEntry(acl, user, a)
      {
        GrantIs(acl, q.username, q.requested, user);
        EntryIs(acl, user, a);
        EntryIs(Grant(acl, q.username, q.requested), user, a);
      }
    }
  }

  /* ---- Using a file ---- */

  /** READ and STREAM (1), WRITE and UNDO (2) need the right; accepted, they note the access and change
      nothing else of the file. */
  lemma TouchAnswers(s: Names, sender: string, f: string, required: int, now: int)
    requires Inv(s) && Enabled(s, Touch(sender, f, required, now))
    ensures var (s', status) := Step(s, Touch(sender, f, required, now)); var files := s.trie.files;
      && (!Passes(files, f, sender, required) ==> status == 403 && s' == s)
      && (Passes(files, f, sender, required) ==> f in files && status == if FindSs(s, f).1 < 0 then 404 else 200)
      && s'.trie.files == (if status == 200 then files[f := files[f].(accessed := now, lastAccessedBy := sender)] else files)
      && s'.requests == s.requests && s'.users == s.users && s'.servers == s.servers
  {
    hide Inv, CheckAccess, Passes, Cached.Get, Cached.Put, Cached.Probe;
    RightsAre(s, f, sender, required);
    if CheckAccess(s.trie.files, f, sender, required) {
      CheckedIsThere(s.trie.files, f, sender, required);
      FoundEnds(s, f);
    }
  }

  lemma CheckedIsThere(files: map<string, FileMetadata>, f: string, user: string, required: int)
    requires CheckAccess(files, f, user, required)
    ensures f in files
  {}

  /** EXEC and the checkpoint requests need the right and change no file. */
  lemma LookupAnswers(s: Names, sender: string, f: string, required: int)
    requires Inv(s) && Enabled(s, Lookup(sender, f, required))
    ensures var (s', status) := Step(s, Lookup(sender, f, required));
      && (!Passes(s.trie.files, f, sender, required) ==> status == 403 && s' == s)
      && (Passes(s.trie.files, f, sender, required) ==>
            status == (if FindSs(s, f).1 < 0 then 404 else 200) && s'.cache == FindSs(s, f).0.cache)
      && s' == s.(cache := s'.cache)
  {
    hide Inv, CheckAccess, Passes, Cached.Get, Cached.Put, Cached.Probe;
    RightsAre(s, f, sender, required);
    if CheckAccess(s.trie.files, f, sender, required) { CheckedIsThere(s.trie.files, f, sender, required); }
  }

  /** MOVE needs the right to write; accepted, it changes the folder and nothing else. */
  lemma MoveAnswers(s: Names, sender: string, f: string, path: string, folderExists: bool, reply: int)
    requires Inv(s) && Enabled(s, Move(sender, f, path, folderExists, reply))
    ensures var (s', status) := Step(s, Move(sender, f, path, folderExists, reply)); var files := s.trie.files;
      && status == (if f !in files then 404 else if !MayWrite(files, f, sender) then 403
                    else if path != "" && path != "/" && !folderExists then 404
                    else if !(exists i :: 0 <= i < |s.servers| && s.servers[i] == Server(files[f].ssId, true)) then 503
                    else reply)
      && (status != 200 ==> s' == s)
      && s'.trie.files == (if status == 200 then files[f := files[f].(folderPath := path)] else files)
      && s'.requests == s.requests && s'.users == s.users && s'.servers == s.servers
  {
    hide Inv, CheckAccess, MayWrite, Cached.Put, Cached.Probe;
    RightsAre(s, f, sender, 2);
  }

  /** INFO asks for no right, and changes no file. */
  lemma InfoAnswers(s: Names, f: string)
    requires Inv(s) && Enabled(s, Info(f))
    ensures var (s', status) := Step(s, Info(f));
      && status == (if f in s.trie.files then 200 else 404) && s' == s.(cache := s'.cache)
      && s'.cache == (if status == 200 then FindSs(s, f).0.cache else s.cache)
  {
    hide Inv, Cached.Get, Cached.Put, Cached.Probe;
  }

  /** A refresh stores what the storage server reports, and leaves owner, access list, server, folder and
      the rest alone. */
  lemma RefreshAnswers(s: Names, f: string, stat: Stat)
    requires Inv(s) && Enabled(s, Refresh(f, stat))
    ensures var (s', status) := Step(s, Refresh(f, stat)); var files := s.trie.files;
      && status == (if f in files then 200 else 404)
      && (f !in files ==> s' == s)
      && (f in files ==>
            && s'.trie.files == files[f := s'.trie.files[f]]
            && var m, m' := files[f], s'.trie.files[f];
               && m'.size == stat.size && m'.wordCount == stat.words && m'.charCount == stat.chars
               && m'.modified == stat.modified && m'.accessed == stat.accessed
               && m'.filename == m.filename && m'.folderPath == m.folderPath && m'.owner == m.owner && m'.ssId == m.ssId
               && m'.created == m.created && m'.lastAccessedBy == m.lastAccessedBy && m'.acl == m.acl)
      && s'.requests == s.requests && s'.users == s.users && s'.servers == s.servers
  {
    hide Inv, Cached.Put, Cached.Probe;
  }

  /* ---- Users and servers ---- */

  /** A new user is registered while there are fewer than 1000. */
  lemma UserAnswers(s: Names, user: string)
    ensures Enabled(s, RegisterUser(user))
    ensures var (s', status) := Step(s, RegisterUser(user));
      && (user in s.users || |s.users| >= 1000 ==> s' == s)
      && (user !in s.users && |s.users| < 1000 ==>
            |s'.users| == |s.users| + 1 && (forall u :: u in s'.users <==> u in s.users || u == user))
      && s' == s.(users := s'.users)
  {}

  /** A registration makes its server active, the 51st and later new ones excepted; a timeout makes it
      inactive; the others stay as they are. */
  lemma ServerAnswers(s: Names, id: int, files: seq<string>, now: int)
    ensures Enabled(s, RegisterServer(id, files, now)) && Enabled(s, ServerTimeout(id))
    ensures var s' := Step(s, RegisterServer(id, files, now)).0;
      && (KnownServer(s.servers, id) || |s.servers| < 50 ==> Server(id, true) in s'.servers)
      && (!KnownServer(s.servers, id) && |s.servers| >= 50 ==> s' == s)
      && (forall x: Server | x.id != id :: x in s'.servers <==> x in s.servers)
      && s'.cache == s.cache && s'.requests == s.requests && s'.users == s.users && s'.nextSs == s.nextSs
    ensures var s' := Step(s, ServerTimeout(id)).0;
      && (KnownServer(s.servers, id) ==> Server(id, false) in s'.servers)
      && (forall x: Server | x.id != id :: x in s'.servers <==> x in s.servers)
      && s' == s.(servers := s'.servers)
  {
    hide RegisterFiles, FirstFiles, FindServer;
    ServerFound(s.servers, id);
    var i := FindServer(s.servers, id);
    FoundAt(s.servers, id);
    if i < |s.servers| {
      Replaced(s.servers, i, Server(id, true));
      Replaced(s.servers, i, Server(id, false));
    }
  }

  lemma FoundAt(servers: seq<Server>, id: int)
    ensures var i := FindServer(servers, id); i <= |servers| && (i < |servers| ==> servers[i].id == id)
  {}

  lemma Replaced(servers: seq<Server>, i: nat, x: Server)
    requires i < |servers| && servers[i].id == x.id
    ensures var r := servers[i := x]; x in r && forall y: Server | y.id != x.id :: y in r <==> y in servers
  {
    var r := servers[i := x];
    assert r[i] == x;
    forall y: Server | y.id != x.id ensures y in r <==> y in servers {
      if y in servers {
        var j :| 0 <= j < |servers| && servers[j] == y;
        assert r[j] == y;
      }
    }
  }

  /** What a registration makes of the index, file by file: a known file moves to the server and stays as
      it is otherwise, a new one belongs to the system and to nobody else. */
  lemma {:induction false} RegisteredMeta(t: Shape, list: seq<string>, id: int, now: int, f: string)
    requires Closed(t)
    ensures var t' := RegisterFiles(t, list, id, now);
      && (f in t'.files <==> f in t.files || (f in list && Ascii(f)))
      && (f in t.files ==> t'.files[f] == if f in list then t.files[f].(ssId := id) else t.files[f])
      && (f !in t.files && f in t'.files ==>
            t'.files[f] == FileMetadata(f, "", "system", id, 0, 0, 0, now, now, now, "", []))
    decreases |list|
  {
    hide Closed, Ascii;
    if list == [] {
    } else {
      var g, t1 := list[0], RegisterFile(t, list[0], id, now);
      RegisteredFile(t, g, id, now);
      RegisteredMeta(t1, list[1..], id, now, f);
      assert list == [g] + list[1..];
      assert f in list <==> f == g || f in list[1..];
    }
  }

  /** The same of the request: at most 10000 files of the list count, and none if the server is refused. */
  lemma RegistrationIndexes(s: Names, id: int, list: seq<string>, now: int, f: string)
    requires Inv(s)
    ensures var files, files' := s.trie.files, Step(s, RegisterServer(id, list, now)).0.trie.files;
      var listed := (KnownServer(s.servers, id) || |s.servers| < 50) && f in list[..if |list| < 10000 then |list| else 10000];
      && (f in files' <==> f in files || (listed && Ascii(f)))
      && (f in files ==> files'[f] == if listed then files[f].(ssId := id) else files[f])
      && (f !in files && f in files' ==> files'[f] == FileMetadata(f, "", "system", id, 0, 0, 0, now, now, now, "", []))
  {
    hide Closed, Ascii, RegisterFiles, AclsOk, RequestsOk, Cached.CacheOk;
    ServerFound(s.servers, id);
    RegisteredMeta(s.trie, FirstFiles(list), id, now, f);
    assert |list| <= 10000 ==> list[..|list|] == list;
  }
}
