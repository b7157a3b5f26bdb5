/** The name server's index (`trie.c`) on values: the set of node paths, and the metadata at the
    nodes that end a name. */
module TrieModel {
  import opened Metadata

  const ALPHABET_SIZE := 128

  datatype Shape = Shape(nodes: set<string>, files: map<string, FileMetadata>)

  /** The path of child `c` of the node at `p`. */
  function Child(p: string, c: nat): string
    requires c < ALPHABET_SIZE
  {
    p + [c as char]
  }

  function Parent(p: string): (q: string)
    requires p != ""
    ensures |q| == |p| - 1 && q <= p
  {
    p[..|p| - 1]
  }

  predicate Ascii(name: string) {
    forall i | 0 <= i < |name| :: name[i] as int < ALPHABET_SIZE
  }

  /** Paths are over the alphabet, every node's parent is a node, and files are at nodes. */
  ghost predicate Closed(t: Shape) {
    && "" in t.nodes
    && (forall p {:trigger Parent(p)} | p in t.nodes && p != "" :: Parent(p) in t.nodes)
    && (forall p | p in t.nodes :: Ascii(p))
    && (forall p | p in t.files :: p in t.nodes)
  }

  /** The nodes are exactly the prefixes of the names. */
  ghost predicate Tight(t: Shape) {
    forall p: string :: p in t.nodes <==> p == "" || exists k :: k in t.files && p <= k
  }

  const EMPTY := Shape({""}, map[])

  /* ---- Operations ---- */

  /** The number of leading characters that the alphabet covers. */
  function AsciiLength(name: string): (n: nat)
    ensures n <= |name| && Ascii(name[..n])
    ensures n < |name| ==> name[n] as int >= ALPHABET_SIZE
  {
    if name == "" || name[0] as int >= ALPHABET_SIZE then 0
    else
      var n := AsciiLength(name[1..]);
      assert name[..n + 1] == [name[0]] + name[1..][..n];
      n + 1
  }

  function Prefixes(name: string): set<string> {
    set i | 0 <= i <= |name| :: name[..i]
  }

  /** `trie_insert`: the nodes on the way are made even if the name turns out to be refused. */
  function Insert(t: Shape, name: string, meta: FileMetadata): Shape {
    Shape(t.nodes + Prefixes(name[..AsciiLength(name)]),
          if Ascii(name) then t.files[name := meta] else t.files)
  }

  ghost predicate Leaf(t: Shape, p: string) {
    forall c: nat | c < ALPHABET_SIZE :: Child(p, c) !in t.nodes
  }

  /** `trie_delete_helper` at the node `depth` steps down the path; the second component tells the
      caller to cut the node off. */
  ghost function Prune(t: Shape, name: string, depth: nat): (Shape, bool)
    requires depth <= |name|
    decreases |name| - depth
  {
    var p := name[..depth];
    if p !in t.nodes then (t, false)
    else if depth == |name| then (t.(files := t.files - {name}), Leaf(t, name))
    else if name[depth] as int >= ALPHABET_SIZE then (t, false)
    else
      var (t', cut) := Prune(t, name, depth + 1);
      if !cut then (t', false)
      else
        var t'' := t'.(nodes := t'.nodes - {name[..depth + 1]});
        (t'', p !in t''.files && Leaf(t'', p))
  }

  ghost function Delete(t: Shape, name: string): Shape {
    Prune(t, name, 0).0
  }

  /** `trie_update` */
  function Update(t: Shape, name: string, meta: FileMetadata): Shape {
    if name in t.files then t.(files := t.files[name := meta]) else t
  }

  /* ---- The nodes are closed under prefix ---- */

  lemma {:induction false} PrefixIn(t: Shape, p: string, i: nat)
    requires Closed(t) && p in t.nodes && i <= |p|
    ensures p[..i] in t.nodes
    decreases |p|
  {
    if p != "" {
      var q := Parent(p);
      PrefixIn(t, q, if i < |p| then i else 0);
      assert i < |p| ==> p[..i] == q[..i];
      assert i == |p| ==> p[..i] == p;
    } else {
      assert p[..i] == p;
    }
  }

  lemma InsertClosed(t: Shape, name: string, meta: FileMetadata)
    requires Closed(t)
    ensures Closed(Insert(t, name, meta))
    ensures Ascii(name) <==> AsciiLength(name) == |name|
  {
    hide Prefixes, Ascii, AsciiLength;
    WholeAscii(name);
    PrefixesClosed(name[..AsciiLength(name)]);
  }

  lemma WholeAscii(name: string)
    ensures Ascii(name) <==> AsciiLength(name) == |name|
    ensures Ascii(name) ==> name[..AsciiLength(name)] == name
  {
    assert name[..|name|] == name;
  }

  lemma PrefixesClosed(s: string)
    requires Ascii(s)
    ensures s in Prefixes(s)
    ensures forall p {:trigger Parent(p)} | p in Prefixes(s) && p != "" :: Parent(p) in Prefixes(s)
    ensures forall p | p in Prefixes(s) :: Ascii(p)
  {
    assert s == s[..|s|];
    forall p | p in Prefixes(s) && p != "" ensures Parent(p) in Prefixes(s) {
      var i :| 0 <= i <= |s| && p == s[..i];
      assert Parent(p) == s[..i - 1];
    }
  }

  /* ---- Deletion ---- */

  /** What pruning leaves alone. */
  lemma {:induction false} PruneFrame(t: Shape, name: string, depth: nat)
    requires depth <= |name| && Closed(t)
    ensures var r := Prune(t, name, depth).0;
      && r.nodes <= t.nodes
      && (forall p | p in t.nodes && p !in r.nodes :: depth < |p| && p <= name)
      && r.files == (if name in t.nodes then t.files - {name} else t.files)
    decreases |name| - depth
  {
    assert name[..|name|] == name;
    if name in t.nodes { PrefixIn(t, name, depth); }
    if depth < |name| && name[..depth] in t.nodes && name[depth] as int < ALPHABET_SIZE {
      PruneFrame(t, name, depth + 1);
    }
  }

  /** A node is dead when nothing but the deleted name's path hangs below it and no other file is
      on that path. */
  ghost predicate Dead(t: Shape, name: string, p: string) {
    && p <= name && name in t.nodes
    && (forall q | q in t.nodes && p <= q :: q <= name && (q == name || q !in t.files))
  }

  /** A node below `p` has an ancestor that is a child of `p`. */
  lemma StepDown(t: Shape, p: string, q: string)
    requires Closed(t) && q in t.nodes && p <= q && p != q
    ensures q[|p|] as int < ALPHABET_SIZE
    ensures Child(p, q[|p|] as nat) == q[..|p| + 1] && Child(p, q[|p|] as nat) in t.nodes
    ensures !Leaf(t, p)
  {
    PrefixIn(t, q, |p| + 1);
    assert q[..|p| + 1] == Child(p, q[|p|] as nat);
  }

  lemma LeafIsDead(t: Shape, name: string)
    requires Closed(t) && name in t.nodes
    ensures Leaf(t, name) <==> Dead(t, name, name)
  {
    if Leaf(t, name) {
      forall q | q in t.nodes && name <= q ensures q == name {
        if name != q {
          StepDown(t, name, q);
        }
      }
    }
    if Dead(t, name, name) {
      forall c: nat | c < ALPHABET_SIZE ensures Child(name, c) !in t.nodes {
        assert name <= Child(name, c);
      }
    }
  }

  /** A dead node's child on the path is dead. */
  lemma DeadBelow(t: Shape, name: string, depth: nat)
    requires depth < |name| && Dead(t, name, name[..depth])
    ensures Dead(t, name, name[..depth + 1])
  {
    assert name[..depth] <= name[..depth + 1];
  }

  /** With the child on the path dead and cut off, a node is dead exactly when it ends no name and
      has no child left. */
  lemma DeadAbove(t: Shape, t'': Shape, name: string, depth: nat)
    requires Closed(t) && depth < |name| && Dead(t, name, name[..depth + 1])
    requires forall p :: p in t''.nodes && p !in t.nodes ==> false
    requires forall p | p in t.nodes && p !in t''.nodes :: depth < |p| && p <= name
    requires name[..depth + 1] !in t''.nodes && t''.files == t.files - {name}
    ensures name[..depth] !in t''.files && Leaf(t'', name[..depth]) <==> Dead(t, name, name[..depth])
  {
    var p := name[..depth];
    if p !in t''.files && Leaf(t'', p) {
      forall q | q in t.nodes && p <= q ensures q <= name && (q == name || q !in t.files) {
        if p != q {
          StepDown(t, p, q);
          assert q[..depth + 1] == name[..depth + 1] <= q;
        }
      }
    }
    if Dead(t, name, p) {
      PrefixIn(t, name, depth);
      forall c: nat | c < ALPHABET_SIZE ensures Child(p, c) !in t''.nodes {
        assert p <= Child(p, c);
        assert Child(p, c) <= name ==> Child(p, c) == name[..depth + 1];
      }
    }
  }

  /** Pruning cuts off exactly the dead nodes below the one it starts at, and reports whether that
      one is dead itself. */
  lemma {:induction false} PruneExact(t: Shape, name: string, depth: nat)
    requires depth <= |name| && Closed(t)
    ensures Prune(t, name, depth).1 <==> Dead(t, name, name[..depth])
    ensures var r := Prune(t, name, depth).0;
      forall p :: p in r.nodes <==> p in t.nodes && !(depth < |p| && Dead(t, name, p))
    decreases |name| - depth
  {
    hide Closed, Dead, Leaf;
    PruneFrame(t, name, depth);
    assert name[..|name|] == name;
    if name !in t.nodes {
      NotDead(t, name);
      if depth < |name| { PruneExact(t, name, depth + 1); }
    } else {
      PrefixIn(t, name, depth);
      NodeAscii(t, name);
      if depth == |name| {
        LeafIsDead(t, name);
        DeadIsPrefix(t, name);
      } else {
        PruneExact(t, name, depth + 1);
        PruneFrame(t, name, depth + 1);
        DeadIsPrefix(t, name);
        var (t', cut) := Prune(t, name, depth + 1);
        if cut {
          var t'' := t'.(nodes := t'.nodes - {name[..depth + 1]});
          DeadAbove(t, t'', name, depth);
        } else if Dead(t, name, name[..depth]) {
          DeadBelow(t, name, depth);
        }
      }
    }
  }

  lemma NodeAscii(t: Shape, p: string)
    requires Closed(t) && p in t.nodes
    ensures Ascii(p)
  {}

  lemma NotDead(t: Shape, name: string)
    requires name !in t.nodes
    ensures forall p :: !Dead(t, name, p)
  {}

  lemma DeadIsPrefix(t: Shape, name: string)
    ensures forall p | Dead(t, name, p) :: p <= name && name[..|p|] == p
  {}

  lemma DeadChild(t: Shape, name: string, p: string)
    requires p in t.nodes && p != "" && Dead(t, name, Parent(p))
    ensures Dead(t, name, p)
  {
    forall q | q in t.nodes && p <= q ensures q <= name && (q == name || q !in t.files) {
      assert Parent(p) <= q;
    }
  }

  /** Deletion removes the name and prunes all and only the dead nodes. */
  lemma DeleteExact(t: Shape, name: string)
    requires Closed(t)
    ensures Closed(Delete(t, name))
    ensures Delete(t, name).files == t.files - {name}
    ensures forall p :: p in Delete(t, name).nodes <==> p in t.nodes && !(p != "" && Dead(t, name, p))
  {
    PruneExact(t, name, 0);
    PruneFrame(t, name, 0);
    assert name[..0] == "";
    var r := Delete(t, name);
    forall p | p in r.nodes && p != "" ensures Parent(p) in r.nodes {
      if Dead(t, name, Parent(p)) {
        DeadChild(t, name, p);
      }
    }
    forall p | p in r.files ensures p in r.nodes {
      assert Dead(t, name, p) ==> p == name;
    }
  }

  lemma DeleteTight(t: Shape, name: string)
    requires Closed(t) && Tight(t)
    ensures Tight(Delete(t, name))
  {
    hide Closed, Dead, Delete;
    DeleteExact(t, name);
    var r := Delete(t, name);
    forall p: string ensures p in r.nodes <==> p == "" || exists k :: k in r.files && p <= k {
      if p in r.nodes && p != "" {
        Survivor(t, name, p);
        var k :| k in t.files && k != name && p <= k;
        assert k in r.files;
      }
      if p == "" { RootIsNode(t); }
      if exists k :: k in r.files && p <= k {
        var k :| k in r.files && p <= k;
        Kept(t, name, p, k);
      }
    }
  }

  lemma RootIsNode(t: Shape)
    requires Closed(t)
    ensures "" in t.nodes
  {}

  lemma Kept(t: Shape, name: string, p: string, k: string)
    requires Closed(t) && Tight(t) && k in t.files && k != name && p <= k
    ensures p in t.nodes && !Dead(t, name, p)
  {
    FileIsNode(t, k);
  }

  /** A node that is not dead still lies on the path of another name. */
  lemma Survivor(t: Shape, name: string, p: string)
    requires Closed(t) && Tight(t) && p in t.nodes && p != "" && !Dead(t, name, p)
    ensures exists k :: k in t.files && k != name && p <= k
  {
    hide Closed;
    if p <= name && name in t.nodes {
      var q :| q in t.nodes && p <= q && !(q <= name && (q == name || q !in t.files));
      if q <= name {
        assert q in t.files && q != name;
      } else {
        NamedBelow(t, q);
        var k :| k in t.files && q <= k;
        assert p <= k;
      }
    } else {
      NamedBelow(t, p);
      var k :| k in t.files && p <= k;
      assert k == name ==> p <= name && name in t.nodes by { FileIsNode(t, k); }
    }
  }

  lemma NamedBelow(t: Shape, q: string)
    requires Tight(t) && q in t.nodes && q != ""
    ensures exists k :: k in t.files && q <= k
  {}

  lemma FileIsNode(t: Shape, k: string)
    requires Closed(t) && k in t.files
    ensures k in t.nodes
  {}

  /** Inserting keeps the node set the prefix closure exactly when the name is within the alphabet,
      or the nodes up to its first foreign character exist already. */
  lemma InsertTight(t: Shape, name: string, meta: FileMetadata)
    requires Closed(t) && Tight(t)
    ensures Tight(Insert(t, name, meta)) <==> Ascii(name) || name[..AsciiLength(name)] in t.nodes
  {
    InsertClosed(t, name, meta);
    var n, t' := AsciiLength(name), Insert(t, name, meta);
    var s := name[..n];
    assert s in Prefixes(s) by { assert s == s[..n]; }
    if Ascii(name) {
      assert s == name;
      forall p: string ensures p in t'.nodes <==> p == "" || exists k :: k in t'.files && p <= k {
        if p in Prefixes(s) { assert name in t'.files && p <= name; }
        if p <= name { assert p == s[..|p|]; }
        if p in t.nodes && p != "" {
          var k :| k in t.files && p <= k;
          assert k in t'.files;
        }
      }
    } else if s in t.nodes {
      assert Prefixes(s) <= t.nodes by {
        forall i | 0 <= i <= |s| ensures s[..i] in t.nodes { PrefixIn(t, s, i); }
      }
      assert t'.nodes == t.nodes;
    } else {
      assert s in t'.nodes;
    }
  }

  /** A refused name that leaves a stray node. */
  lemma StrayNode(meta: FileMetadata)
    ensures !Ascii(['a', 200 as char])
    ensures Insert(EMPTY, ['a', 200 as char], meta).files == map[] && !Tight(Insert(EMPTY, ['a', 200 as char], meta))
  {
    var name := ['a', 200 as char];
    EmptyTight();
    InsertTight(EMPTY, name, meta);
    assert name[1..][0] == 200 as char;
    assert AsciiLength(name) == 1;
    assert name[..1] == "a" && name[1] == 200 as char;
  }

  /* ---- Runs ---- */

  datatype Op =
    | OpInsert(name: string, meta: FileMetadata)
    | OpDelete(name: string)
    | OpUpdate(name: string, meta: FileMetadata)

  ghost function Apply(t: Shape, op: Op): Shape {
    match op
    case OpInsert(name, meta) => Insert(t, name, meta)
    case OpDelete(name) => Delete(t, name)
    case OpUpdate(name, meta) => Update(t, name, meta)
  }

  ghost function Run(t: Shape, ops: seq<Op>): Shape
    decreases |ops|
  {
    if ops == [] then t else Run(Apply(t, ops[0]), ops[1..])
  }

  /** The reference: the same run on a plain map, where a refused name is not stored. */
  function MapRun(m: map<string, FileMetadata>, ops: seq<Op>): map<string, FileMetadata>
    decreases |ops|
  {
    if ops == [] then m
    else
      var m' := match ops[0]
        case OpInsert(name, meta) => if Ascii(name) then m[name := meta] else m
        case OpDelete(name) => m - {name}
        case OpUpdate(name, meta) => if name in m then m[name := meta] else m;
      MapRun(m', ops[1..])
  }

  /** Over any run the trie stores what the plain map stores; and when every inserted name is 7-bit,
      the nodes are exactly the prefixes of the names. */
  lemma {:induction false} RunRefinesMap(t: Shape, ops: seq<Op>)
    requires Closed(t)
    ensures Closed(Run(t, ops)) && Run(t, ops).files == MapRun(t.files, ops)
    ensures Tight(t) && (forall i | 0 <= i < |ops| && ops[i].OpInsert? :: Ascii(ops[i].name)) ==> Tight(Run(t, ops))
    decreases |ops|
  {
    hide Closed, Insert, Delete, Update, Ascii, Tight;
    if ops == [] {
    } else {
      StepRefinesMap(t, ops[0]);
      RunRefinesMap(Apply(t, ops[0]), ops[1..]);
      assert forall i | 0 <= i < |ops[1..]| :: ops[1..][i] == ops[i + 1];
    }
  }

  /** From the empty trie. */
  lemma RunFromEmpty(ops: seq<Op>)
    ensures Run(EMPTY, ops).files == MapRun(map[], ops)
    ensures (forall i | 0 <= i < |ops| && ops[i].OpInsert? :: Ascii(ops[i].name)) ==> Tight(Run(EMPTY, ops))
  {
    EmptyTight();
    RunRefinesMap(EMPTY, ops);
  }

  lemma EmptyTight()
    ensures Closed(EMPTY) && Tight(EMPTY)
  {}

  lemma StepRefinesMap(t: Shape, op: Op)
    requires Closed(t)
    ensures Closed(Apply(t, op))
    ensures Apply(t, op).files == match op
      case OpInsert(name, meta) => if Ascii(name) then t.files[name := meta] else t.files
      case OpDelete(name) => t.files - {name}
      case OpUpdate(name, meta) => if name in t.files then t.files[name := meta] else t.files
    ensures Tight(t) && (op.OpInsert? ==> Ascii(op.name)) ==> Tight(Apply(t, op))
  {
    hide Delete, Ascii;
    match op
    case OpInsert(name, meta) =>
      InsertClosed(t, name, meta);
      if Tight(t) { InsertTight(t, name, meta); }
    case OpDelete(name) =>
      DeleteExact(t, name);
      if Tight(t) { DeleteTight(t, name); }
    case OpUpdate(name, meta) =>
      UpdateKeeps(t, name, meta);
  }

  lemma UpdateKeeps(t: Shape, name: string, meta: FileMetadata)
    ensures Closed(t) ==> Closed(Update(t, name, meta))
    ensures Tight(t) ==> Tight(Update(t, name, meta))
  {
    var t' := Update(t, name, meta);
    if Tight(t) {
      forall p: string ensures p in t'.nodes <==> p == "" || exists k :: k in t'.files && p <= k {
        assert forall k :: k in t'.files <==> k in t.files;
        if p in t.nodes && p != "" {
          var k :| k in t.files && p <= k;
          assert k in t'.files;
        }
        if exists k :: k in t'.files && p <= k {
          var k :| k in t'.files && p <= k;
          assert k in t.files;
        }
      }
    }
  }
}
