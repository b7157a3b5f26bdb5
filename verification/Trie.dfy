/** `trie.c` as it is written: nodes with one child pointer per character, changed in place.  Each
    operation is proved to be the one of TrieModel.dfy. */
module Tries {
  import opened Wrappers
  import opened Metadata
  import opened TrieModel
  import opened TrieListing

  class TrieNode {
    var children: seq<TrieNode?>
    var isEndOfWord: bool
    var fileMeta: Option<FileMetadata>
    ghost const path: string

    constructor (ghost path: string)
      ensures this.path == path && !isEndOfWord && fileMeta == None
      ensures |children| == ALPHABET_SIZE && forall c | 0 <= c < ALPHABET_SIZE :: children[c] == null
    {
      this.path := path;
      children := seq(ALPHABET_SIZE, _ => null);
      isEndOfWord, fileMeta := false, None;
    }
  }

  class Trie {
    const root: TrieNode
    /** The node at each path. */
    ghost var nodes: map<string, TrieNode>
    /** All nodes ever made, so that a node cut off stays in the frame. */
    ghost var Repr: set<TrieNode>

    /** A node is at its path, and its child pointers lead to the nodes one character further. */
    ghost predicate NodeOk(p: string)
      requires p in nodes
      reads this, nodes[p]
    {
      var n := nodes[p];
      && n.path == p
      && (n.isEndOfWord <==> n.fileMeta.Some?)
      && |n.children| == ALPHABET_SIZE
      && (forall c | 0 <= c < ALPHABET_SIZE ::
            n.children[c] == if Child(p, c) in nodes then nodes[Child(p, c)] else null)
    }

    ghost predicate Valid()
      reads this, Repr
    {
      && "" in nodes && nodes[""] == root
      && (forall p | p in nodes :: nodes[p] in Repr && NodeOk(p))
      && Closed(View())
    }

    ghost function View(): Shape
      reads this, nodes.Values
    {
      Shape(nodes.Keys, map p | p in nodes && nodes[p].fileMeta.Some? :: nodes[p].fileMeta.value)
    }

    /** `init_trie` */
    constructor ()
      ensures Valid() && fresh(Repr) && View() == EMPTY
    {
      root := new TrieNode("");
      nodes, Repr := map["" := root], {root};
    }

    /** Where the child pointer for the `i`-th character leads. */
    lemma StepNode(name: string, i: nat)
      requires Valid() && i < |name| && name[..i] in nodes
      ensures |nodes[name[..i]].children| == ALPHABET_SIZE && nodes[name[..i]] in Repr
      ensures name[i] as int < ALPHABET_SIZE ==> name[..i + 1] == Child(name[..i], name[i] as nat)
      ensures name[i] as int < ALPHABET_SIZE ==>
        nodes[name[..i]].children[name[i] as int] == if name[..i + 1] in nodes then nodes[name[..i + 1]] else null
      ensures name[i] as int >= ALPHABET_SIZE || name[..i + 1] !in nodes ==> name !in nodes
    {
      assert NodeOk(name[..i]);
      if name in nodes {
        PrefixIn(View(), name, i + 1);
        NodeAscii(View(), name);
      }
    }

    method AddChild(node: TrieNode, ghost p: string, c: nat) returns (child: TrieNode)
      requires Valid() && p in nodes && nodes[p] == node && c < ALPHABET_SIZE && Child(p, c) !in nodes
      modifies this`nodes, this`Repr, node`children
      ensures Valid() && fresh(child) && Repr == old(Repr) + {child} && nodes == old(nodes)[Child(p, c) := child]
      ensures View() == Shape(old(View().nodes) + {Child(p, c)}, old(View().files))
    {
      hide Closed;
      child := new TrieNode(Child(p, c));
      node.children := node.children[c := child];
      nodes, Repr := nodes[Child(p, c) := child], Repr + {child};
      AddedChild(child, node, p, c);
    }

    /** The nodes after a child was hung below the node at `p`. */
    twostate lemma AddedChild(new child: TrieNode, node: TrieNode, new p: string, new c: nat)
      requires old(Valid()) && p in old(nodes) && old(nodes)[p] == node && c < ALPHABET_SIZE
      requires Child(p, c) !in old(nodes) && nodes == old(nodes)[Child(p, c) := child]
      requires Repr == old(Repr) + {child}
      requires child.path == Child(p, c) && !child.isEndOfWord && child.fileMeta == None
      requires |child.children| == ALPHABET_SIZE && forall d | 0 <= d < ALPHABET_SIZE :: child.children[d] == null
      requires node.children == old(node.children)[c := child] && node != child
      requires node.isEndOfWord == old(node.isEndOfWord) && node.fileMeta == old(node.fileMeta)
      requires forall q | q in old(nodes) && q != p :: unchanged(old(nodes)[q])
      ensures Valid() && View() == Shape(old(View().nodes) + {Child(p, c)}, old(View().files))
    {
      hide Closed;
      AddClosed(old(View()), p, c);
      forall q | q in nodes ensures nodes[q] in Repr && NodeOk(q) {
        AddedNodeOk(child, node, p, c, q);
      }
      assert View().nodes == old(View().nodes) + {Child(p, c)};
      forall q | q in nodes ensures q != Child(p, c) ==> nodes[q].fileMeta == old(nodes[q].fileMeta) {}
      assert View().files == old(View().files);
    }

    twostate lemma AddedNodeOk(new child: TrieNode, node: TrieNode, new p: string, new c: nat, new q: string)
      requires old(Valid()) && p in old(nodes) && old(nodes)[p] == node && c < ALPHABET_SIZE
      requires Child(p, c) !in old(nodes) && nodes == old(nodes)[Child(p, c) := child] && q in nodes
      requires child.path == Child(p, c) && !child.isEndOfWord && child.fileMeta == None
      requires |child.children| == ALPHABET_SIZE && forall d | 0 <= d < ALPHABET_SIZE :: child.children[d] == null
      requires node.children == old(node.children)[c := child]
      requires node.isEndOfWord == old(node.isEndOfWord) && node.fileMeta == old(node.fileMeta)
      requires forall q | q in old(nodes) && q != p :: unchanged(old(nodes)[q])
      ensures NodeOk(q)
    {
      forall d | 0 <= d < ALPHABET_SIZE
        ensures nodes[q].children[d] == if Child(q, d) in nodes then nodes[Child(q, d)] else null
      {
        ChildInjective(p, c, q, d);
        if q == Child(p, c) {
          NoNodeBelow(old(View()), q, d);
        } else {
          assert old(NodeOk(q));
        }
      }
      if q != Child(p, c) { assert old(NodeOk(q)); }
    }

    /** The child for a character, made if it is missing. */
    method Advance(node: TrieNode, ghost p: string, c: nat) returns (next: TrieNode)
      requires Valid() && p in nodes && nodes[p] == node && c < ALPHABET_SIZE
      modifies this`nodes, this`Repr, node`children
      ensures Valid() && fresh(Repr - old(Repr))
      ensures Child(p, c) in nodes && nodes[Child(p, c)] == next && next in Repr
      ensures View() == Shape(old(View().nodes) + {Child(p, c)}, old(View().files))
    {
      hide Closed;
      assert NodeOk(p);
      if node.children[c] == null {
        next := AddChild(node, p, c);
      } else {
        next := node.children[c];
      }
    }

    /** Storing or clearing the metadata of the node at `p`. */
    method SetMeta(node: TrieNode, ghost p: string, meta: Option<FileMetadata>)
      requires Valid() && p in nodes && nodes[p] == node
      modifies node`isEndOfWord, node`fileMeta
      ensures Valid() && Repr == old(Repr) && nodes == old(nodes) && View().nodes == old(View().nodes)
      ensures View().files == if meta.Some? then old(View().files)[p := meta.value] else old(View().files) - {p}
    {
      node.isEndOfWord := meta.Some?;
      node.fileMeta := meta;
      MetaSet(node, p);
    }

    twostate lemma MetaSet(node: TrieNode, new p: string)
      requires old(Valid()) && p in old(nodes) && old(nodes)[p] == node && nodes == old(nodes) && Repr == old(Repr)
      requires node.children == old(node.children) && (node.isEndOfWord <==> node.fileMeta.Some?)
      requires forall q | q in nodes && nodes[q] != node :: unchanged(nodes[q])
      ensures Valid() && View().nodes == old(View().nodes)
      ensures View().files ==
        if node.fileMeta.Some? then old(View().files)[p := node.fileMeta.value] else old(View().files) - {p}
    {
      hide Child, Ascii, NodeOk, Closed;
      forall q | q in nodes ensures nodes[q] in Repr && NodeOk(q) && (q != p ==> nodes[q].fileMeta == old(nodes[q].fileMeta)) {
        MetaNodeOk(node, p, q);
      }
      assert View().nodes == old(View().nodes);
      if node.fileMeta.Some? {
        assert View().files == old(View().files)[p := node.fileMeta.value];
      } else {
        assert View().files == old(View().files) - {p};
      }
      MetaClosed(old(View()), View(), p);
    }

    twostate lemma MetaNodeOk(node: TrieNode, new p: string, new q: string)
      requires old(Valid()) && p in old(nodes) && old(nodes)[p] == node && nodes == old(nodes) && q in nodes
      requires node.children == old(node.children) && (node.isEndOfWord <==> node.fileMeta.Some?)
      requires forall q | q in nodes && nodes[q] != node :: unchanged(nodes[q])
      ensures NodeOk(q) && (q != p ==> nodes[q].fileMeta == old(nodes[q].fileMeta))
    {
      hide Child, Ascii, Closed;
      assert old(NodeOk(p)) && old(NodeOk(q));
    }

    lemma AtRoot()
      requires Valid()
      ensures "" in nodes && nodes[""] == root && root in Repr && Closed(View())
    {}

    /** The loop of `trie_insert`; null when the name is refused. */
    method Descend(filename: string) returns (current: TrieNode?)
      requires Valid()
      modifies this, Repr
      ensures Valid() && fresh(Repr - old(Repr))
      ensures View() == Grown(old(View()), filename[..AsciiLength(filename)])
      ensures current != null <==> Ascii(filename)
      ensures current != null ==> filename in nodes && nodes[filename] == current && current in Repr
    {
      AtRoot();
      hide Closed, Ascii, AsciiLength, Valid, View, NodeOk, Child, Grown;
      GrownFrom(View(), filename);
      current := root;
      for i := 0 to |filename|
        invariant Valid() && fresh(Repr - old(Repr))
        invariant filename[..i] in nodes && nodes[filename[..i]] == current && current in Repr
        invariant Ascii(filename[..i])
        invariant View() == Grown(old(View()), filename[..i])
      {
        GrownStep(old(View()), filename, i);
        var index := filename[i] as int;
        if index >= ALPHABET_SIZE {
          return null;
        }
        current := Advance(current, filename[..i], index);
      }
      WholeAscii(filename);
      assert filename[..|filename|] == filename;
    }

    /** `trie_insert` */
    method Insert(filename: string, meta: FileMetadata) returns (ok: bool)
      requires Valid()
      modifies this, Repr
      ensures Valid() && fresh(Repr - old(Repr))
      ensures ok == Ascii(filename) && View() == TrieModel.Insert(old(View()), filename, meta)
    {
      hide Closed, Ascii, AsciiLength, Valid, View, NodeOk, Prefixes;
      var current := Descend(filename);
      if current == null {
        return false;
      }
      SetMeta(current, filename, Some(meta));
      ok := true;
    }

    /** The loop of `trie_search` and `trie_update`. */
    method Walk(filename: string) returns (current: TrieNode?)
      requires Valid()
      ensures current == if filename in nodes then nodes[filename] else null
    {
      hide Closed;
      current := root;
      for i := 0 to |filename|
        invariant filename[..i] in nodes && nodes[filename[..i]] == current
      {
        StepNode(filename, i);
        var index := filename[i] as int;
        if index >= ALPHABET_SIZE || current.children[index] == null {
          return null;
        }
        current := current.children[index];
      }
      assert filename[..|filename|] == filename;
    }

    /** `trie_search` */
    method Search(filename: string) returns (result: Option<FileMetadata>)
      requires Valid()
      ensures result == if filename in View().files then Some(View().files[filename]) else None
    {
      hide Closed;
      var current := Walk(filename);
      assert filename in nodes ==> NodeOk(filename);
      result := if current != null && current.isEndOfWord && current.fileMeta.Some? then current.fileMeta else None;
    }

    /** `trie_update` */
    method Update(filename: string, meta: FileMetadata) returns (ok: bool)
      requires Valid()
      modifies Repr
      ensures Valid() && Repr == old(Repr) && nodes == old(nodes)
      ensures ok == (filename in old(View().files)) && View() == TrieModel.Update(old(View()), filename, meta)
    {
      hide Closed;
      var current := Walk(filename);
      assert filename in nodes ==> NodeOk(filename);
      ok := current != null && current.isEndOfWord && current.fileMeta.Some?;
      if ok {
        SetMeta(current, filename, Some(meta));
      }
    }

    /** The loops that look for a remaining child. */
    method HasNoChild(node: TrieNode, ghost p: string) returns (leaf: bool)
      requires Valid() && p in nodes && nodes[p] == node
      ensures leaf <==> Leaf(View(), p)
    {
      hide Closed;
      assert NodeOk(p);
      for i := 0 to ALPHABET_SIZE
        invariant forall c: nat | c < i :: Child(p, c) !in nodes
      {
        if node.children[i] != null {
          assert Child(p, i) in nodes;
          return false;
        }
      }
      leaf := true;
    }

    /** Cutting off a node without children that ends no name. */
    method RemoveChild(node: TrieNode, ghost p: string, c: nat)
      requires Valid() && p in nodes && nodes[p] == node && c < ALPHABET_SIZE
      requires Child(p, c) in nodes && Child(p, c) !in View().files && Leaf(View(), Child(p, c))
      modifies this`nodes, node`children
      ensures Valid() && nodes == old(nodes) - {Child(p, c)}
      ensures View() == Shape(old(View().nodes) - {Child(p, c)}, old(View().files))
    {
      hide Closed, Child;
      assert NodeOk(p);
      node.children := node.children[c := null];
      nodes := nodes - {Child(p, c)};
      RemovedChild(node, p, c);
    }

    twostate lemma RemovedChild(node: TrieNode, new p: string, new c: nat)
      requires old(Valid()) && p in old(nodes) && old(nodes)[p] == node && c < ALPHABET_SIZE
      requires Child(p, c) in old(nodes) && Child(p, c) !in old(View()).files && Leaf(old(View()), Child(p, c))
      requires nodes == old(nodes) - {Child(p, c)} && Repr == old(Repr)
      requires |old(node.children)| == ALPHABET_SIZE && node.children == old(node.children)[c := null]
      requires node.isEndOfWord == old(node.isEndOfWord) && node.fileMeta == old(node.fileMeta)
      requires forall q | q in old(nodes) && old(nodes)[q] != node :: unchanged(old(nodes)[q])
      ensures Valid() && View() == Shape(old(View().nodes) - {Child(p, c)}, old(View().files))
    {
      hide Closed, Child, NodeOk, Leaf;
      RemoveClosed(old(View()), p, c);
      forall q | q in nodes ensures nodes[q] in Repr && NodeOk(q) && nodes[q].fileMeta == old(nodes[q].fileMeta) {
        RemovedNodeOk(node, p, c, q);
      }
      assert View().nodes == old(View().nodes) - {Child(p, c)};
      assert View().files == old(View().files);
      assert "" != Child(p, c) by { ChildNotRoot(p, c); }
    }

    twostate lemma RemovedNodeOk(node: TrieNode, new p: string, new c: nat, new q: string)
      requires old(Valid()) && p in old(nodes) && old(nodes)[p] == node && c < ALPHABET_SIZE
      requires nodes == old(nodes) - {Child(p, c)} && q in nodes
      requires |old(node.children)| == ALPHABET_SIZE && node.children == old(node.children)[c := null]
      requires node.isEndOfWord == old(node.isEndOfWord) && node.fileMeta == old(node.fileMeta)
      requires forall q | q in old(nodes) && old(nodes)[q] != node :: unchanged(old(nodes)[q])
      ensures NodeOk(q) && nodes[q].fileMeta == old(nodes[q].fileMeta)
    {
      hide Closed, Child;
      assert old(NodeOk(p)) && old(NodeOk(q));
      forall d | 0 <= d < ALPHABET_SIZE
        ensures nodes[q].children[d] == if Child(q, d) in nodes then nodes[Child(q, d)] else null
      {
        ChildInjective(p, c, q, d);
      }
    }

    lemma EndIsFile(p: string)
      requires Valid() && p in nodes
      ensures nodes[p].isEndOfWord <==> p in View().files
    {
      assert NodeOk(p);
    }

    /** The end of the name in `trie_delete_helper`. */
    method ClearEnd(node: TrieNode, ghost p: string) returns (cut: bool)
      requires Valid() && p in nodes && nodes[p] == node
      modifies node`isEndOfWord, node`fileMeta
      ensures Valid() && Repr == old(Repr) && nodes == old(nodes)
      ensures View() == Shape(old(View().nodes), old(View().files) - {p}) && (cut <==> Leaf(old(View()), p))
    {
      hide Closed, Leaf, Child;
      assert NodeOk(p);
      if node.isEndOfWord {
        SetMeta(node, p, None);
      } else {
        assert View().files == View().files - {p};
      }
      cut := HasNoChild(node, p);
      assert Leaf(View(), p) <==> Leaf(old(View()), p) by { LeafByNodes(View(), old(View()), p); }
    }

    /** `trie_delete_helper` */
    method DeleteHelper(node: TrieNode?, filename: string, depth: nat) returns (cut: bool)
      requires Valid() && depth <= |filename|
      requires node == if filename[..depth] in nodes then nodes[filename[..depth]] else null
      modifies this`nodes, Repr
      ensures Valid() && Repr == old(Repr)
      ensures (View(), cut) == Prune(old(View()), filename, depth)
      ensures forall q | q in nodes :: q in old(nodes) && nodes[q] == old(nodes)[q]
      decreases |filename| - depth
    {
      hide Closed, Leaf, Child, NodeOk;
      if node == null {
        return false;
      }
      assert filename[..|filename|] == filename;
      if depth == |filename| {
        cut := ClearEnd(node, filename);
        return;
      }
      StepNode(filename, depth);
      var index := filename[depth] as int;
      if index >= ALPHABET_SIZE {
        return false;
      }
      var cutBelow := DeleteHelper(node.children[index], filename, depth + 1);
      PruneCut(old(View()), filename, depth + 1);
      assert filename[..depth] in View().nodes;
      if cutBelow {
        RemoveChild(node, filename[..depth], index);
        EndIsFile(filename[..depth]);
        if !node.isEndOfWord {
          cut := HasNoChild(node, filename[..depth]);
          return;
        }
      }
      cut := false;
    }

    /** `trie_delete` */
    method Delete(filename: string)
      requires Valid()
      modifies this`nodes, Repr
      ensures Valid() && Repr == old(Repr)
      ensures View() == TrieModel.Delete(old(View()), filename)
    {
      AtRoot();
      hide Valid, View;
      assert filename[..0] == "";
      var _ := DeleteHelper(root, filename, 0);
    }

    /** `trie_collect_files`: at most `maxFiles` entries, in listing order. */
    method CollectFiles(node: TrieNode, ghost p: string, files: array<FileMetadata>, count: nat, maxFiles: nat)
      returns (newCount: nat)
      requires Valid() && p in nodes && nodes[p] == node && count <= maxFiles <= files.Length
      modifies files
      ensures newCount <= maxFiles
      ensures files[..newCount] == Collected(View(), p, old(files[..count]), maxFiles)
      decreases Below(View(), p), ALPHABET_SIZE + 1
    {
      hide Valid, NodeOk, View, Collected, CollectedFrom, Child;
      OwnMeta(p);
      ghost var t := View();
      CollectedSteps(t, p, files[..count], maxFiles);
      if count >= maxFiles {
        return count;
      }
      newCount := count;
      if node.isEndOfWord && node.fileMeta.Some? {
        files[newCount] := node.fileMeta.value;
        newCount := newCount + 1;
        assert files[..newCount] == old(files[..count]) + [node.fileMeta.value];
      }
      for i := 0 to ALPHABET_SIZE
        invariant newCount <= maxFiles
        invariant CollectedFrom(t, p, i, files[..newCount], maxFiles) == Collected(t, p, old(files[..count]), maxFiles)
      {
        ChildNode(p, i);
        CollectedStep(t, p, i, files[..newCount], maxFiles);
        if node.children[i] != null {
          ChildBelow(t, p, i);
          newCount := CollectFiles(node.children[i], Child(p, i), files, newCount, maxFiles);
        }
      }
      CollectedEnd(t, p, files[..newCount], maxFiles);
    }

    lemma OwnMeta(p: string)
      requires Valid() && p in nodes
      ensures p in View().nodes
      ensures nodes[p].isEndOfWord && nodes[p].fileMeta.Some? <==> p in View().files
      ensures p in View().files ==> View().files[p] == nodes[p].fileMeta.value
    {
      assert NodeOk(p);
    }

    lemma ChildNode(p: string, c: nat)
      requires Valid() && p in nodes && c < ALPHABET_SIZE
      ensures |nodes[p].children| == ALPHABET_SIZE && (Child(p, c) in nodes <==> Child(p, c) in View().nodes)
      ensures nodes[p].children[c] == if Child(p, c) in nodes then nodes[Child(p, c)] else null
    {
      assert NodeOk(p);
    }

    /** `trie_get_all_files`: the first entries in listing order. */
    method GetAllFiles(files: array<FileMetadata>, maxFiles: nat) returns (count: nat)
      requires Valid() && maxFiles <= files.Length
      modifies files
      ensures count <= maxFiles
      ensures files[..count] == Take(Values(View(), Listing(View())), maxFiles)
    {
      AtRoot();
      hide Valid, View, Collected;
      count := CollectFiles(root, "", files, 0, maxFiles);
      CollectedAll(View(), maxFiles);
    }
  }

  /** The metadata stored under each name. */
  ghost function Values(t: Shape, names: seq<string>): (r: seq<FileMetadata>)
    requires forall k | k in names :: k in t.files
    ensures |r| == |names|
  {
    seq(|names|, i requires 0 <= i < |names| => t.files[names[i]])
  }

  lemma ValuesJoin(t: Shape, a: seq<string>, b: seq<string>)
    requires forall k | k in a :: k in t.files
    requires forall k | k in b :: k in t.files
    ensures Values(t, a + b) == Values(t, a) + Values(t, b)
  {}

  /** What the collection at `p` leaves in a buffer for `n` entries that starts with `done`. */
  ghost function Collected(t: Shape, p: string, done: seq<FileMetadata>, n: nat): seq<FileMetadata>
    requires p in t.nodes
  {
    Take(done + Values(t, Under(t, p)), n)
  }

  ghost function CollectedFrom(t: Shape, p: string, c: nat, done: seq<FileMetadata>, n: nat): seq<FileMetadata>
    requires p in t.nodes && c <= ALPHABET_SIZE
  {
    Take(done + Values(t, UnderFrom(t, p, c)), n)
  }

  lemma CollectedAll(t: Shape, n: nat)
    requires Closed(t)
    ensures Collected(t, "", [], n) == Take(Values(t, Listing(t)), n)
  {
    assert [] + Values(t, Listing(t)) == Values(t, Listing(t));
  }

  /** A full buffer stays as it is; otherwise the node's own entry comes first. */
  lemma CollectedSteps(t: Shape, p: string, done: seq<FileMetadata>, n: nat)
    requires p in t.nodes && |done| <= n
    ensures |done| == n ==> Collected(t, p, done, n) == done
    ensures p in t.files ==> CollectedFrom(t, p, 0, done + [t.files[p]], n) == Collected(t, p, done, n)
    ensures p !in t.files ==> CollectedFrom(t, p, 0, done, n) == Collected(t, p, done, n)
  {
    var own, rest := if p in t.files then [p] else [], UnderFrom(t, p, 0);
    ValuesJoin(t, own, rest);
    if p in t.files {
      assert Values(t, own) == [t.files[p]];
      assert done + [t.files[p]] + Values(t, rest) == done + (Values(t, own) + Values(t, rest));
    } else {
      assert own + rest == rest;
    }
  }

  lemma CollectedStep(t: Shape, p: string, c: nat, done: seq<FileMetadata>, n: nat)
    requires p in t.nodes && c < ALPHABET_SIZE
    ensures Child(p, c) !in t.nodes ==> CollectedFrom(t, p, c + 1, done, n) == CollectedFrom(t, p, c, done, n)
    ensures Child(p, c) in t.nodes ==>
      CollectedFrom(t, p, c + 1, Collected(t, Child(p, c), done, n), n) == CollectedFrom(t, p, c, done, n)
  {
    var rest := UnderFrom(t, p, c + 1);
    if Child(p, c) in t.nodes {
      var child := Under(t, Child(p, c));
      ChildBelow(t, p, c);
      assert UnderFrom(t, p, c) == child + rest;
      ValuesJoin(t, child, rest);
      TakeTwice(done, Values(t, child), Values(t, rest), n);
    } else {
      assert UnderFrom(t, p, c) == rest;
    }
  }

  lemma CollectedEnd(t: Shape, p: string, done: seq<FileMetadata>, n: nat)
    requires p in t.nodes && |done| <= n
    ensures CollectedFrom(t, p, ALPHABET_SIZE, done, n) == done
  {}

  lemma TakeTwice<T>(a: seq<T>, b: seq<T>, c: seq<T>, n: nat)
    ensures Take(Take(a + b, n) + c, n) == Take(a + (b + c), n)
  {
    assert a + b + c == a + (b + c);
  }

  /** A node reported for cutting is still there, without children and without a name. */
  lemma PruneCut(t: Shape, name: string, depth: nat)
    requires depth <= |name| && Closed(t)
    ensures var (r, cut) := Prune(t, name, depth);
      && (cut ==> name[..depth] in r.nodes && name[..depth] !in r.files && Leaf(r, name[..depth]))
      && (forall p | p in t.nodes && |p| <= depth :: p in r.nodes)
  {
    PruneFrame(t, name, depth);
    assert name[..|name|] == name;
  }

  lemma LeafByNodes(t: Shape, t': Shape, p: string)
    requires t.nodes == t'.nodes
    ensures Leaf(t, p) <==> Leaf(t', p)
  {}

  lemma ChildNotRoot(p: string, c: nat)
    requires c < ALPHABET_SIZE
    ensures Child(p, c) != ""
  {}

  lemma ParentNotLeaf(t: Shape, q: string)
    requires Closed(t) && q in t.nodes && q != ""
    ensures !Leaf(t, Parent(q))
  {
    assert q == Child(Parent(q), q[|q| - 1] as nat);
  }

  lemma RemoveClosed(t: Shape, p: string, c: nat)
    requires Closed(t) && c < ALPHABET_SIZE && Leaf(t, Child(p, c)) && Child(p, c) !in t.files
    ensures Closed(Shape(t.nodes - {Child(p, c)}, t.files))
  {
    var x := Child(p, c);
    forall q | q in t.nodes && q != x && q != "" ensures Parent(q) != x {
      ParentNotLeaf(t, q);
    }
  }

  lemma ChildInjective(p: string, c: nat, q: string, d: nat)
    requires c < ALPHABET_SIZE && d < ALPHABET_SIZE
    ensures Child(p, c) == Child(q, d) ==> p == q && c == d
  {
    assert Child(p, c)[..|p|] == p && Child(q, d)[..|q|] == q;
    assert Child(p, c)[|p|] as int == c && Child(q, d)[|q|] as int == d;
  }

  lemma NoNodeBelow(t: Shape, q: string, d: nat)
    requires Closed(t) && q !in t.nodes && d < ALPHABET_SIZE
    ensures Child(q, d) !in t.nodes && Child(q, d) != q
  {
    assert Parent(Child(q, d)) == q;
  }

  lemma MetaClosed(t: Shape, t': Shape, p: string)
    requires Closed(t) && p in t.nodes && t'.nodes == t.nodes && t'.files.Keys <= t.files.Keys + {p}
    ensures Closed(t')
  {}

  lemma AddClosed(t: Shape, p: string, c: nat)
    requires Closed(t) && p in t.nodes && c < ALPHABET_SIZE
    ensures Closed(Shape(t.nodes + {Child(p, c)}, t.files))
  {
    assert Parent(Child(p, c)) == p;
  }

  function Grown(t: Shape, name: string): Shape {
    Shape(t.nodes + Prefixes(name), t.files)
  }

  lemma GrownFrom(t: Shape, name: string)
    requires Closed(t)
    ensures name[..0] == "" && Ascii(name[..0]) && Grown(t, name[..0]) == t
  {
    assert name[..0] == "";
    assert t.nodes + Prefixes("") == t.nodes;
  }

  lemma GrownStep(t: Shape, name: string, i: nat)
    requires i < |name| && Ascii(name[..i])
    ensures name[i] as int < ALPHABET_SIZE ==>
      && name[..i + 1] == Child(name[..i], name[i] as nat) && Ascii(name[..i + 1])
      && Grown(t, name[..i + 1]) == Shape(Grown(t, name[..i]).nodes + {name[..i + 1]}, t.files)
    ensures name[i] as int >= ALPHABET_SIZE ==> !Ascii(name) && AsciiLength(name) == i
  {
    hide AsciiLength, Prefixes, Ascii, Child;
    if name[i] as int >= ALPHABET_SIZE {
      FirstForeign(name, i);
    } else {
      AsciiGrow(name[..i], name[..i + 1]);
    }
    PrefixesGrow(name[..i], name[..i + 1]);
  }

  lemma AsciiGrow(a: string, b: string)
    requires |b| == |a| + 1 && a == b[..|a|] && Ascii(a) && b[|a|] as int < ALPHABET_SIZE
    ensures Ascii(b) && b == Child(a, b[|a|] as nat)
  {
    assert forall j | 0 <= j < |a| :: b[j] == a[j];
  }

  lemma PrefixesGrow(a: string, b: string)
    requires |b| == |a| + 1 && a == b[..|a|]
    ensures Prefixes(b) == Prefixes(a) + {b}
  {
    assert forall j | 0 <= j <= |a| :: b[..j] == a[..j];
    assert b[..|b|] == b;
    forall p | p in Prefixes(b) ensures p in Prefixes(a) + {b} {
      var j :| 0 <= j <= |b| && p == b[..j];
      assert j <= |a| ==> a[..j] == p;
    }
    forall p | p in Prefixes(a) ensures p in Prefixes(b) {
      var j :| 0 <= j <= |a| && p == a[..j];
      assert b[..j] == p;
    }
  }

  lemma {:induction false} FirstForeign(name: string, i: nat)
    requires i < |name| && Ascii(name[..i]) && name[i] as int >= ALPHABET_SIZE
    ensures AsciiLength(name) == i && !Ascii(name)
  {
    if i == 0 {
    } else {
      assert name[..i][0] == name[0];
      assert name[1..][..i - 1] == name[..i][1..];
      FirstForeign(name[1..], i - 1);
    }
  }
}
