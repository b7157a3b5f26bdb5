/** `cache.c` as it is written: a doubly linked list between two sentinels, and a table of node
    pointers probed linearly.  Each operation is proved to be the one of CacheModel.dfy. */
module LruCaches {
  import opened Wrappers
  import opened CacheModel

  class CacheNode<V(0)> {
    const key: string
    var value: V
    var prev: CacheNode?<V>
    var next: CacheNode?<V>
    /** The table slot that points here. */
    ghost var slot: nat

    constructor (key: string, value: V)
      ensures this.key == key && this.value == value
    {
      this.key, this.value := key, value;
      prev, next := null, null;
    }
  }

  /** The nodes of `chain` are linked in this order, in both directions. */
  ghost predicate Linked<V(0)>(chain: seq<CacheNode<V>>)
    reads chain
  {
    && NoDuplicates(chain)
    && (forall j {:trigger chain[j].next} | 0 <= j < |chain| - 1 :: chain[j].next == chain[j + 1])
    && (forall j {:trigger chain[j].prev} | 0 < j < |chain| :: chain[j].prev == chain[j - 1])
  }

  /** `remove_node` */
  method RemoveNode<V(0)>(node: CacheNode<V>, ghost chain: seq<CacheNode<V>>, ghost k: nat)
    requires Linked(chain) && 0 < k < |chain| - 1 && chain[k] == node
    requires node.prev == chain[k - 1] && node.next == chain[k + 1]
    modifies node.prev`next, node.next`prev
    ensures Linked(Cut(chain, k))
  {
    node.prev.next := node.next;
    node.next.prev := node.prev;
    ghost var c := Cut(chain, k);
    CutDistinct(chain, k);
    forall j | 0 <= j < |c| - 1 ensures c[j].next == c[j + 1] {
      assert chain[if j < k then j else j + 1] == c[j];
    }
    forall j | 0 < j < |c| ensures c[j].prev == c[j - 1] {
      assert chain[if j < k then j else j + 1] == c[j];
    }
  }

  lemma CutDistinct<T>(s: seq<T>, k: nat)
    requires NoDuplicates(s) && k < |s|
    ensures NoDuplicates(Cut(s, k)) && s[k] !in Cut(s, k)
    ensures forall x :: x in Cut(s, k) <==> x in s && x != s[k]
  {
    var c := Cut(s, k);
    forall x | x in s && x != s[k] ensures x in c {
      var j :| 0 <= j < |s| && s[j] == x;
      assert c[if j < k then j else j - 1] == x;
    }
    forall i, j | 0 <= i < j < |c| ensures c[i] != c[j] {
      assert c[i] == s[if i < k then i else i + 1] && c[j] == s[if j < k then j else j + 1];
    }
    forall j | 0 <= j < |c| ensures c[j] != s[k] {
      assert c[j] == s[if j < k then j else j + 1];
    }
  }

  /** `add_to_head` */
  method AddToHead<V(0)>(node: CacheNode<V>, head: CacheNode<V>, ghost rest: seq<CacheNode<V>>)
    requires rest != [] && Linked([head] + rest) && node !in [head] + rest
    requires head.next == rest[0]
    modifies node`prev, node`next, head`next, head.next`prev
    ensures Linked([head] + ([node] + rest))
  {
    ghost var before := [head] + rest;
    assert forall j | 0 <= j < |rest| :: rest[j] == before[j + 1];
    node.next := head.next;
    node.prev := head;
    head.next.prev := node;
    head.next := node;
    ghost var c := [head] + ([node] + rest);
    assert forall j | 1 < j < |c| :: c[j] == before[j - 1];
    assert before[0] == head;
    forall i, j | 0 <= i < j < |c| ensures c[i] != c[j] {
      if i > 1 { assert c[i] == before[i - 1]; }
    }
    forall j | 0 <= j < |c| - 1 ensures c[j].next == c[j + 1] {
      if j > 1 { assert before[j - 1].next == before[j]; }
    }
    forall j | 0 < j < |c| ensures c[j].prev == c[j - 1] {
      if j > 2 {
        assert before[j - 1] != before[1];
        assert before[j - 1].prev == before[j - 2];
      }
    }
  }

  lemma ChainCut<T>(h: T, s: seq<T>, t: T, k: nat)
    requires k < |s|
    ensures [h] + (Cut(s, k) + [t]) == Cut([h] + (s + [t]), k + 1)
  {
    var c := [h] + (s + [t]);
    assert c[..k + 1] == [h] + s[..k];
    assert c[k + 2..] == s[k + 1..] + [t];
  }

  lemma {:induction false} WithoutAt<T>(s: seq<T>, k: nat)
    requires NoDuplicates(s) && k < |s|
    ensures Without(s, s[k]) == Cut(s, k)
  {
    if k > 0 {
      var rest := s[1..];
      assert forall j | 0 <= j < |rest| :: rest[j] == s[j + 1];
      WithoutAt(rest, k - 1);
      assert s[0] != s[k];
      assert Cut(s, k) == [s[0]] + Cut(rest, k - 1);
    } else {
      assert Cut(s, 0) == s[1..];
    }
  }

  class LruCache<V(0)> {
    const head: CacheNode<V>
    const tail: CacheNode<V>
    const hashTable: array<CacheNode?<V>>
    const capacity: nat
    const hash: string -> nat
    var size: nat

    /** The list between the sentinels, most recent first. */
    ghost var nodes: seq<CacheNode<V>>
    ghost var Repr: set<object>

    ghost function Chain(): seq<CacheNode<V>>
      reads this
    {
      [head] + (nodes + [tail])
    }

    /** The nodes on the list and the nodes in the table are the same, each exactly once. */
    ghost predicate TableOk()
      reads this, hashTable, nodes
    {
      && capacity == hashTable.Length
      && (forall n | n in nodes :: n.slot < capacity && hashTable[n.slot] == n)
      && (forall i | 0 <= i < capacity && hashTable[i] != null :: hashTable[i] in nodes && hashTable[i].slot == i)
    }

    ghost predicate Valid()
      reads this, Repr
      ensures Valid() ==> this in Repr
    {
      && this in Repr && hashTable in Repr && head in Repr && tail in Repr
      && (forall n | n in nodes :: n in Repr)
      && capacity == hashTable.Length > 0 && size == |nodes|
      && TableOk() && Linked(Chain())
    }

    /** The cache's abstract value. */
    ghost function View(): Cache<V>
      requires TableOk()
      reads this, hashTable, nodes
    {
      Cache(Entries(), Slots())
    }

    ghost function Entries(): Slots<V>
      requires TableOk()
      reads this, hashTable, nodes
    {
      seq(capacity, i requires 0 <= i < capacity && TableOk() reads this, hashTable, nodes =>
        if hashTable[i] == null then None else Some(Entry(hashTable[i].key, hashTable[i].value)))
    }

    /** The list as table slots. */
    ghost function Slots(): seq<nat>
      reads this, nodes
    {
      seq(|nodes|, j requires 0 <= j < |nodes| reads this, nodes => nodes[j].slot)
    }

    function HomeOf(key: string): (h: nat)
      requires capacity > 0
      ensures h < capacity
    {
      Home(hash, key, capacity)
    }

    lemma ViewOk()
      requires Valid()
      ensures CacheOk(View()) && |View().slots| == capacity && |View().order| == size
      ensures NoDuplicates(nodes) && head !in nodes && tail !in nodes && head != tail
    {
      var c, chain := View(), Chain();
      assert forall j | 0 <= j < |nodes| :: nodes[j] == chain[j + 1];
      assert chain[0] == head && chain[|chain| - 1] == tail;
      forall i, j | 0 <= i < j < |nodes| ensures nodes[i] != nodes[j] {
        assert chain[i + 1] != chain[j + 1];
      }
      forall i, j | 0 <= i < j < |c.order| ensures c.order[i] != c.order[j] {
        assert nodes[i] in nodes && nodes[j] in nodes;
      }
      forall i | 0 <= i < capacity && c.slots[i].Some? ensures i in c.order {
        var j :| 0 <= j < |nodes| && nodes[j] == hashTable[i];
        assert c.order[j] == i;
      }
      forall i | i in c.order ensures i < capacity && c.slots[i].Some? {
        var j :| 0 <= j < |nodes| && c.order[j] == i;
        assert nodes[j] in nodes;
      }
    }

    /** `init_cache` */
    constructor (capacity: nat, hash: string -> nat)
      requires capacity > 0
      ensures Valid() && fresh(Repr) && View() == EmptyCache(capacity)
      ensures this.capacity == capacity && this.hash == hash
    {
      var v: V := *;
      var h := new CacheNode("", v);
      var t := new CacheNode("", v);
      var table := new CacheNode?<V>[capacity](_ => null);
      h.next := t;
      t.prev := h;
      head, tail, hashTable := h, t, table;
      this.capacity, this.hash, size := capacity, hash, 0;
      nodes := [];
      Repr := {this, h, t, table};
      new;
      assert Chain() == [h, t];
      assert View().slots == EmptyCache<V>(capacity).slots;
    }

    /** Relinking does not touch the table. */
    twostate lemma SameTable()
      requires old(TableOk()) && unchanged(hashTable)
      requires forall n :: n in nodes <==> n in old(nodes)
      requires forall n | n in nodes :: n.slot == old(n.slot) && n.value == old(n.value)
      ensures TableOk() && Entries() == old(Entries())
    {
      forall i | 0 <= i < capacity ensures Entries()[i] == old(Entries())[i] {
        assert hashTable[i] == old(hashTable[i]);
      }
    }

    twostate lemma MovedSlots(k: nat)
      requires old(TableOk()) && NoDuplicates(old(Slots()))
      requires k < |old(nodes)| && nodes == [old(nodes)[k]] + Cut(old(nodes), k)
      requires forall n | n in nodes :: n.slot == old(n.slot)
      ensures Slots() == [old(nodes)[k].slot] + Without(old(Slots()), old(nodes)[k].slot)
    {
      WithoutAt(old(Slots()), k);
      assert old(Slots())[k] == old(nodes)[k].slot;
      forall j | 0 <= j < |nodes| ensures Slots()[j] == ([old(nodes)[k].slot] + Cut(old(Slots()), k))[j] {
        assert nodes[j] in nodes;
      }
    }

    /** `move_to_head` */
    method MoveToHead(node: CacheNode<V>, ghost k: nat)
      requires Valid() && k < |nodes| && nodes[k] == node
      modifies Repr
      ensures Valid() && Repr == old(Repr)
      ensures View() == old(View()).(order := [old(node.slot)] + Without(old(View().order), old(node.slot)))
    {
      ViewOk();
      hide TableOk, Linked, NoDuplicates, View;
      Relink(node, k);
      SameTable();
      MovedSlots(k);
    }

    /** The pointer part of moving a node to the front. */
    method Relink(node: CacheNode<V>, ghost k: nat)
      requires Valid() && k < |nodes| && nodes[k] == node
      requires NoDuplicates(nodes) && head !in nodes && tail !in nodes && head != tail
      modifies Repr
      ensures Repr == old(Repr) && size == old(size) && unchanged(hashTable)
      ensures nodes == [node] + Cut(old(nodes), k) && Linked(Chain())
      ensures forall n :: n in nodes <==> n in old(nodes)
      ensures forall n | n in nodes :: n.slot == old(n.slot) && n.value == old(n.value)
    {
      hide TableOk, View, Cut, NoDuplicates;
      ghost var chain, rest := Chain(), Cut(nodes, k) + [tail];
      LinksOf(k);
      RemoveNode(node, chain, k + 1);
      ChainCut(head, nodes, tail, k);
      assert head.next == rest[0] by {
        assert Cut(chain, k + 1)[0].next == Cut(chain, k + 1)[1];
      }
      CutDistinct(nodes, k);
      AddToHead(node, head, rest);
      nodes := [node] + Cut(nodes, k);
      CutDistinct(old(nodes), k);
      assert Chain() == [head] + ([node] + rest);
    }

    lemma LinksOf(k: nat)
      requires Valid() && k < |nodes|
      ensures nodes[k].prev == Chain()[k] && nodes[k].next == Chain()[k + 2] && Chain()[k + 1] == nodes[k]
      ensures Chain()[k] in Repr && Chain()[k + 2] in Repr
    {
      var chain := Chain();
      assert chain[k + 1].prev == chain[k] && chain[k + 1].next == chain[k + 2];
    }

    /** The probe loop of `cache_get` and `cache_remove`. */
    method Find(key: string) returns (slot: nat, node: CacheNode?<V>)
      requires Valid() && Probe(View().slots, key, HomeOf(key), 0) < capacity
      ensures slot == Target(View().slots, key, HomeOf(key)) && node == hashTable[slot]
      ensures node != null ==> node.key == key
    {
      hide Linked, Home;
      var home := HomeOf(key);
      ghost var v, j := View().slots, 0;
      slot := home;
      node := hashTable[slot];
      while node != null
        invariant j < capacity && slot == ProbeSlot(home, j, capacity) && node == hashTable[slot]
        invariant Probe(v, key, home, j) == Probe(v, key, home, 0)
        decreases capacity - j
      {
        if node.key == key {
          return;
        }
        Wrap(slot, capacity);
        slot := (slot + 1) % capacity;
        j := j + 1;
        node := hashTable[slot];
      }
    }

    /** `cache_get` */
    method Get(key: string) returns (result: Option<V>)
      requires Valid() && CanProbe(View(), key)
      modifies Repr
      ensures Valid() && Repr == old(Repr)
      ensures old(Probe(View().slots, key, HomeOf(key), 0)) < capacity
      ensures (View(), result) == CacheModel.Get(old(View()), key, HomeOf(key))
    {
      ViewOk();
      ProbeEnds(View(), key, HomeOf(key));
      hide Linked, Home, Probe, CanProbe, Without;
      var slot, node := Find(key);
      if node == null {
        return None;
      }
      ghost var k :| 0 <= k < |nodes| && nodes[k] == node;
      result := Some(node.value);
      MoveToHead(node, k);
    }

    /** `cache_remove` */
    method Remove(key: string)
      requires Valid() && CanProbe(View(), key)
      modifies Repr
      ensures Valid() && Repr == old(Repr)
      ensures old(Probe(View().slots, key, HomeOf(key), 0)) < capacity
      ensures View() == CacheModel.Remove(old(View()), key, HomeOf(key))
    {
      ViewOk();
      ProbeEnds(View(), key, HomeOf(key));
      hide Linked, Home, Probe, CanProbe;
      var slot, node := Find(key);
      if node != null {
        ghost var k :| 0 <= k < |nodes| && nodes[k] == node;
        RemoveFound(slot, node, k);
      }
    }

    /** The table after a node left the list and its slot was emptied. */
    twostate lemma CutTable(node: CacheNode<V>)
      requires old(TableOk()) && node in old(nodes)
      requires forall n :: n in nodes <==> n in old(nodes) && n != node
      requires hashTable[..] == old(hashTable[..])[old(node.slot) := null]
      requires forall n | n in nodes :: n.slot == old(n.slot) && n.value == old(n.value)
      ensures TableOk() && Entries() == old(Entries())[old(node.slot) := None]
    {
      forall i | 0 <= i < capacity ensures hashTable[i] == if i == old(node.slot) then null else old(hashTable[i]) {
        assert hashTable[i] == hashTable[..][i];
        assert old(hashTable[i]) == old(hashTable[..])[i];
      }
    }

    twostate lemma CutSlots(k: nat)
      requires NoDuplicates(old(Slots())) && k < |old(nodes)|
      requires nodes == Cut(old(nodes), k)
      requires forall n | n in old(nodes) :: n.slot == old(n.slot)
      ensures Slots() == Without(old(Slots()), old(nodes[k].slot))
    {
      WithoutAt(old(Slots()), k);
      assert old(Slots())[k] == old(nodes[k].slot);
      forall j | 0 <= j < |nodes| ensures Slots()[j] == Cut(old(Slots()), k)[j] {
        assert nodes[j] == old(nodes)[if j < k then j else j + 1];
      }
    }

    /** The pointer part of taking a node out. */
    method Unlink(node: CacheNode<V>, ghost k: nat)
      requires k < |nodes| && nodes[k] == node && size == |nodes| && Linked(Chain())
      requires node.prev == Chain()[k] && node.next == Chain()[k + 2] && Chain()[k + 1] == node
      modifies this`nodes, this`size, node.prev`next, node.next`prev
      ensures nodes == Cut(old(nodes), k) && size == |nodes| && Linked(Chain())
    {
      hide NoDuplicates, Cut, Linked;
      ghost var chain := Chain();
      RemoveNode(node, chain, k + 1);
      ChainCut(head, nodes, tail, k);
      nodes := Cut(nodes, k);
      size := size - 1;
    }

    method RemoveFound(slot: nat, node: CacheNode<V>, ghost k: nat)
      requires Valid() && k < |nodes| && nodes[k] == node && slot < hashTable.Length && hashTable[slot] == node
      requires node.slot == slot
      requires NoDuplicates(nodes) && NoDuplicates(Slots())
      modifies Repr
      ensures Valid() && Repr == old(Repr)
      ensures View() == Cache(old(Entries())[slot := None], Without(old(Slots()), slot))
    {
      hide Cut, Linked;
      LinksOf(k);
      hashTable[slot] := null;
      Unlink(node, k);
      CutDistinct(old(nodes), k);
      CutTable(node);
      CutSlots(k);
    }

    /** The first loop of `cache_put`. */
    method Search(key: string) returns (node: CacheNode?<V>)
      requires Valid() && Probe(View().slots, key, HomeOf(key), 0) < capacity
      ensures node == hashTable[Target(View().slots, key, HomeOf(key))]
      ensures node != null ==> node.key == key
    {
      hide Linked, Home;
      var home := HomeOf(key);
      ghost var v, j := View().slots, 0;
      var slot := home;
      node := hashTable[slot];
      while node != null
        invariant j < capacity && slot == ProbeSlot(home, j, capacity) && node == hashTable[slot]
        invariant Probe(v, key, home, j) == Probe(v, key, home, 0)
        decreases capacity - j
      {
        if node.key == key {
          return;
        }
        Wrap(slot, capacity);
        slot := (slot + 1) % capacity;
        j := j + 1;
        if slot == home {
          break;
        }
        node := hashTable[slot];
      }
    }

    /** The second loop of `cache_put`. */
    method FindEmpty(key: string) returns (slot: nat)
      requires Valid() && Probe(View().slots, key, HomeOf(key), 0) < capacity
      requires hashTable[Target(View().slots, key, HomeOf(key))] == null
      ensures slot == Target(View().slots, key, HomeOf(key))
    {
      hide Linked, Home;
      var home := HomeOf(key);
      ghost var v, j := View().slots, 0;
      ghost var r := Probe(v, key, home, 0);
      slot := home;
      while hashTable[slot] != null
        invariant j <= r && slot == ProbeSlot(home, j, capacity)
        decreases capacity - j
      {
        Wrap(slot, capacity);
        slot := (slot + 1) % capacity;
        j := j + 1;
      }
      assert v[ProbeSlot(home, j, capacity)].None?;
    }

    /** `cache_put`.  With a free slot, or the key in the table, neither loop runs full circle and
        the size never exceeds the capacity: the source's eviction is dead code. */
    method Put(key: string, value: V)
      requires Valid() && CanProbe(View(), key)
      modifies Repr
      ensures Valid() && fresh(Repr - old(Repr))
      ensures old(Probe(View().slots, key, HomeOf(key), 0)) < capacity
      ensures View() == CacheModel.Put(old(View()), key, HomeOf(key), value)
    {
      ViewOk();
      ProbeEnds(View(), key, HomeOf(key));
      hide Linked, HomeOf, Probe, CanProbe, Without, NoDuplicates;
      var node := Search(key);
      if node != null {
        ghost var k :| 0 <= k < |nodes| && nodes[k] == node;
        Overwrite(node, k, value);
        return;
      }
      PutNew(key, value);
    }

    /** The part of `cache_put` after the search: the key is absent. */
    method PutNew(key: string, value: V)
      requires Valid() && Probe(View().slots, key, HomeOf(key), 0) < capacity
      requires hashTable[Target(View().slots, key, HomeOf(key))] == null
      requires head !in nodes && tail !in nodes && head != tail
      modifies Repr
      ensures Valid() && fresh(Repr - old(Repr))
      ensures View() == CacheModel.Put(old(View()), key, HomeOf(key), value)
    {
      hide Linked, HomeOf, Probe, Without, NoDuplicates;
      var slot := FindEmpty(key);
      AbsentSlot(slot);
      InsertAt(slot, key, value);
      if size > capacity {
        assert false;
      }
    }

    lemma AbsentSlot(slot: nat)
      requires Valid() && slot < hashTable.Length && hashTable[slot] == null
      ensures Without(Slots(), slot) == Slots() && size < capacity
    {
      hide Without, Linked;
      forall j | 0 <= j < |nodes| ensures Slots()[j] != slot {
        assert nodes[j] in nodes;
      }
      WithoutAbsent(Slots(), slot);
      ViewOk();
      FreeSlot(View());
      assert View().slots[slot].None?;
    }

    method Overwrite(node: CacheNode<V>, ghost k: nat, value: V)
      requires Valid() && k < |nodes| && nodes[k] == node
      modifies Repr
      ensures Valid() && Repr == old(Repr)
      ensures View() == Cache(old(Entries())[old(node.slot) := Some(Entry(node.key, value))],
                              [old(node.slot)] + Without(old(Slots()), old(node.slot)))
    {
      hide Without;
      node.value := value;
      assert Entries() == old(Entries())[node.slot := Some(Entry(node.key, value))];
      assert Slots() == old(Slots());
      MoveToHead(node, k);
    }

    /** The pointer part of adding a node. */
    method Link(node: CacheNode<V>, slot: nat)
      requires Valid() && slot < hashTable.Length && hashTable[slot] == null
      requires node !in Chain() && node !in Repr && node.slot == slot
      requires head !in nodes && tail !in nodes && head != tail
      modifies Repr, node
      ensures Repr == old(Repr) + {node} && size == old(size) + 1
      ensures hashTable[..] == old(hashTable[..])[slot := node]
      ensures nodes == [node] + old(nodes) && Linked(Chain())
      ensures forall n | n in nodes :: n.slot == old(n.slot) && n.value == old(n.value)
    {
      hide TableOk, View, NoDuplicates;
      ghost var rest := nodes + [tail];
      assert Chain() == [head] + rest;
      assert head.next == rest[0] && rest[0] in Repr by {
        assert Chain()[0].next == Chain()[1];
        assert nodes != [] ==> nodes[0] in nodes;
      }
      hashTable[slot] := node;
      AddToHead(node, head, rest);
      nodes := [node] + nodes;
      assert Chain() == [head] + ([node] + rest);
      Repr := Repr + {node};
      size := size + 1;
    }

    /** The table after a node took the free slot `slot`. */
    twostate lemma AddedTable(new node: CacheNode<V>, slot: nat)
      requires old(TableOk()) && slot < capacity && old(hashTable[slot]) == null && node.slot == slot
      requires nodes == [node] + old(nodes)
      requires hashTable[..] == old(hashTable[..])[slot := node]
      requires forall n | n in old(nodes) :: n.slot == old(n.slot) && n.value == old(n.value)
      ensures TableOk() && Entries() == old(Entries())[slot := Some(Entry(node.key, node.value))]
      ensures Slots() == [slot] + old(Slots())
    {
      forall i | 0 <= i < capacity ensures hashTable[i] == if i == slot then node else old(hashTable[i]) {
        assert hashTable[i] == hashTable[..][i];
        assert old(hashTable[i]) == old(hashTable[..])[i];
      }
      assert forall n :: n in nodes <==> n == node || n in old(nodes);
      forall j | 0 < j < |nodes| ensures Slots()[j] == old(Slots())[j - 1] {
        assert nodes[j] == old(nodes)[j - 1];
      }
    }

    method InsertAt(slot: nat, key: string, value: V)
      requires Valid() && slot < hashTable.Length && hashTable[slot] == null
      requires head !in nodes && tail !in nodes && head != tail
      modifies Repr
      ensures Valid() && fresh(Repr - old(Repr)) && size == old(size) + 1
      ensures View() == Cache(old(Entries())[slot := Some(Entry(key, value))], [slot] + old(Slots()))
    {
      hide TableOk, Linked, Entries, Slots, NoDuplicates;
      var node := new CacheNode(key, value);
      node.slot := slot;
      label Made:
      Link(node, slot);
      AddedTable@Made(node, slot);
    }

    /** `cache_clear` */
    method Clear()
      requires Valid()
      modifies Repr
      ensures Valid() && Repr == old(Repr)
      ensures View() == EmptyCache(capacity)
    {
      ViewOk();
      head.next := tail;
      tail.prev := head;
      forall i | 0 <= i < hashTable.Length {
        hashTable[i] := null;
      }
      nodes, size := [], 0;
      assert Chain() == [head, tail];
      assert Entries() == EmptyCache<V>(capacity).slots;
    }
  }

  lemma {:induction false} WithoutAbsent<T>(s: seq<T>, x: T)
    requires x !in s
    ensures Without(s, x) == s
  {
    if s == [] {
    } else {
      WithoutAbsent(s[1..], x);
    }
  }

  /** Stepping to the next slot with `%` is wrapping round at the end. */
  lemma Wrap(slot: nat, n: nat)
    requires slot < n
    ensures (slot + 1) % n == if slot + 1 < n then slot + 1 else 0
  {}
}
