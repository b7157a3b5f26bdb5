/** The name server's cache (`cache.c`) on values: a table probed linearly from a key's home slot,
    without tombstones, and the recency list as a sequence of slots, most recent first. */
module CacheModel {
  import opened Wrappers

  datatype Entry<V> = Entry(key: string, value: V)

  type Slots<V> = seq<Option<Entry<V>>>

  datatype Cache<V> = Cache(slots: Slots<V>, order: seq<nat>)

  /** The `j`-th slot of the probe sequence that starts at `home`, in a table of `n` slots. */
  function ProbeSlot(home: nat, j: nat, n: nat): (i: nat)
    requires home < n && j < n
    ensures i < n && i == (home + j) % n
  {
    if home + j < n then home + j else home + j - n
  }

  /** The step of the probe sequence that reaches slot `i`. */
  function StepTo(home: nat, i: nat, n: nat): (j: nat)
    requires home < n && i < n
    ensures j < n && ProbeSlot(home, j, n) == i
  {
    if home <= i then i - home else i + n - home
  }

  predicate Holds<V>(slots: Slots<V>, i: nat, key: string)
    requires i < |slots|
  {
    slots[i].Some? && slots[i].value.key == key
  }

  /** The first step at or after `j` that finds the key or an empty slot; the number of slots
      when there is none, in which case the loops of the source do not end. */
  function Probe<V>(slots: Slots<V>, key: string, home: nat, j: nat): (r: nat)
    requires home < |slots| && j <= |slots|
    ensures j <= r <= |slots|
    ensures r < |slots| ==>
      var i := ProbeSlot(home, r, |slots|); slots[i].None? || slots[i].value.key == key
    ensures forall k | j <= k < r ::
      var i := ProbeSlot(home, k, |slots|); slots[i].Some? && slots[i].value.key != key
    decreases |slots| - j
  {
    if j == |slots| then j
    else
      var i := ProbeSlot(home, j, |slots|);
      if slots[i].None? || slots[i].value.key == key then j else Probe(slots, key, home, j + 1)
  }

  /** The slot that the operations on `key` settle on. */
  function Target<V>(slots: Slots<V>, key: string, home: nat): nat
    requires home < |slots| && Probe(slots, key, home, 0) < |slots|
    ensures Target(slots, key, home) < |slots|
  {
    ProbeSlot(home, Probe(slots, key, home, 0), |slots|)
  }

  /** The sequence without the first occurrence of `x`. */
  function Without<T(==)>(s: seq<T>, x: T): seq<T> {
    if s == [] then []
    else if s[0] == x then s[1..]
    else [s[0]] + Without(s[1..], x)
  }

  predicate NoDuplicates<T(==)>(s: seq<T>) {
    forall i, j | 0 <= i < j < |s| :: s[i] != s[j]
  }

  /** The list and the table hold the same entries, each exactly once. */
  predicate CacheOk<V>(c: Cache<V>) {
    && |c.slots| > 0
    && NoDuplicates(c.order)
    && (forall i | i in c.order :: i < |c.slots| && c.slots[i].Some?)
    && (forall i | 0 <= i < |c.slots| && c.slots[i].Some? :: i in c.order)
  }

  predicate Present<V>(slots: Slots<V>, key: string) {
    exists i :: 0 <= i < |slots| && Holds(slots, i, key)
  }

  /** A free slot, or the key itself, ends the probing. */
  predicate CanProbe<V>(c: Cache<V>, key: string) {
    |c.order| < |c.slots| || Present(c.slots, key)
  }

  /* ---- Operations ---- */

  function EmptyCache<V>(n: nat): Cache<V> {
    Cache(seq(n, _ => None), [])
  }

  /** `cache_get`: a hit moves the entry to the front of the list. */
  function Get<V>(c: Cache<V>, key: string, home: nat): (Cache<V>, Option<V>)
    requires home < |c.slots| && Probe(c.slots, key, home, 0) < |c.slots|
  {
    var i := Target(c.slots, key, home);
    if c.slots[i].None? then (c, None)
    else (c.(order := [i] + Without(c.order, i)), Some(c.slots[i].value.value))
  }

  /** `cache_put`: overwrite the entry found, or fill the empty slot found. */
  function Put<V>(c: Cache<V>, key: string, home: nat, value: V): Cache<V>
    requires home < |c.slots| && Probe(c.slots, key, home, 0) < |c.slots|
  {
    var i := Target(c.slots, key, home);
    Cache(c.slots[i := Some(Entry(key, value))], [i] + Without(c.order, i))
  }

  /** `cache_remove`: the slot of the entry found becomes empty, which may leave a hole in other
      keys' probe sequences. */
  function Remove<V>(c: Cache<V>, key: string, home: nat): Cache<V>
    requires home < |c.slots| && Probe(c.slots, key, home, 0) < |c.slots|
  {
    var i := Target(c.slots, key, home);
    if c.slots[i].None? then c else Cache(c.slots[i := None], Without(c.order, i))
  }

  /* ---- Structure ---- */

  lemma {:induction false} WithoutIs<T>(order: seq<T>, i: T)
    requires NoDuplicates(order)
    ensures NoDuplicates(Without(order, i))
    ensures forall k :: k in Without(order, i) <==> k in order && k != i
    ensures |Without(order, i)| == |order| - if i in order then 1 else 0
  {
    if order == [] {
    } else {
      var rest := order[1..];
      assert forall k | 0 <= k < |rest| :: rest[k] == order[k + 1];
      WithoutIs(rest, i);
      assert order == [order[0]] + rest;
      assert forall k :: k in order <==> k == order[0] || k in rest;
      assert order[0] !in rest;
      if order[0] != i {
        var w := Without(rest, i);
        assert forall k :: k in [order[0]] + w <==> k == order[0] || k in w;
      }
    }
  }

  lemma PrependDistinct(order: seq<nat>, i: nat)
    requires NoDuplicates(order) && i !in order
    ensures NoDuplicates([i] + order)
    ensures forall k :: k in [i] + order <==> k == i || k in order
  {}

  /** Moving to the front. */
  lemma TouchIs(order: seq<nat>, i: nat)
    requires NoDuplicates(order)
    ensures NoDuplicates([i] + Without(order, i))
    ensures forall k :: k in [i] + Without(order, i) <==> k == i || k in order
  {
    hide NoDuplicates, Without;
    WithoutIs(order, i);
    PrependDistinct(Without(order, i), i);
  }

  /** Every operation keeps the list and the table in step. */
  lemma OperationsKeepOk<V>(c: Cache<V>, key: string, home: nat, value: V)
    requires CacheOk(c) && home < |c.slots| && Probe(c.slots, key, home, 0) < |c.slots|
    ensures CacheOk(Get(c, key, home).0)
    ensures CacheOk(Put(c, key, home, value))
    ensures CacheOk(Remove(c, key, home))
    ensures |Put(c, key, home, value).slots| == |c.slots|
  {
    hide NoDuplicates, Without, Target;
    var i := Target(c.slots, key, home);
    TouchIs(c.order, i);
    WithoutIs(c.order, i);
  }

  /* ---- Termination of the probe loops ---- */

  lemma {:induction false} DistinctBound(s: seq<nat>, n: nat)
    requires NoDuplicates(s) && forall i | i in s :: i < n
    ensures |s| <= n
    ensures (forall i | 0 <= i < n :: i in s) <==> |s| == n
    decreases n
  {
    assert s != [] ==> s[0] in s;
    if n == 0 {
    } else {
      var t := Without<nat>(s, n - 1);
      WithoutIs<nat>(s, n - 1);
      DistinctBound(t, n - 1);
      if |s| == n {
        assert n - 1 in s;
        assert forall i | 0 <= i < n - 1 :: i in t;
      }
      if forall i | 0 <= i < n :: i in s {
        assert forall i | 0 <= i < n - 1 :: i in t;
      }
    }
  }

  /** By pigeonhole, the number of list nodes tells whether a slot is free. */
  lemma FreeSlot<V>(c: Cache<V>)
    requires CacheOk(c)
    ensures |c.order| <= |c.slots|
    ensures |c.order| < |c.slots| <==> exists i :: 0 <= i < |c.slots| && c.slots[i].None?
  {
    DistinctBound(c.order, |c.slots|);
    if |c.order| < |c.slots| {
      var i :| 0 <= i < |c.slots| && i !in c.order;
      assert c.slots[i].None?;
    }
  }

  /** The probe loops end, within as many steps as there are slots, if and only if a slot is free
      or the key is in the table.  In particular an absent key makes them run forever once the
      table is full, and the eviction branch is never reached. */
  lemma ProbeEnds<V>(c: Cache<V>, key: string, home: nat)
    requires CacheOk(c) && home < |c.slots|
    ensures Probe(c.slots, key, home, 0) < |c.slots| <==> CanProbe(c, key)
  {
    FreeSlot(c);
    var n := |c.slots|;
    var j := Probe(c.slots, key, home, 0);
    if j < n {
      var i := ProbeSlot(home, j, n);
      if c.slots[i].Some? { assert Holds(c.slots, i, key); }
    } else {
      forall i | 0 <= i < n ensures c.slots[i].Some? && !Holds(c.slots, i, key) {
        var k := StepTo(home, i, n);
        assert ProbeSlot(home, k, n) == i;
      }
    }
  }

  /* ---- Hits are sound ---- */

  /** The first step at or after `j` whose slot holds the key, whether or not probing gets there. */
  function Nearest<V>(slots: Slots<V>, key: string, home: nat, j: nat): (r: nat)
    requires home < |slots| && j <= |slots|
    ensures j <= r <= |slots|
    ensures r < |slots| ==> Holds(slots, ProbeSlot(home, r, |slots|), key)
    ensures forall k | j <= k < r :: !Holds(slots, ProbeSlot(home, k, |slots|), key)
    decreases |slots| - j
  {
    if j == |slots| || Holds(slots, ProbeSlot(home, j, |slots|), key) then j
    else Nearest(slots, key, home, j + 1)
  }

  /** The value of the entry nearest to the key's home. */
  function NearestValue<V>(slots: Slots<V>, key: string, home: nat): Option<V>
    requires home < |slots|
  {
    var r := Nearest(slots, key, home, 0);
    if r == |slots| then None else Some(slots[ProbeSlot(home, r, |slots|)].value.value)
  }

  /** A hit returns the nearest entry; a miss only means that a hole comes before it. */
  lemma HitIsNearest<V>(c: Cache<V>, key: string, home: nat)
    requires home < |c.slots| && Probe(c.slots, key, home, 0) < |c.slots|
    ensures Get(c, key, home).1.Some? ==> Get(c, key, home).1 == NearestValue(c.slots, key, home)
  {
    if Get(c, key, home).1.Some? {
      NearestUnique(c.slots, key, home, Probe(c.slots, key, home, 0));
    }
  }

  lemma NearestUnique<V>(slots: Slots<V>, key: string, home: nat, r: nat)
    requires home < |slots| && r < |slots|
    requires Holds(slots, ProbeSlot(home, r, |slots|), key)
    requires forall k | 0 <= k < r :: !Holds(slots, ProbeSlot(home, k, |slots|), key)
    ensures Nearest(slots, key, home, 0) == r
  {}

  /** After a put, the entry nearest to the key's home is the one put; other keys' are as before. */
  lemma PutIsNearest<V>(c: Cache<V>, key: string, home: nat, value: V, key': string, home': nat)
    requires home < |c.slots| && home' < |c.slots| && Probe(c.slots, key, home, 0) < |c.slots|
    requires key' == key ==> home' == home
    ensures NearestValue(Put(c, key, home, value).slots, key', home')
      == if key' == key then Some(value) else NearestValue(c.slots, key', home')
  {
    var n, j := |c.slots|, Probe(c.slots, key, home, 0);
    var i, s' := ProbeSlot(home, j, n), Put(c, key, home, value).slots;
    if key' == key {
      forall k | 0 <= k < j ensures !Holds(s', ProbeSlot(home, k, n), key) {
        assert ProbeSlot(home, k, n) != i;
      }
      NearestUnique(s', key, home, j);
    } else {
      NearestFrame(c.slots, s', i, key', home', 0);
    }
  }

  lemma {:induction false} NearestFrame<V>(s: Slots<V>, s': Slots<V>, i: nat, key: string, home: nat, j: nat)
    requires home < |s| == |s'| && j <= |s| && i < |s| && s' == s[i := s'[i]]
    requires !Holds(s, i, key) && !Holds(s', i, key)
    ensures Nearest(s', key, home, j) == Nearest(s, key, home, j)
    decreases |s| - j
  {
    if j == |s| {
    } else {
      NearestFrame(s, s', i, key, home, j + 1);
    }
  }

  lemma RemoveKeepsNearest<V>(c: Cache<V>, key: string, home: nat, key': string, home': nat)
    requires home < |c.slots| && home' < |c.slots| && Probe(c.slots, key, home, 0) < |c.slots|
    requires key' != key
    ensures NearestValue(Remove(c, key, home).slots, key', home') == NearestValue(c.slots, key', home')
  {
    var i, s' := Target(c.slots, key, home), Remove(c, key, home).slots;
    if c.slots[i].Some? { NearestFrame(c.slots, s', i, key', home', 0); }
  }

  /* ---- Runs ---- */

  datatype Op<V> = OpGet(key: string) | OpPut(key: string, value: V) | OpRemove(key: string) | OpClear

  /** The home slot of a key, for an arbitrary hash function. */
  function Home(hash: string -> nat, key: string, n: nat): (h: nat)
    requires n > 0
    ensures h < n
  {
    hash(key) % n
  }

  /** The operation's probe loops end. */
  predicate Enabled<V>(c: Cache<V>, op: Op<V>) {
    op.OpClear? || CanProbe(c, op.key)
  }

  function Apply<V>(c: Cache<V>, hash: string -> nat, op: Op<V>): Cache<V>
    requires CacheOk(c) && Enabled(c, op)
  {
    if op.OpClear? then EmptyCache(|c.slots|)
    else
      var home := Home(hash, op.key, |c.slots|);
      ProbeEnds(c, op.key, home);
      match op
      case OpGet(key) => Get(c, key, home).0
      case OpPut(key, value) => Put(c, key, home, value)
      case OpRemove(key) => Remove(c, key, home)
  }

  lemma ApplyOk<V>(c: Cache<V>, hash: string -> nat, op: Op<V>)
    requires CacheOk(c) && Enabled(c, op)
    ensures CacheOk(Apply(c, hash, op)) && |Apply(c, hash, op).slots| == |c.slots|
  {
    hide NoDuplicates, CanProbe, Put, Get, Remove;
    if op.OpClear? {
      EmptyOk<V>(|c.slots|);
    } else {
      var home := Home(hash, op.key, |c.slots|);
      ProbeEnds(c, op.key, home);
      match op
      case OpPut(key, value) => OperationsKeepOk(c, key, home, value);
      case OpGet(key) => KeepsOk(c, key, home);
      case OpRemove(key) => KeepsOk(c, key, home);
    }
  }

  lemma KeepsOk<V>(c: Cache<V>, key: string, home: nat)
    requires CacheOk(c) && home < |c.slots| && Probe(c.slots, key, home, 0) < |c.slots|
    ensures CacheOk(Get(c, key, home).0) && CacheOk(Remove(c, key, home))
    ensures |Get(c, key, home).0.slots| == |Remove(c, key, home).slots| == |c.slots|
  {
    hide NoDuplicates, Without, Target;
    var i := Target(c.slots, key, home);
    TouchIs(c.order, i);
    WithoutIs(c.order, i);
  }

  lemma EmptyOk<V>(n: nat)
    requires n > 0
    ensures CacheOk(EmptyCache<V>(n))
  {}

  /** Every operation of the run finds its probe loops ending. */
  predicate RunEnabled<V>(c: Cache<V>, hash: string -> nat, ops: seq<Op<V>>)
    requires CacheOk(c)
    decreases |ops|
  {
    ops == [] ||
    (Enabled(c, ops[0]) && (ApplyOk(c, hash, ops[0]); RunEnabled(Apply(c, hash, ops[0]), hash, ops[1..])))
  }

  function RunOps<V>(c: Cache<V>, hash: string -> nat, ops: seq<Op<V>>): Cache<V>
    requires CacheOk(c) && RunEnabled(c, hash, ops)
    decreases |ops|
  {
    if ops == [] then c
    else
      ApplyOk(c, hash, ops[0]);
      RunOps(Apply(c, hash, ops[0]), hash, ops[1..])
  }

  /** The reference: what was last put under each key, for the keys whose last change was a put. */
  function Latest<V>(latest: map<string, V>, op: Op<V>): map<string, V> {
    match op
    case OpGet(_) => latest
    case OpPut(key, value) => latest[key := value]
    case OpRemove(key) => latest - {key}
    case OpClear => map[]
  }

  function LatestAll<V>(latest: map<string, V>, ops: seq<Op<V>>): map<string, V>
    decreases |ops|
  {
    if ops == [] then latest else LatestAll(Latest(latest, ops[0]), ops[1..])
  }

  /** For every key whose last change was a put, the nearest entry is the one put. */
  ghost predicate Fresh<V>(c: Cache<V>, hash: string -> nat, latest: map<string, V>) {
    |c.slots| > 0 &&
    forall k | k in latest :: NearestValue(c.slots, k, Home(hash, k, |c.slots|)) == Some(latest[k])
  }

  lemma ApplyFresh<V>(c: Cache<V>, hash: string -> nat, op: Op<V>, latest: map<string, V>)
    requires CacheOk(c) && Enabled(c, op) && Fresh(c, hash, latest)
    ensures Fresh(Apply(c, hash, op), hash, Latest(latest, op))
  {
    hide CacheOk, CanProbe, NearestValue, Put, Remove;
    var n := |c.slots|;
    if !op.OpClear? {
      var home := Home(hash, op.key, n);
      ProbeEnds(c, op.key, home);
      ApplyOk(c, hash, op);
      forall k | k in Latest(latest, op)
        ensures NearestValue(Apply(c, hash, op).slots, k, Home(hash, k, n)) == Some(Latest(latest, op)[k])
      {
        match op
        case OpPut(key, value) => PutIsNearest(c, key, home, value, k, Home(hash, k, n));
        case OpRemove(key) => RemoveKeepsNearest(c, key, home, k, Home(hash, k, n));
        case OpGet(key) =>
      }
    }
  }

  lemma {:induction false} RunFresh<V>(c: Cache<V>, hash: string -> nat, ops: seq<Op<V>>, latest: map<string, V>)
    requires CacheOk(c) && RunEnabled(c, hash, ops) && Fresh(c, hash, latest)
    ensures CacheOk(RunOps(c, hash, ops)) && |RunOps(c, hash, ops).slots| == |c.slots|
    ensures Fresh(RunOps(c, hash, ops), hash, LatestAll(latest, ops))
    decreases |ops|
  {
    hide CacheOk, Fresh, Apply, Latest, Enabled;
    if ops == [] {
    } else {
      ApplyOk(c, hash, ops[0]);
      ApplyFresh(c, hash, ops[0], latest);
      RunFresh(Apply(c, hash, ops[0]), hash, ops[1..], Latest(latest, ops[0]));
    }
  }

  /** Hits are sound without tombstones: in every run from the empty cache whose probe loops end,
      a hit on a key whose last change was a put returns exactly what that put stored, although
      removals leave holes, and puts through holes leave duplicates behind. */
  lemma HitsAreSound<V>(n: nat, hash: string -> nat, ops: seq<Op<V>>, key: string)
    requires n > 0
    requires CacheOk(EmptyCache<V>(n)) && RunEnabled(EmptyCache<V>(n), hash, ops)
    requires CanProbe(RunOps(EmptyCache<V>(n), hash, ops), key) && key in LatestAll(map[], ops)
    ensures var c := RunOps(EmptyCache<V>(n), hash, ops);
      && |c.slots| == n && Probe(c.slots, key, Home(hash, key, n), 0) < n
      && (Get(c, key, Home(hash, key, n)).1.Some? ==>
            Get(c, key, Home(hash, key, n)).1 == Some(LatestAll(map[], ops)[key]))
  {
    hide CacheOk, CanProbe, RunOps, RunEnabled, LatestAll, Get, NearestValue;
    var c0 := EmptyCache<V>(n);
    assert Fresh(c0, hash, map[]);
    RunFresh(c0, hash, ops, map[]);
    var c := RunOps(c0, hash, ops);
    ProbeEnds(c, key, Home(hash, key, n));
    HitIsNearest(c, key, Home(hash, key, n));
  }

  /** A put and a removal whose probing settles on slot `i`. */
  lemma PutAt<V>(c: Cache<V>, hash: string -> nat, key: string, value: V, i: nat)
    requires CacheOk(c)
    requires var home := Home(hash, key, |c.slots|);
      Probe(c.slots, key, home, 0) < |c.slots| && i == Target(c.slots, key, home)
    ensures Enabled(c, OpPut(key, value))
    ensures Apply(c, hash, OpPut(key, value))
      == Cache(c.slots[i := Some(Entry(key, value))], [i] + Without(c.order, i))
  {
    hide Probe, Without, CanProbe, CacheOk, Target;
    ProbeEnds(c, key, Home(hash, key, |c.slots|));
  }

  lemma RemoveAt<V>(c: Cache<V>, hash: string -> nat, key: string, i: nat)
    requires CacheOk(c)
    requires var home := Home(hash, key, |c.slots|);
      Probe(c.slots, key, home, 0) < |c.slots| && i == Target(c.slots, key, home) && c.slots[i].Some?
    ensures Enabled(c, OpRemove(key))
    ensures Apply(c, hash, OpRemove(key)) == Cache(c.slots[i := None], Without(c.order, i))
  {
    hide Probe, Without, CanProbe, CacheOk, Target;
    ProbeEnds(c, key, Home(hash, key, |c.slots|));
  }

  /** A hash that sends every key to slot 0. */
  function Colliding(key: string): nat {
    0
  }

  const A1 := Some(Entry("a", 1))
  const A4 := Some(Entry("a", 4))
  const B2 := Some(Entry("b", 2))
  const B3 := Some(Entry("b", 3))
  const HOLES := [OpPut("a", 1), OpPut("b", 2), OpRemove("a"), OpPut("b", 3), OpRemove("b"), OpPut("a", 4)]

  lemma HolesEnd()
    ensures var c := Cache([B3, B2, None], [0, 1]);
      CacheOk(c) && RunEnabled(c, Colliding, HOLES[4..])
      && RunOps(c, Colliding, HOLES[4..]) == Cache([A4, B2, None], [0, 1])
  {
    hide Apply, Enabled, Probe, RunEnabled, RunOps;
    var c4, c5, c6 := Cache([B3, B2, None], [0, 1]), Cache([None, B2, None], [1]), Cache([A4, B2, None], [0, 1]);
    assert Without([1], 0) == [1] by { assert [1][1..] == []; }
    assert [0, 1][1..] == [1];
    HolesProbes();
    RemoveAt(c4, Colliding, "b", 0);
    PutAt(c5, Colliding, "a", 4, 0);
    EndOfRun(c6, HOLES[6..]);
    OneStep(c5, Colliding, HOLES[5..], c6);
    OneStep(c4, Colliding, HOLES[4..], c5);
  }

  lemma HolesMiddle()
    ensures var c := Cache([A1, B2, None], [1, 0]);
      CacheOk(c) && RunEnabled(c, Colliding, HOLES[2..])
      && RunOps(c, Colliding, HOLES[2..]) == Cache([A4, B2, None], [0, 1])
  {
    hide Apply, Enabled, Probe, RunEnabled, RunOps;
    var c2, c3, c4 := Cache([A1, B2, None], [1, 0]), Cache([None, B2, None], [1]), Cache([B3, B2, None], [0, 1]);
    assert Without([1, 0], 0) == [1] by { assert [1, 0][1..] == [0] && [0][1..] == []; }
    assert Without([1], 0) == [1] by { assert [1][1..] == []; }
    HolesProbes();
    RemoveAt(c2, Colliding, "a", 0);
    PutAt(c3, Colliding, "b", 3, 0);
    HolesEnd();
    OneStep(c3, Colliding, HOLES[3..], c4);
    OneStep(c2, Colliding, HOLES[2..], c3);
  }

  lemma EndOfRun(c: Cache<int>, ops: seq<Op<int>>)
    requires CacheOk(c) && ops == []
    ensures RunEnabled(c, Colliding, ops) && RunOps(c, Colliding, ops) == c
  {}

  lemma HolesProbes()
    ensures Probe([A1, B2, None], "a", 0, 0) == 0
    ensures Probe([None, B2, None], "b", 0, 0) == 0
    ensures Probe([B3, B2, None], "b", 0, 0) == 0
    ensures Probe([None, B2, None], "a", 0, 0) == 0
  {}

  /** The soundness stops at removal: a removed key can still hit, on a duplicate that was stored
      past a hole.  (When it can is RemovedExactly.) */
  lemma RemovedKeyCanHit()
    ensures CacheOk(EmptyCache<int>(3)) && RunEnabled(EmptyCache<int>(3), Colliding, HOLES)
    ensures "b" !in LatestAll(map[], HOLES)
    ensures var c := RunOps(EmptyCache<int>(3), Colliding, HOLES);
      |c.slots| == 3 && Probe(c.slots, "b", 0, 0) < 3 && Get(c, "b", 0).1 == Some(2)
  {
    hide Apply, Enabled, RunEnabled, RunOps;
    var c0, c1, c2 := EmptyCache<int>(3), Cache([A1, None, None], [0]), Cache([A1, B2, None], [1, 0]);
    assert c0.slots == [None, None, None];
    assert [0][1..] == [];
    assert Probe(c1.slots, "b", 0, 1) == 1;
    PutAt(c0, Colliding, "a", 1, 0);
    PutAt(c1, Colliding, "b", 2, 1);
    HolesMiddle();
    OneStep(c1, Colliding, HOLES[1..], c2);
    OneStep(c0, Colliding, HOLES, c1);
    LatestOf(HOLES);
    assert Probe([A4, B2, None], "b", 0, 1) == 1;
  }

  lemma LatestOf(ops: seq<Op<int>>)
    requires ops == [OpPut("a", 1), OpPut("b", 2), OpRemove("a"), OpPut("b", 3), OpRemove("b"), OpPut("a", 4)]
    ensures "b" !in LatestAll(map[], ops)
  {
    var m: map<string, int> := map["a" := 1]["b" := 2] - {"a"};
    assert LatestAll(map[], ops) == LatestAll(map["a" := 1], ops[1..]) == LatestAll(map["a" := 1]["b" := 2], ops[2..]);
    assert LatestAll(map["a" := 1]["b" := 2], ops[2..]) == LatestAll(m, ops[3..]);
    var m' := m["b" := 3] - {"b"};
    assert LatestAll(m, ops[3..]) == LatestAll(m["b" := 3], ops[4..]) == LatestAll(m', ops[5..]);
    assert LatestAll(m', ops[5..]) == LatestAll(m'["a" := 4], ops[6..]);
    assert ops[6..] == [];
  }

  /* ---- Removed keys ---- */

  /** The number of slots that hold the key. */
  ghost function Copies<V>(slots: Slots<V>, key: string): nat {
    |set i | 0 <= i < |slots| && Holds(slots, i, key)|
  }

  lemma CopiesPresent<V>(slots: Slots<V>, key: string)
    ensures Copies(slots, key) == 0 <==> !Present(slots, key)
  {
    var held := set i | 0 <= i < |slots| && Holds(slots, i, key);
    if Present(slots, key) {
      var i :| 0 <= i < |slots| && Holds(slots, i, key);
      assert i in held;
    }
  }

  /** One slot is written. */
  lemma CopiesWritten<V>(slots: Slots<V>, slots': Slots<V>, i: nat, key: string)
    requires i < |slots| == |slots'| && forall j | 0 <= j < |slots| && j != i :: slots'[j] == slots[j]
    ensures Copies(slots', key) - Copies(slots, key)
      == (if Holds(slots', i, key) then 1 else 0) - (if Holds(slots, i, key) then 1 else 0)
  {
    var held, held' := set j | 0 <= j < |slots| && Holds(slots, j, key), set j | 0 <= j < |slots'| && Holds(slots', j, key);
    assert held - {i} == held' - {i};
    assert |held - {i}| == |held| - if i in held then 1 else 0;
    assert |held' - {i}| == |held'| - if i in held' then 1 else 0;
  }

  /** A hit needs more than a copy: every slot on the way to the nearest one must be occupied. */
  lemma HitExactly<V>(c: Cache<V>, key: string, home: nat)
    requires home < |c.slots| && Probe(c.slots, key, home, 0) < |c.slots|
    ensures var near := Nearest(c.slots, key, home, 0);
      Get(c, key, home).1.Some? <==>
        Present(c.slots, key) && forall j | 0 <= j < near :: c.slots[ProbeSlot(home, j, |c.slots|)].Some?
  {
    var n, near, stop := |c.slots|, Nearest(c.slots, key, home, 0), Probe(c.slots, key, home, 0);
    NearestPresent(c.slots, key, home);
    if c.slots[Target(c.slots, key, home)].Some? {
      NearestUnique(c.slots, key, home, stop);
    }
  }

  lemma NearestPresent<V>(slots: Slots<V>, key: string, home: nat)
    requires home < |slots|
    ensures Nearest(slots, key, home, 0) < |slots| <==> Present(slots, key)
  {
    if Present(slots, key) {
      var i :| 0 <= i < |slots| && Holds(slots, i, key);
      var j := StepTo(home, i, |slots|);
      assert Holds(slots, ProbeSlot(home, j, |slots|), key);
    }
  }

  /** A put adds a copy of its key exactly when a get would miss; other keys keep theirs. */
  lemma PutCopies<V>(c: Cache<V>, key: string, home: nat, value: V, key': string)
    requires home < |c.slots| && Probe(c.slots, key, home, 0) < |c.slots|
    ensures Copies(Put(c, key, home, value).slots, key')
      == Copies(c.slots, key') + if key' == key && Get(c, key, home).1.None? then 1 else 0
  {
    CopiesWritten(c.slots, Put(c, key, home, value).slots, Target(c.slots, key, home), key');
  }

  /** A removal takes a copy of its key exactly when a get would hit; other keys keep theirs. */
  lemma RemoveCopies<V>(c: Cache<V>, key: string, home: nat, key': string)
    requires home < |c.slots| && Probe(c.slots, key, home, 0) < |c.slots|
    ensures Copies(Remove(c, key, home).slots, key')
      == Copies(c.slots, key') - if key' == key && Get(c, key, home).1.Some? then 1 else 0
  {
    CopiesWritten(c.slots, Remove(c, key, home).slots, Target(c.slots, key, home), key');
  }

  /** The run does not put the key. */
  predicate NoPut<V>(ops: seq<Op<V>>, key: string) {
    forall j | 0 <= j < |ops| :: !(ops[j].OpPut? && ops[j].key == key)
  }

  /** The removal of the key would leave no copy behind: a get hits the only one, or there is none. */
  ghost predicate OnlyCopy<V>(c: Cache<V>, key: string, home: nat)
    requires home < |c.slots| && Probe(c.slots, key, home, 0) < |c.slots|
  {
    Copies(c.slots, key) == if Get(c, key, home).1.Some? then 1 else 0
  }

  lemma ApplyGone<V>(c: Cache<V>, hash: string -> nat, op: Op<V>, key: string)
    requires CacheOk(c) && Enabled(c, op) && Copies(c.slots, key) == 0 && !(op.OpPut? && op.key == key)
    ensures Copies(Apply(c, hash, op).slots, key) == 0
  {
    hide Copies, Put, Remove, NoDuplicates, CanProbe;
    if op.OpClear? {
      CopiesPresent(EmptyCache<V>(|c.slots|).slots, key);
    } else {
      var home := Home(hash, op.key, |c.slots|);
      ProbeEnds(c, op.key, home);
      match op
      case OpGet(_) =>
      case OpPut(k, value) => PutCopies(c, k, home, value, key);
      case OpRemove(k) => RemoveCopies(c, k, home, key);
    }
  }

  /** Without a copy of the key, no run brings one back except by a put. */
  lemma {:induction false} RunGone<V>(c: Cache<V>, hash: string -> nat, ops: seq<Op<V>>, key: string)
    requires CacheOk(c) && RunEnabled(c, hash, ops) && Copies(c.slots, key) == 0 && NoPut(ops, key)
    ensures Copies(RunOps(c, hash, ops).slots, key) == 0
    decreases |ops|
  {
    hide CacheOk, Copies, Apply, Enabled;
    if ops == [] {
    } else {
      ApplyOk(c, hash, ops[0]);
      ApplyGone(c, hash, ops[0], key);
      RunGone(Apply(c, hash, ops[0]), hash, ops[1..], key);
    }
  }

  /** Every slot is the home of more keys than the table has slots. */
  ghost predicate Rich(hash: string -> nat, n: nat)
    requires n > 0
  {
    forall home: nat, keys: seq<string> | home < n && |keys| == n :: OtherKey(hash, n, home, keys)
  }

  ghost predicate OtherKey(hash: string -> nat, n: nat, home: nat, keys: seq<string>)
    requires n > 0
  {
    exists k :: k !in keys && Home(hash, k, n) == home
  }

  /** The free slots on the way to the nearest copy of the key. */
  ghost function Holes<V>(slots: Slots<V>, key: string, home: nat): set<nat>
    requires home < |slots|
  {
    set j: nat | j < Nearest(slots, key, home, 0) && slots[ProbeSlot(home, j, |slots|)].None?
  }

  function Keys<V>(slots: Slots<V>): (keys: seq<string>)
    ensures |keys| == |slots|
    ensures forall i | 0 <= i < |slots| && slots[i].Some? :: slots[i].value.key in keys
  {
    if slots == [] then []
    else
      assert forall i | 0 < i < |slots| :: slots[i] == slots[1..][i - 1];
      [if slots[0].Some? then slots[0].value.key else ""] + Keys(slots[1..])
  }

  /** A key with the same home slot fills the first hole. */
  lemma FillHole<V>(c: Cache<V>, hash: string -> nat, key: string, filler: string, value: V)
    requires CacheOk(c) && Present(c.slots, key)
    requires var home := Home(hash, key, |c.slots|);
      Holes(c.slots, key, home) != {} && Home(hash, filler, |c.slots|) == home
    requires filler !in Keys(c.slots)
    ensures Enabled(c, OpPut(filler, value)) && filler != key
    ensures var home, c' := Home(hash, key, |c.slots|), Apply(c, hash, OpPut(filler, value));
      && |c'.slots| == |c.slots| && CacheOk(c') && Present(c'.slots, key)
      && Holes(c'.slots, key, home) < Holes(c.slots, key, home)
  {
    hide Keys, NoDuplicates, Without;
    var n, home := |c.slots|, Home(hash, key, |c.slots|);
    FreeSlot(c);
    var j :| j in Holes(c.slots, key, home);
    assert Enabled(c, OpPut(filler, value));
    ProbeEnds(c, filler, home);
    ApplyOk(c, hash, OpPut(filler, value));
    var c', i := Apply(c, hash, OpPut(filler, value)), Target(c.slots, filler, home);
    assert forall k | 0 <= k < n :: !Holds(c.slots, k, filler);
    FewerHoles(c.slots, c'.slots, key, filler, home, i, Probe(c.slots, filler, home, 0), j);
  }

  lemma FewerHoles<V>(s: Slots<V>, s': Slots<V>, key: string, filler: string, home: nat, i: nat, stop: nat, j: nat)
    requires home < |s| && Present(s, key) && key != filler && stop < |s| && i == ProbeSlot(home, stop, |s|)
    requires s[i].None? && |s'| == |s| && s' == s[i := s'[i]] && s'[i].Some? && s'[i].value.key == filler
    requires j in Holes(s, key, home) && forall k | 0 <= k < stop :: s[ProbeSlot(home, k, |s|)].Some?
    ensures Present(s', key) && Holes(s', key, home) < Holes(s, key, home)
  {
    NearestFrame(s, s', i, key, home, 0);
    NearestPresent(s, key, home);
    NearestPresent(s', key, home);
    assert stop <= j;
    assert stop in Holes(s, key, home) && stop !in Holes(s', key, home);
  }

  /** As long as a copy is there, puts of other keys can fill the holes before it, and then it hits. */
  lemma {:induction false} CanHitAgain<V>(c: Cache<V>, hash: string -> nat, key: string) returns (ops: seq<Op<V>>)
    requires CacheOk(c) && Present(c.slots, key) && Rich(hash, |c.slots|)
    ensures RunEnabled(c, hash, ops) && NoPut(ops, key)
    ensures var c' := RunOps(c, hash, ops);
      |c'.slots| == |c.slots| && CanProbe(c', key) && CacheOk(c')
      && Probe(c'.slots, key, Home(hash, key, |c.slots|), 0) < |c'.slots|
      && Get(c', key, Home(hash, key, |c.slots|)).1.Some?
    decreases Holes(c.slots, key, Home(hash, key, |c.slots|))
  {
    hide CacheOk, Apply, Enabled, Holes, Keys, CanProbe;
    var home := Home(hash, key, |c.slots|);
    if Holes(c.slots, key, home) == {} {
      ops := [];
      NoHoleHits(c, hash, key);
    } else {
      assert OtherKey(hash, |c.slots|, home, Keys(c.slots));
      var filler :| filler !in Keys(c.slots) && Home(hash, filler, |c.slots|) == home;
      var i :| 0 <= i < |c.slots| && Holds(c.slots, i, key);
      var value := c.slots[i].value.value;
      FillHole(c, hash, key, filler, value);
      var c' := Apply(c, hash, OpPut(filler, value));
      var rest := CanHitAgain(c', hash, key);
      ops := [OpPut(filler, value)] + rest;
      assert ops[1..] == rest;
      OneStep(c, hash, ops, c');
    }
  }

  lemma NoHoleHits<V>(c: Cache<V>, hash: string -> nat, key: string)
    requires CacheOk(c) && Present(c.slots, key) && Holes(c.slots, key, Home(hash, key, |c.slots|)) == {}
    ensures var home := Home(hash, key, |c.slots|);
      CanProbe(c, key) && Probe(c.slots, key, home, 0) < |c.slots| && Get(c, key, home).1.Some?
    ensures RunEnabled(c, hash, []) && RunOps(c, hash, []) == c
  {
    hide NoDuplicates;
    var home := Home(hash, key, |c.slots|);
    ProbeEnds(c, key, home);
    HitExactly(c, key, home);
    forall j | 0 <= j < Nearest(c.slots, key, home, 0) ensures c.slots[ProbeSlot(home, j, |c.slots|)].Some? {
      assert j !in Holes(c.slots, key, home);
    }
  }

  /** In the run a get of the key misses wherever the key can be probed for. */
  ghost predicate StaysGone<V>(c: Cache<V>, hash: string -> nat, ops: seq<Op<V>>, key: string)
    requires CacheOk(c) && RunEnabled(c, hash, ops)
  {
    RunKeepsOk(c, hash, ops);
    var c' := RunOps(c, hash, ops);
    CanProbe(c', key) ==>
      (ProbeEnds(c', key, Home(hash, key, |c'.slots|)); Get(c', key, Home(hash, key, |c'.slots|)).1.None?)
  }

  lemma {:induction false} RunKeepsOk<V>(c: Cache<V>, hash: string -> nat, ops: seq<Op<V>>)
    requires CacheOk(c) && RunEnabled(c, hash, ops)
    ensures CacheOk(RunOps(c, hash, ops)) && |RunOps(c, hash, ops).slots| == |c.slots|
    decreases |ops|
  {
    hide CacheOk, Apply, Enabled;
    if ops == [] {
    } else {
      ApplyOk(c, hash, ops[0]);
      RunKeepsOk(Apply(c, hash, ops[0]), hash, ops[1..]);
    }
  }

  lemma AbsentMisses<V>(c: Cache<V>, hash: string -> nat, key: string)
    requires CacheOk(c) && CanProbe(c, key) && Copies(c.slots, key) == 0
    ensures Probe(c.slots, key, Home(hash, key, |c.slots|), 0) < |c.slots|
    ensures Get(c, key, Home(hash, key, |c.slots|)).1.None?
  {
    hide Copies, NoDuplicates;
    CopiesPresent(c.slots, key);
    ProbeEnds(c, key, Home(hash, key, |c.slots|));
    HitExactly(c, key, Home(hash, key, |c.slots|));
  }

  /** A removed key stays gone, in every run that does not put it, if the removal took its only copy
      or there was none.  The converse holds for any hash that has keys to fill the holes with. */
  lemma RemovedStaysGone<V>(c: Cache<V>, hash: string -> nat, key: string)
    requires CacheOk(c) && CanProbe(c, key) && Probe(c.slots, key, Home(hash, key, |c.slots|), 0) < |c.slots|
    ensures var home := Home(hash, key, |c.slots|);
      var c' := Remove(c, key, home);
      && CacheOk(c')
      && (OnlyCopy(c, key, home) ==>
            forall ops | RunEnabled(c', hash, ops) && NoPut(ops, key) :: StaysGone(c', hash, ops, key))
  {
    hide NoDuplicates, RunEnabled, RunOps, NoPut, Copies, Remove, Get, CanProbe;
    var home := Home(hash, key, |c.slots|);
    KeepsOk(c, key, home);
    RemoveCopies(c, key, home, key);
    var c' := Remove(c, key, home);
    if OnlyCopy(c, key, home) {
      forall ops | RunEnabled(c', hash, ops) && NoPut(ops, key) ensures StaysGone(c', hash, ops, key) {
        RunGone(c', hash, ops, key);
        RunKeepsOk(c', hash, ops);
        if CanProbe(RunOps(c', hash, ops), key) { AbsentMisses(RunOps(c', hash, ops), hash, key); }
      }
    }
  }

  /** The exact condition. */
  lemma RemovedExactly<V>(c: Cache<V>, hash: string -> nat, key: string)
    requires CacheOk(c) && CanProbe(c, key) && Probe(c.slots, key, Home(hash, key, |c.slots|), 0) < |c.slots|
    requires Rich(hash, |c.slots|)
    ensures var home := Home(hash, key, |c.slots|);
      var c' := Remove(c, key, home);
      && CacheOk(c')
      && (OnlyCopy(c, key, home) <==>
            forall ops | RunEnabled(c', hash, ops) && NoPut(ops, key) :: StaysGone(c', hash, ops, key))
  {
    hide NoDuplicates, RunEnabled, RunOps, NoPut, Rich, Copies, Remove, Get, CanProbe;
    var home := Home(hash, key, |c.slots|);
    RemovedStaysGone(c, hash, key);
    KeepsOk(c, key, home);
    RemoveCopies(c, key, home, key);
    var c' := Remove(c, key, home);
    CopiesPresent(c'.slots, key);
    if !OnlyCopy(c, key, home) {
      var ops := CanHitAgain(c', hash, key);
      assert !StaysGone(c', hash, ops, key);
    }
  }

  /** A full table: after one put in a cache of one slot, probing for another key never ends. */
  lemma FullCacheHangs()
    ensures var ops := [OpPut("a", 1)];
      && CacheOk(EmptyCache<int>(1)) && RunEnabled(EmptyCache<int>(1), Colliding, ops)
      && var c := RunOps(EmptyCache<int>(1), Colliding, ops);
      |c.slots| == 1 && !CanProbe(c, "b") && Probe(c.slots, "b", 0, 0) == |c.slots|
  {
    hide Apply, Enabled, RunEnabled, RunOps;
    var c0, c1, ops := EmptyCache<int>(1), Cache([A1], [0]), [OpPut("a", 1)];
    assert c0.slots == [None];
    PutAt(c0, Colliding, "a", 1, 0);
    assert ops[1..] == [];
    EndOfRun(c1, ops[1..]);
    OneStep(c0, Colliding, ops, c1);
    assert Probe(c1.slots, "b", 0, 1) == 1;
    assert Home(Colliding, "b", 1) == 0;
    ProbeEnds(c1, "b", 0);
  }

  /** One operation of a run, with its successor state given. */
  lemma OneStep<V>(c: Cache<V>, hash: string -> nat, ops: seq<Op<V>>, c': Cache<V>)
    requires CacheOk(c) && ops != [] && Enabled(c, ops[0]) && Apply(c, hash, ops[0]) == c'
    requires CacheOk(c') ==> RunEnabled(c', hash, ops[1..])
    ensures CacheOk(c') && RunEnabled(c, hash, ops)
    ensures RunOps(c, hash, ops) == RunOps(c', hash, ops[1..])
  {
    hide CacheOk, Apply, Enabled;
    ApplyOk(c, hash, ops[0]);
  }

  /** Clearing leaves no key, and the table as large as it was. */
  lemma ClearForgets<V>(c: Cache<V>, hash: string -> nat, key: string)
    requires CacheOk(c)
    ensures var c' := Apply(c, hash, OpClear);
      !Present(c'.slots, key) && Copies(c'.slots, key) == 0 && c'.order == [] && |c'.slots| == |c.slots|
  {
    hide Copies;
    CopiesPresent(EmptyCache<V>(|c.slots|).slots, key);
  }

  /* ---- The hash of the source ---- */

  /** `hash_string` before its reduction to a slot: 32-bit arithmetic on signed characters. */
  function HashString(s: string): (h: nat)
    ensures h < 0x1_0000_0000
    decreases |s|
  {
    if s == "" then 5381
    else
      var c := s[|s| - 1] as int % 256;
      (33 * HashString(s[..|s| - 1]) + if c < 128 then c else c - 256) % 0x1_0000_0000
  }

  /** The character that moves a hash to slot `home`. */
  function Second(hash: nat, home: nat): (b: nat)
    requires home < 100
    ensures 0 < b <= 100 && (hash + b) % 100 == home
  {
    var q, r := hash / 100, hash % 100;
    var b := if home > r then home - r else home + 100 - r;
    assert hash + b == 100 * (if home > r then q else q + 1) + home;
    b
  }

  function NameAt(a: nat, home: nat): string
    requires 0 < a < 128 && home < 100
  {
    [a as char, Second(33 * (33 * 5381 + a), home) as char]
  }

  lemma NameHash(a: nat, home: nat)
    requires 0 < a < 128 && home < 100
    ensures Home(HashString, NameAt(a, home), 100) == home
  {
    var s := NameAt(a, home);
    assert s[..1] == [a as char] && [a as char][..0] == "";
    assert HashString([a as char]) == 33 * 5381 + a;
  }

  /** The first characters of the keys. */
  function Firsts(keys: seq<string>): (r: set<int>)
    ensures |r| <= |keys|
    ensures forall k | k in keys && k != "" :: k[0] as int in r
  {
    if keys == [] then {}
    else
      var first, rest := keys[0], Firsts(keys[1..]);
      assert keys == [first] + keys[1..];
      if first == "" then rest else rest + {first[0] as int}
  }

  function Upto(n: nat): (r: set<int>)
    ensures |r| == n && forall a :: a in r <==> 0 < a <= n
  {
    if n == 0 then {} else Upto(n - 1) + {n}
  }

  /** With the source's hash every slot is the home of more than 100 names of two letters. */
  lemma SourceHashIsRich()
    ensures Rich(HashString, 100)
  {
    hide HashString, Second, Firsts;
    forall home: nat, keys: seq<string> | home < 100 && |keys| == 100
      ensures OtherKey(HashString, 100, home, keys)
    {
      SubsetSize(Upto(127), Firsts(keys));
      var a :| a in Upto(127) && a !in Firsts(keys);
      NameHash(a, home);
      assert NameAt(a, home)[0] as int == a && NameAt(a, home) !in keys;
    }
  }

  lemma SubsetSize(a: set<int>, b: set<int>)
    ensures a <= b ==> |a| <= |b|
  {
    if a <= b { assert b == a + (b - a); }
  }

  /* ---- Recency ---- */

  /** The slot an operation touches: a hit or a put. */
  function Touched<V>(c: Cache<V>, hash: string -> nat, op: Op<V>): Option<nat>
    requires CacheOk(c) && Enabled(c, op)
  {
    if op.OpClear? || op.OpRemove? then None
    else
      var home := Home(hash, op.key, |c.slots|);
      ProbeEnds(c, op.key, home);
      var i := Target(c.slots, op.key, home);
      if op.OpGet? && c.slots[i].None? then None else Some(i)
  }

  /** The list is sorted by the time of last touch, most recent first. */
  predicate Recent(order: seq<nat>, stamps: map<nat, nat>, now: nat) {
    && (forall i | i in order :: i in stamps && stamps[i] < now)
    && (forall a, b | 0 <= a < b < |order| ::
          order[a] in stamps && order[b] in stamps && stamps[order[a]] > stamps[order[b]])
  }

  lemma {:induction false} WithoutRecent(order: seq<nat>, i: nat, stamps: map<nat, nat>, now: nat)
    requires NoDuplicates(order) && Recent(order, stamps, now)
    ensures Recent(Without(order, i), stamps, now)
  {
    WithoutIs(order, i);
    if order == [] {
    } else {
      var rest := order[1..];
      assert forall k | 0 <= k < |rest| :: rest[k] == order[k + 1];
      if order[0] != i {
        WithoutRecent(rest, i, stamps, now);
        WithoutIs(rest, i);
        PrependRecent(order[0], rest, Without(rest, i), stamps, now);
      }
    }
  }

  lemma PrependRecent(first: nat, rest: seq<nat>, w: seq<nat>, stamps: map<nat, nat>, now: nat)
    requires Recent([first] + rest, stamps, now) && Recent(w, stamps, now)
    requires forall k | k in w :: k in rest
    ensures Recent([first] + w, stamps, now)
  {
    forall k | k in rest ensures stamps[first] > stamps[k] {
      var j :| 0 <= j < |rest| && rest[j] == k;
      assert ([first] + rest)[j + 1] == k && ([first] + rest)[0] == first;
    }
    var o := [first] + w;
    forall a, b | 0 <= a < b < |o| ensures stamps[o[a]] > stamps[o[b]] {
      assert o[b] == w[b - 1];
      if a > 0 { assert o[a] == w[a - 1]; }
    }
  }

  lemma TouchRecent(order: seq<nat>, i: nat, stamps: map<nat, nat>, now: nat)
    requires NoDuplicates(order) && Recent(order, stamps, now)
    ensures Recent([i] + Without(order, i), stamps[i := now], now + 1)
  {
    hide Without, NoDuplicates, Recent;
    WithoutRecent(order, i, stamps, now);
    WithoutIs(order, i);
    NewestRecent(Without(order, i), i, stamps, now);
  }

  lemma NewestRecent(w: seq<nat>, i: nat, stamps: map<nat, nat>, now: nat)
    requires Recent(w, stamps, now) && i !in w
    ensures Recent([i] + w, stamps[i := now], now + 1)
  {
    var o, t := [i] + w, stamps[i := now];
    assert forall k | 0 <= k < |w| :: w[k] in w && t[w[k]] == stamps[w[k]] < now;
    forall a, b | 0 <= a < b < |o| ensures t[o[a]] > t[o[b]] {
      assert o[b] == w[b - 1];
      if a > 0 { assert o[a] == w[a - 1]; }
    }
  }

  lemma LaterRecent(order: seq<nat>, stamps: map<nat, nat>, now: nat)
    requires Recent(order, stamps, now)
    ensures Recent(order, stamps, now + 1)
  {}

  /** Every operation keeps the list in order of last touch. */
  lemma ApplyRecent<V>(c: Cache<V>, hash: string -> nat, op: Op<V>, stamps: map<nat, nat>, now: nat)
    requires CacheOk(c) && Enabled(c, op) && Recent(c.order, stamps, now)
    ensures var t := Touched(c, hash, op);
      Recent(Apply(c, hash, op).order, if t.Some? then stamps[t.value := now] else stamps, now + 1)
  {
    hide NoDuplicates, CanProbe, Recent, Without, Target, Probe;
    LaterRecent(c.order, stamps, now);
    if !op.OpClear? {
      var home := Home(hash, op.key, |c.slots|);
      ProbeEnds(c, op.key, home);
      var i := Target(c.slots, op.key, home);
      TouchRecent(c.order, i, stamps, now);
      WithoutRecent(c.order, i, stamps, now + 1);
    } else {
      NoneRecent(stamps, now + 1);
    }
  }

  lemma NoneRecent(stamps: map<nat, nat>, now: nat)
    ensures Recent([], stamps, now)
  {}

  /** The times at which a run last touched each slot. */
  function Stamps<V>(c: Cache<V>, hash: string -> nat, ops: seq<Op<V>>, stamps: map<nat, nat>, now: nat): map<nat, nat>
    requires CacheOk(c) && RunEnabled(c, hash, ops)
    decreases |ops|
  {
    if ops == [] then stamps
    else
      var t := Touched(c, hash, ops[0]);
      ApplyOk(c, hash, ops[0]);
      Stamps(Apply(c, hash, ops[0]), hash, ops[1..], if t.Some? then stamps[t.value := now] else stamps, now + 1)
  }

  /** In every run the list is in order of last touch, most recent first. */
  lemma {:induction false} RunRecent<V>(c: Cache<V>, hash: string -> nat, ops: seq<Op<V>>, stamps: map<nat, nat>, now: nat)
    requires CacheOk(c) && RunEnabled(c, hash, ops) && Recent(c.order, stamps, now)
    ensures Recent(RunOps(c, hash, ops).order, Stamps(c, hash, ops, stamps, now), now + |ops|)
    decreases |ops|
  {
    hide CacheOk, Recent, Apply, Enabled, Touched;
    if ops == [] {
    } else {
      var t := Touched(c, hash, ops[0]);
      ApplyOk(c, hash, ops[0]);
      ApplyRecent(c, hash, ops[0], stamps, now);
      RunRecent(Apply(c, hash, ops[0]), hash, ops[1..], if t.Some? then stamps[t.value := now] else stamps, now + 1);
    }
  }
}
