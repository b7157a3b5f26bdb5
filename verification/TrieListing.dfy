/** The order in which the index lists its files. */
module TrieListing {
  import opened TrieModel

  /** Lexicographic order by character code. */
  predicate Less(a: string, b: string) {
    b != "" && (a == "" || a[0] < b[0] || (a[0] == b[0] && Less(a[1..], b[1..])))
  }

  predicate Sorted(names: seq<string>) {
    forall i, j | 0 <= i < j < |names| :: Less(names[i], names[j])
  }

  function Take<T>(s: seq<T>, n: nat): (r: seq<T>)
    ensures |r| <= n
  {
    if |s| <= n then s else s[..n]
  }

  /** The nodes at and below `p`. */
  ghost function Below(t: Shape, p: string): set<string> {
    set q | q in t.nodes && p <= q
  }

  /** The names at and below `p`, in the order `trie_collect_files` visits them. */
  ghost function Under(t: Shape, p: string): (names: seq<string>)
    requires p in t.nodes
    ensures forall k | k in names :: k in t.files
    decreases Below(t, p), ALPHABET_SIZE + 1
  {
    (if p in t.files then [p] else []) + UnderFrom(t, p, 0)
  }

  /** The part contributed by the children from `c` on. */
  ghost function UnderFrom(t: Shape, p: string, c: nat): (names: seq<string>)
    requires p in t.nodes && c <= ALPHABET_SIZE
    ensures forall k | k in names :: k in t.files
    decreases Below(t, p), ALPHABET_SIZE - c
  {
    if c == ALPHABET_SIZE then []
    else
      (if Child(p, c) in t.nodes then ChildBelow(t, p, c); Under(t, Child(p, c)) else [])
      + UnderFrom(t, p, c + 1)
  }

  ghost function Listing(t: Shape): seq<string>
    requires Closed(t)
  {
    Under(t, "")
  }

  lemma ChildBelow(t: Shape, p: string, c: nat)
    requires p in t.nodes && c < ALPHABET_SIZE
    ensures Below(t, Child(p, c)) < Below(t, p)
  {
    assert p <= Child(p, c);
    assert p in Below(t, p) && p !in Below(t, Child(p, c));
  }

  /* ---- The listing holds every name once, in order ---- */

  lemma {:induction false} UnderHolds(t: Shape, p: string, k: string)
    requires Closed(t) && p in t.nodes
    ensures k in Under(t, p) <==> k in t.files && p <= k
    decreases Below(t, p), ALPHABET_SIZE + 1
  {
    UnderFromHolds(t, p, 0, k);
    if k in t.files && p <= k && p != k {
      FileIsNode(t, k);
      StepDown(t, p, k);
    }
  }

  lemma {:induction false} UnderFromHolds(t: Shape, p: string, c: nat, k: string)
    requires Closed(t) && p in t.nodes && c <= ALPHABET_SIZE
    ensures k in UnderFrom(t, p, c)
      <==> k in t.files && p <= k && p != k && c <= k[|p|] as int < ALPHABET_SIZE
    decreases Below(t, p), ALPHABET_SIZE - c
  {
    if c == ALPHABET_SIZE {
    } else {
      UnderFromHolds(t, p, c + 1, k);
      ChildPrefix(p, c, k);
      if Child(p, c) in t.nodes {
        ChildBelow(t, p, c);
        UnderHolds(t, Child(p, c), k);
      } else if k in t.files && Child(p, c) <= k {
        FileIsNode(t, k);
        StepDown(t, p, k);
      }
    }
  }

  lemma ChildPrefix(p: string, c: nat, k: string)
    requires c < ALPHABET_SIZE
    ensures Child(p, c) <= k <==> p <= k && p != k && k[|p|] as int == c
  {
    if p <= k && p != k && k[|p|] as int == c {
      assert k[..|p| + 1] == Child(p, c);
    }
    if Child(p, c) <= k {
      assert Child(p, c)[|p|] == k[|p|];
      assert p <= Child(p, c);
    }
  }

  lemma {:induction false} LessAfter(p: string, a: string, b: string)
    requires p <= a && p <= b && p != b
    ensures p == a || a[|p|] < b[|p|] ==> Less(a, b)
  {
    if p == "" {
    } else {
      LessAfter(p[1..], a[1..], b[1..]);
    }
  }

  lemma {:induction false} UnderSorted(t: Shape, p: string)
    requires Closed(t) && p in t.nodes
    ensures Sorted(Under(t, p))
    decreases Below(t, p), ALPHABET_SIZE + 1
  {
    UnderFromSorted(t, p, 0);
    var own, rest := if p in t.files then [p] else [], UnderFrom(t, p, 0);
    forall k | k in rest && p in t.files ensures Less(p, k) {
      UnderFromHolds(t, p, 0, k);
      LessAfter(p, p, k);
    }
    SortedJoin(own, rest);
  }

  lemma {:induction false} UnderFromSorted(t: Shape, p: string, c: nat)
    requires Closed(t) && p in t.nodes && c <= ALPHABET_SIZE
    ensures Sorted(UnderFrom(t, p, c))
    decreases Below(t, p), ALPHABET_SIZE - c
  {
    if c == ALPHABET_SIZE {
    } else {
      UnderFromSorted(t, p, c + 1);
      if Child(p, c) in t.nodes {
        ChildBelow(t, p, c);
        UnderSorted(t, Child(p, c));
        forall a, b | a in Under(t, Child(p, c)) && b in UnderFrom(t, p, c + 1) ensures Less(a, b) {
          UnderHolds(t, Child(p, c), a);
          UnderFromHolds(t, p, c + 1, b);
          ChildPrefix(p, c, a);
          LessAfter(p, a, b);
        }
        SortedJoin(Under(t, Child(p, c)), UnderFrom(t, p, c + 1));
      }
    }
  }

  lemma SortedJoin(a: seq<string>, b: seq<string>)
    requires Sorted(a) && Sorted(b)
    requires forall x, y | x in a && y in b :: Less(x, y)
    ensures Sorted(a + b)
  {}

  /** The listing holds exactly the stored names, in strictly increasing order: no duplicates and
      no omissions. */
  lemma ListingExact(t: Shape)
    requires Closed(t)
    ensures Sorted(Listing(t))
    ensures forall k :: k in Listing(t) <==> k in t.files
  {
    UnderSorted(t, "");
    forall k ensures k in Listing(t) <==> k in t.files {
      UnderHolds(t, "", k);
    }
  }

  lemma {:induction false} LessIrreflexive(a: string)
    ensures !Less(a, a)
  {
    if a == "" {
    } else {
      LessIrreflexive(a[1..]);
    }
  }

  lemma {:induction false} LessTransitive(a: string, b: string, c: string)
    requires Less(a, b) && Less(b, c)
    ensures Less(a, c)
  {
    if a != "" && a[0] == b[0] == c[0] { LessTransitive(a[1..], b[1..], c[1..]); }
  }

  /** There is only one such sequence. */
  lemma {:induction false} SortedUnique(a: seq<string>, b: seq<string>)
    requires Sorted(a) && Sorted(b) && forall k :: k in a <==> k in b
    ensures a == b
    decreases |a|
  {
    assert a != [] ==> a[0] in b;
    assert b != [] ==> b[0] in a;
    if a == [] {
    } else {
      SameFirst(a, b);
      forall k ensures k in a[1..] <==> k in b[1..] {
        InTail(a, k);
        InTail(b, k);
      }
      SortedUnique(a[1..], b[1..]);
      assert a == [a[0]] + a[1..] && b == [b[0]] + b[1..];
    }
  }

  lemma SameFirst(a: seq<string>, b: seq<string>)
    requires Sorted(a) && Sorted(b) && a != [] && b != []
    requires a[0] in b && b[0] in a
    ensures a[0] == b[0]
  {
    LessAsymmetric(a[0], b[0]);
  }

  lemma LessAsymmetric(a: string, b: string)
    ensures !(Less(a, b) && Less(b, a))
  {
    LessIrreflexive(a);
    if Less(a, b) && Less(b, a) {
      LessTransitive(a, b, a);
    }
  }

  lemma InTail(a: seq<string>, k: string)
    requires Sorted(a) && a != []
    ensures k in a[1..] <==> k in a && k != a[0]
  {
    LessIrreflexive(a[0]);
    if k in a[1..] {
      var j :| 0 < j < |a| && a[j] == k;
    }
  }
}
