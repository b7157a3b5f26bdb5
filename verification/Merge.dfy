/** Merging a session's temporary file into the main file (`process_commit_queue`).

    The index arithmetic relocates the locked sentence by the change in the file's sentence
    count.  The theorems say where a commit lands, exactly when that is the locked sentence,
    and that a whole queue then acts as one simultaneous substitution.
 */
module Merge {
  import opened Wrappers
  import opened Text
  import opened Printer

  /** A missing file counts as a file without sentences. */
  function Sentences(file: Option<string>): seq<Sentence> {
    if file.Some? then Parse(file.value) else []
  }

  /** The sentences `idx .. idx + count` of a session's file, cut at its end. */
  function Slice(ss: seq<Sentence>, idx: nat, count: int): seq<Sentence> {
    if count <= 0 || idx >= |ss| then [] else ss[idx..if idx + count < |ss| then idx + count else |ss|]
  }

  function AdjustedIndex(current: nat, idx: nat, original: nat): int {
    idx + (current - original)
  }

  /** The bounds check on the adjusted index, with its exception for empty files. */
  predicate CommitInRange(current: nat, idx: nat, original: nat) {
    var adjusted := AdjustedIndex(current, idx, original);
    (current == 0 && original == 0 && adjusted == 0) || 0 <= adjusted < current
  }

  /** `ss` with the sentence at `p` replaced by the sentences `x`. */
  function Replace(ss: seq<Sentence>, p: nat, x: seq<Sentence>): (r: seq<Sentence>)
    requires p < |ss|
    ensures |r| == |ss| - 1 + |x|
    ensures forall i | 0 <= i < |r| ::
      r[i] == (if i < p then ss[i] else if i < p + |x| then x[i - p] else ss[i - |x| + 1])
  {
    ss[..p] + x + ss[p + 1..]
  }

  /** The sentences written back by a commit that is in range. */
  function Merged(main: seq<Sentence>, temp: seq<Sentence>, idx: nat, original: nat): seq<Sentence>
    requires CommitInRange(|main|, idx, original)
  {
    if main == [] then temp
    else
      Replace(main, AdjustedIndex(|main|, idx, original), Slice(temp, idx, 1 + |temp| - original))
  }

  /** One queue entry: the file afterwards.  A commit out of range is skipped. */
  function ApplyCommit(main: Option<string>, idx: nat, original: nat, temp: Option<string>): Option<string> {
    if temp.None? || !CommitInRange(|Sentences(main)|, idx, original) then main
    else Some(Print(Merged(Sentences(main), Parse(temp.value), idx, original)))
  }

  lemma CommitInside(file: string, idx: nat, original: nat, temp: string)
    requires Parse(file) != [] && 0 <= AdjustedIndex(|Parse(file)|, idx, original) < |Parse(file)|
    ensures ApplyCommit(Some(file), idx, original, Some(temp))
      == Some(Print(Replace(Parse(file), AdjustedIndex(|Parse(file)|, idx, original),
                            Slice(Parse(temp), idx, 1 + |Parse(temp)| - original))))
  {
    hide Parse, Print, Slice, Replace;
  }

  /** A lock on the sentence just past the end of a non-empty file is granted, but its commit is
      always skipped, whatever was written and whatever was committed in between. */
  lemma AppendLockIsDropped(main: Option<string>, original: nat, temp: Option<string>)
    requires original > 0
    ensures ApplyCommit(main, original, original, temp) == main
  {}

  /* ---- Substituting sentences ---- */

  /** The sentences `lo .. hi` of `ss` with each index in `m` replaced by its expansion. */
  function Substitute(ss: seq<Sentence>, m: map<nat, seq<Sentence>>, lo: nat, hi: nat): seq<Sentence>
    requires lo <= hi <= |ss|
    decreases hi - lo
  {
    if lo == hi then []
    else (if lo in m then m[lo] else [ss[lo]]) + Substitute(ss, m, lo + 1, hi)
  }

  function SubstituteAll(ss: seq<Sentence>, m: map<nat, seq<Sentence>>): seq<Sentence> {
    Substitute(ss, m, 0, |ss|)
  }

  lemma {:induction false} SubstituteSplit(ss: seq<Sentence>, m: map<nat, seq<Sentence>>, lo: nat, mid: nat, hi: nat)
    requires lo <= mid <= hi <= |ss|
    ensures Substitute(ss, m, lo, hi) == Substitute(ss, m, lo, mid) + Substitute(ss, m, mid, hi)
    decreases mid - lo
  {
    if lo == mid {
    } else {
      SubstituteSplit(ss, m, lo + 1, mid, hi);
    }
  }

  lemma {:induction false} SubstituteFrame(ss: seq<Sentence>, m: map<nat, seq<Sentence>>, m': map<nat, seq<Sentence>>, lo: nat, hi: nat)
    requires lo <= hi <= |ss|
    requires forall i | lo <= i < hi :: (i in m <==> i in m') && (i in m ==> m[i] == m'[i])
    ensures Substitute(ss, m, lo, hi) == Substitute(ss, m', lo, hi)
    decreases hi - lo
  {
    if lo == hi {
    } else {
      SubstituteFrame(ss, m, m', lo + 1, hi);
    }
  }

  lemma {:induction false} SubstituteNothing(ss: seq<Sentence>, lo: nat)
    requires lo <= |ss|
    ensures Substitute(ss, map[], lo, |ss|) == ss[lo..]
    decreases |ss| - lo
  {
    if lo == |ss| {
    } else {
      SubstituteNothing(ss, lo + 1);
    }
  }

  /** The length grows by one less than each expansion. */
  lemma {:induction false} SubstituteLength(ss: seq<Sentence>, m: map<nat, seq<Sentence>>, lo: nat, hi: nat)
    requires lo <= hi <= |ss|
    requires forall i | i in m :: m[i] != []
    ensures |Substitute(ss, m, lo, hi)| >= hi - lo
    ensures |Substitute(ss, m, lo, hi)| == hi - lo <==> forall i | i in m && lo <= i < hi :: |m[i]| == 1
    decreases hi - lo
  {
    if lo == hi {
    } else {
      SubstituteLength(ss, m, lo + 1, hi);
      var rest := Substitute(ss, m, lo + 1, hi);
      assert |Substitute(ss, m, lo, hi)| == (if lo in m then |m[lo]| else 1) + |rest|;
      if forall i | i in m && lo <= i < hi :: |m[i]| == 1 {
        assert forall i | i in m && lo + 1 <= i < hi :: |m[i]| == 1;
      } else {
        var j :| j in m && lo <= j < hi && |m[j]| != 1;
        if j == lo { assert |m[lo]| > 1; }
      }
    }
  }

  /* ---- Edits made in sessions that were opened on the same version ---- */

  /** A session: the sentence it locked and the text of its temporary file at commit. */
  datatype Edit = Edit(idx: nat, temp: string)

  /** Sessions lock an existing sentence, and writing never loses sentences. */
  predicate EditOk(ss: seq<Sentence>, e: Edit) {
    e.idx < |ss| <= |Parse(e.temp)|
  }

  function Expansion(ss: seq<Sentence>, e: Edit): nat
    requires EditOk(ss, e)
  {
    |Parse(e.temp)| - |ss|
  }

  /** What the locked sentence became. */
  function Replacement(ss: seq<Sentence>, e: Edit): (r: seq<Sentence>)
    requires EditOk(ss, e)
    ensures |r| == 1 + Expansion(ss, e)
    ensures r == Slice(Parse(e.temp), e.idx, 1 + |Parse(e.temp)| - |ss|)
  {
    Parse(e.temp)[e.idx..e.idx + 1 + Expansion(ss, e)]
  }

  /** Replacements that can stand at their index: well-formed, and closed unless at the end. */
  predicate Fits(ss: seq<Sentence>, i: nat, r: seq<Sentence>) {
    && i < |ss| && r != []
    && Document(r)
    && (i < |ss| - 1 ==> EndsWithDelimiter(r[|r| - 1]))
  }

  predicate AllFit(ss: seq<Sentence>, m: map<nat, seq<Sentence>>) {
    forall i | i in m :: Fits(ss, i, m[i])
  }

  lemma ReplacementFits(ss: seq<Sentence>, e: Edit)
    requires EditOk(ss, e)
    ensures Fits(ss, e.idx, Replacement(ss, e))
  {
    var t, r := Parse(e.temp), Replacement(ss, e);
    ParseIsDocument(e.temp);
    assert forall i | 0 <= i < |r| :: r[i] == t[e.idx + i];
  }

  lemma DocumentJoin(a: seq<Sentence>, b: seq<Sentence>)
    requires Document(a) && Document(b)
    requires a == [] || b == [] || EndsWithDelimiter(a[|a| - 1])
    ensures Document(a + b)
  {
    forall i | 0 <= i < |a + b|
      ensures SentenceWf((a + b)[i]) && (i < |a + b| - 1 ==> EndsWithDelimiter((a + b)[i]))
    {
      if i >= |a| { assert (a + b)[i] == b[i - |a|]; }
    }
  }

  lemma {:induction false} SubstituteIsDocument(ss: seq<Sentence>, m: map<nat, seq<Sentence>>, lo: nat, hi: nat)
    requires Document(ss) && AllFit(ss, m) && lo <= hi <= |ss|
    ensures var d := Substitute(ss, m, lo, hi);
      && Document(d)
      && (hi < |ss| && d != [] ==> EndsWithDelimiter(d[|d| - 1]))
    decreases hi - lo
  {
    hide Document, SentenceWf, EndsWithDelimiter;
    EmptyDocument();
    if lo == hi {
    } else {
      SubstituteIsDocument(ss, m, lo + 1, hi);
      SubstituteLength(ss, m, lo + 1, hi);
      var x, rest := if lo in m then m[lo] else [ss[lo]], Substitute(ss, m, lo + 1, hi);
      assert Substitute(ss, m, lo, hi) == x + rest;
      assert rest == [] <==> lo + 1 == hi;
      OneFits(ss, m, lo);
      PrependFitting(ss, lo, x, rest, hi);
    }
  }

  lemma EmptyDocument()
    ensures Document([])
  {}

  lemma OneFits(ss: seq<Sentence>, m: map<nat, seq<Sentence>>, i: nat)
    requires Document(ss) && AllFit(ss, m) && i < |ss|
    ensures Fits(ss, i, if i in m then m[i] else [ss[i]])
  {}

  lemma PrependFitting(ss: seq<Sentence>, lo: nat, x: seq<Sentence>, rest: seq<Sentence>, hi: nat)
    requires Fits(ss, lo, x) && Document(rest) && lo < hi <= |ss|
    requires rest == [] <==> hi == lo + 1
    requires hi < |ss| && rest != [] ==> EndsWithDelimiter(rest[|rest| - 1])
    ensures Document(x + rest)
    ensures hi < |ss| ==> EndsWithDelimiter((x + rest)[|x + rest| - 1])
  {
    DocumentJoin(x, rest);
    if rest == [] { assert x + rest == x; }
  }

  /** Printing forgets whether the untouched sentences had already been normalised. */
  lemma ReplaceInNorm(d: seq<Sentence>, p: nat, x: seq<Sentence>)
    requires Document(d) && p < |d| && x != []
    requires Document(Replace(d, p, x))
    ensures |Norm(d)| == |d| && Print(Replace(Norm(d), p, x)) == Print(Replace(d, p, x))
  {
    hide Document, SentenceWf, Norm, Inner, Led, Print;
    NormIsDocument(d);
    NormIdempotent(d);
    var r, q := Replace(d, p, x), Replace(Norm(d), p, x);
    ReplaceNormDocument(d, p, x);
    NormIsDocument(q);
    NormIsDocument(r);
    forall i | 0 <= i < |r| ensures Norm(q)[i] == Norm(r)[i] {
      if i < p || i >= p + |x| {
        var j := if i < p then i else i - |x| + 1;
        assert q[i] == Norm(d)[j] && r[i] == d[j];
        NormTwice(d, j);
      } else {
        assert q[i] == r[i];
      }
      NormAt(q, i);
      NormAt(r, i);
    }
    assert Norm(q) == Norm(r);
    PrintNorm(q);
    PrintNorm(r);
  }

  lemma NormTwice(d: seq<Sentence>, j: nat)
    requires Document(d) && j < |d|
    ensures |Norm(d)| == |d| && Norm(d)[j] != [] && d[j] != []
    ensures if j == 0 then Inner(Norm(d)[j]) == Inner(d[j]) else Led(Norm(d)[j]) == Led(d[j])
  {
    NormIsDocument(d);
    NormIdempotent(d);
    assert Norm(Norm(d))[j] == Norm(d)[j];
  }

  lemma ReplaceNormDocument(d: seq<Sentence>, p: nat, x: seq<Sentence>)
    requires Document(d) && p < |d| && x != [] && |Norm(d)| == |d|
    requires Document(Replace(d, p, x))
    ensures Document(Replace(Norm(d), p, x))
  {
    hide SentenceWf, EndsWithDelimiter, Norm;
    NormIsDocument(d);
    var r, q := Replace(d, p, x), Replace(Norm(d), p, x);
    forall i | 0 <= i < |q|
      ensures SentenceWf(q[i]) && (i < |q| - 1 ==> EndsWithDelimiter(q[i]))
    {
      assert SentenceWf(r[i]);
      if i < p || i >= p + |x| {
        var j := if i < p then i else i - |x| + 1;
        assert q[i] == Norm(d)[j] && r[i] == d[j];
      }
    }
  }

  /** The state of the main file once the edits in `m` were committed to the version `v`. */
  predicate Holds(v: string, m: map<nat, seq<Sentence>>, file: string) {
    if m == map[] then file == v else file == Print(SubstituteAll(Parse(v), m))
  }

  lemma HoldsParse(v: string, m: map<nat, seq<Sentence>>, file: string)
    requires AllFit(Parse(v), m) && Holds(v, m, file)
    ensures var d := SubstituteAll(Parse(v), m);
      Document(d) && (Parse(file) == d || Parse(file) == Norm(d))
  {
    var ss := Parse(v);
    ParseIsDocument(v);
    SubstituteIsDocument(ss, m, 0, |ss|);
    if m == map[] {
      SubstituteNothing(ss, 0);
      assert ss[0..] == ss;
    } else {
      ParsePrint(SubstituteAll(ss, m));
    }
  }

  /** The place of the locked sentence `i` in the current file. */
  function TruePosition(ss: seq<Sentence>, m: map<nat, seq<Sentence>>, i: nat): nat
    requires i < |ss|
  {
    |Substitute(ss, m, 0, i)|
  }

  /** Where a commit lands, for any set of edits already committed to the session's version, when
      nothing else changed the file.  (What UNDO or REVERT put there is another version, see
      Protocol.LockedEditShifts.)  It always goes through; it replaces the sentence at the adjusted
      index and no other; and that is the locked sentence if and only if no committed edit at a
      larger index added sentences.  Otherwise the adjusted index is too large. */
  lemma CommitLands(v: string, m: map<nat, seq<Sentence>>, file: string, e: Edit)
    requires AllFit(Parse(v), m) && Holds(v, m, file)
    requires EditOk(Parse(v), e) && e.idx !in m
    ensures var ss := Parse(v);
      var d := SubstituteAll(ss, m);
      var adjusted, true_ := AdjustedIndex(|d|, e.idx, |ss|), TruePosition(ss, m, e.idx);
      && true_ <= adjusted < |d| && d[true_] == ss[e.idx]
      && (adjusted == true_ <==> forall j | j in m && j > e.idx :: |m[j]| == 1)
      && ApplyCommit(Some(file), e.idx, |ss|, Some(e.temp))
         == Some(Print(Replace(d, adjusted, Replacement(ss, e))))
  {
    hide Parse, Print, Document, Norm, Substitute, ApplyCommit, Slice, Replace, Fits, AllFit, Holds;
    var ss := Parse(v);
    var d, x := SubstituteAll(ss, m), Replacement(ss, e);
    var adjusted := AdjustedIndex(|d|, e.idx, |ss|);
    ParseIsDocument(v);
    HoldsParse(v, m, file);
    AdjustedExact(ss, m, e.idx);
    ReplacementFits(ss, e);
    ReplaceAtIsDocument(ss, d, adjusted, x, e.idx, TruePosition(ss, m, e.idx));
    NormIsDocument(d);
    ReplaceInNorm(d, adjusted, x);
    CommitInside(file, e.idx, |ss|, e.temp);
  }

  /** The relocation formula against the true position of the locked sentence. */
  lemma AdjustedExact(ss: seq<Sentence>, m: map<nat, seq<Sentence>>, i: nat)
    requires AllFit(ss, m) && i < |ss| && i !in m
    ensures var d := SubstituteAll(ss, m);
      var adjusted, true_ := AdjustedIndex(|d|, i, |ss|), TruePosition(ss, m, i);
      && true_ <= adjusted < |d| && d[true_] == ss[i]
      && (i == |ss| - 1 ==> true_ == |d| - 1)
      && (adjusted == true_ <==> forall j | j in m && j > i :: |m[j]| == 1)
  {
    var before, after := Substitute(ss, m, 0, i), Substitute(ss, m, i + 1, |ss|);
    SubstituteSplit(ss, m, 0, i, |ss|);
    assert SubstituteAll(ss, m) == before + ([ss[i]] + after);
    SubstituteLength(ss, m, i + 1, |ss|);
    SubstituteLength(ss, m, 0, i);
    if forall j | j in m && i + 1 <= j < |ss| :: |m[j]| == 1 {
      assert forall j | j in m && j > i :: |m[j]| == 1;
    } else {
      var j :| j in m && i + 1 <= j < |ss| && |m[j]| != 1;
      assert j > i;
    }
  }

  lemma ReplaceAtIsDocument(ss: seq<Sentence>, d: seq<Sentence>, p: nat, x: seq<Sentence>, i: nat, pos: nat)
    requires Document(d) && pos <= p < |d| && Fits(ss, i, x)
    requires i == |ss| - 1 ==> pos == |d| - 1
    ensures Document(Replace(d, p, x))
  {
    var r := Replace(d, p, x);
    forall k | 0 <= k < |r|
      ensures SentenceWf(r[k]) && (k < |r| - 1 ==> EndsWithDelimiter(r[k]))
    {
      if k >= p + |x| { assert r[k] == d[k - |x| + 1]; }
    }
  }

  /* ---- Whole queues ---- */

  /** The queue's commits in order, all opened when the file had `original` sentences. */
  function ApplyAll(file: Option<string>, original: nat, edits: seq<Edit>): Option<string> {
    if edits == [] then file
    else
      var last := edits[|edits| - 1];
      ApplyCommit(ApplyAll(file, original, edits[..|edits| - 1]), last.idx, original, Some(last.temp))
  }

  predicate EditsOk(ss: seq<Sentence>, edits: seq<Edit>) {
    && (forall k | 0 <= k < |edits| :: EditOk(ss, edits[k]))
    && (forall j, k | 0 <= j < k < |edits| :: edits[j].idx != edits[k].idx)
  }

  /** An order of commits that the index arithmetic handles: none follows one at a larger index
      that added sentences. */
  predicate InOrder(ss: seq<Sentence>, edits: seq<Edit>)
    requires EditsOk(ss, edits)
  {
    forall j, k | 0 <= j < k < |edits| ::
      edits[j].idx > edits[k].idx ==> Expansion(ss, edits[j]) == 0
  }

  /** The edits as a map from each locked sentence to what became of it. */
  function Replacements(ss: seq<Sentence>, edits: seq<Edit>): (m: map<nat, seq<Sentence>>)
    requires EditsOk(ss, edits)
  {
    if edits == [] then map[]
    else
      var n := |edits| - 1;
      Replacements(ss, edits[..n])[edits[n].idx := Replacement(ss, edits[n])]
  }

  /** Which it is: every edit is there under its index, and nothing else. */
  lemma {:induction false} ReplacementsAre(ss: seq<Sentence>, edits: seq<Edit>)
    requires EditsOk(ss, edits)
    ensures forall e | e in edits :: e.idx in Replacements(ss, edits) && Replacements(ss, edits)[e.idx] == Replacement(ss, e)
    ensures forall i | i in Replacements(ss, edits) :: exists e :: e in edits && e.idx == i
  {
    hide EditsOk, EditOk, Replacement, Replacements;
    if edits != [] {
      var n := |edits| - 1;
      var init, last := edits[..n], edits[n];
      InitOk(ss, edits);
      ReplacementsAre(ss, init);
      ReplacementsStep(ss, edits);
      forall i | i in Replacements(ss, edits) ensures exists e :: e in edits && e.idx == i {
        if i == last.idx {
          assert last in edits;
        } else {
          var e :| e in init && e.idx == i;
          assert e in edits;
        }
      }
    } else {
      NoReplacements(ss);
    }
  }

  lemma NoReplacements(ss: seq<Sentence>)
    ensures EditsOk(ss, []) && Replacements(ss, []) == map[]
  {}

  lemma ReplacementsStep(ss: seq<Sentence>, edits: seq<Edit>)
    requires EditsOk(ss, edits) && edits != []
    ensures var n := |edits| - 1;
      EditsOk(ss, edits[..n])
      && Replacements(ss, edits) == Replacements(ss, edits[..n])[edits[n].idx := Replacement(ss, edits[n])]
  {}

  lemma InitOk(ss: seq<Sentence>, edits: seq<Edit>)
    requires EditsOk(ss, edits) && edits != []
    ensures var n := |edits| - 1;
      EditsOk(ss, edits[..n]) && EditOk(ss, edits[n]) && forall e | e in edits[..n] :: e.idx != edits[n].idx && EditOk(ss, e)
  {
    hide EditOk;
  }

  lemma ReplacementsFit(ss: seq<Sentence>, edits: seq<Edit>)
    requires EditsOk(ss, edits)
    ensures AllFit(ss, Replacements(ss, edits))
  {
    var m := Replacements(ss, edits);
    ReplacementsAre(ss, edits);
    forall i | i in m ensures Fits(ss, i, m[i]) {
      var e :| e in edits && e.idx == i;
      ReplacementFits(ss, e);
    }
  }

  /** Replacing one more sentence of a substituted document. */
  lemma ReplaceSubstituted(ss: seq<Sentence>, m: map<nat, seq<Sentence>>, i: nat, x: seq<Sentence>)
    requires i < |ss| && i !in m && TruePosition(ss, m, i) < |SubstituteAll(ss, m)|
    ensures Replace(SubstituteAll(ss, m), TruePosition(ss, m, i), x) == SubstituteAll(ss, m[i := x])
  {
    var before, after := Substitute(ss, m, 0, i), Substitute(ss, m, i + 1, |ss|);
    SubstituteSplit(ss, m, 0, i, |ss|);
    assert SubstituteAll(ss, m) == before + ([ss[i]] + after);
    SubstituteSplit(ss, m[i := x], 0, i, |ss|);
    SubstituteFrame(ss, m, m[i := x], 0, i);
    SubstituteFrame(ss, m, m[i := x], i + 1, |ss|);
    assert SubstituteAll(ss, m[i := x]) == before + (x + after);
    ReplaceMiddle(before, ss[i], after, x);
  }

  lemma ReplaceMiddle(a: seq<Sentence>, s: Sentence, b: seq<Sentence>, x: seq<Sentence>)
    ensures Replace(a + ([s] + b), |a|, x) == a + (x + b)
  {}

  /** In order, what was committed before the last edit at larger indices added no sentences. */
  lemma EarlierEdits(ss: seq<Sentence>, edits: seq<Edit>)
    requires EditsOk(ss, edits) && InOrder(ss, edits) && edits != []
    ensures var n := |edits| - 1;
      && EditsOk(ss, edits[..n]) && InOrder(ss, edits[..n]) && EditOk(ss, edits[n])
      && forall j | j in Replacements(ss, edits[..n]) ::
           j != edits[n].idx && (j > edits[n].idx ==> |Replacements(ss, edits[..n])[j]| == 1)
  {
    hide EditOk, EditsOk, InOrder, Replacement, Replacements, Expansion;
    var n := |edits| - 1;
    InitOk(ss, edits);
    InitInOrder(ss, edits);
    ReplacementsAre(ss, edits[..n]);
    var m := Replacements(ss, edits[..n]);
    forall j | j in m ensures j != edits[n].idx && (j > edits[n].idx ==> |m[j]| == 1) {
      var e :| e in edits[..n] && e.idx == j;
    }
  }

  lemma InitInOrder(ss: seq<Sentence>, edits: seq<Edit>)
    requires EditsOk(ss, edits) && InOrder(ss, edits) && edits != []
    ensures var n := |edits| - 1;
      && EditsOk(ss, edits[..n]) && InOrder(ss, edits[..n])
      && forall e | e in edits[..n] :: EditOk(ss, e) && (e.idx > edits[n].idx ==> Expansion(ss, e) == 0)
  {
    hide EditOk, Expansion;
    var n := |edits| - 1;
    forall e | e in edits[..n] ensures EditOk(ss, e) && (e.idx > edits[n].idx ==> Expansion(ss, e) == 0) {
      var k :| 0 <= k < n && edits[k] == e;
    }
  }

  lemma ReplacementsEmpty(ss: seq<Sentence>, edits: seq<Edit>)
    requires EditsOk(ss, edits)
    ensures Replacements(ss, edits) == map[] <==> edits == []
  {
    ReplacementsAre(ss, edits);
    if edits != [] { assert edits[0] in edits; }
  }

  /** The queue is one simultaneous substitution.  Sessions opened on the same version of a file,
      at distinct sentences, and committed in an order the index arithmetic handles, leave the
      version with each locked sentence replaced by what its session made of it, and every other
      sentence as it was, printed. */
  lemma {:induction false} QueueIsSubstitution(v: string, edits: seq<Edit>)
    requires EditsOk(Parse(v), edits) && InOrder(Parse(v), edits)
    ensures var ss := Parse(v);
      ApplyAll(Some(v), |ss|, edits)
      == Some(if edits == [] then v else Print(SubstituteAll(ss, Replacements(ss, edits))))
  {
    hide Parse, Print, Substitute, Replacement, Expansion, EditOk, Replace, ApplyCommit, AllFit,
      EditsOk, InOrder, TruePosition;
    if edits == [] {
    } else {
      var ss, n := Parse(v), |edits| - 1;
      var init, e := edits[..n], edits[n];
      EarlierEdits(ss, edits);
      QueueIsSubstitution(v, init);
      ReplacementsFit(ss, init);
      ReplacementsEmpty(ss, init);
      var m := Replacements(ss, init);
      var file := ApplyAll(Some(v), |ss|, init).value;
      CommitLands(v, m, file, e);
      ReplaceSubstituted(ss, m, e.idx, Replacement(ss, e));
      ReplacementsStep(ss, edits);
      ReplacementsEmpty(ss, edits);
    }
  }

  /** Sessions that lock sentences from left to right may add any number of sentences. */
  lemma IncreasingOrder(v: string, edits: seq<Edit>)
    requires forall k | 0 <= k < |edits| :: EditOk(Parse(v), edits[k])
    requires forall j, k | 0 <= j < k < |edits| :: edits[j].idx < edits[k].idx
    ensures ApplyAll(Some(v), |Parse(v)|, edits)
      == Some(if edits == [] then v else Print(SubstituteAll(Parse(v), Replacements(Parse(v), edits))))
  {
    QueueIsSubstitution(v, edits);
  }

  /** Sessions that add no sentences commute: every commit order gives the same file, and it
      holds every edit. */
  lemma CommitsCommute(v: string, edits: seq<Edit>, edits': seq<Edit>)
    requires EditsOk(Parse(v), edits) && EditsOk(Parse(v), edits')
    requires multiset(edits) == multiset(edits')
    requires forall k | 0 <= k < |edits| :: Expansion(Parse(v), edits[k]) == 0
    ensures ApplyAll(Some(v), |Parse(v)|, edits) == ApplyAll(Some(v), |Parse(v)|, edits')
    ensures edits != [] ==>
      ApplyAll(Some(v), |Parse(v)|, edits)
      == Some(Print(SubstituteAll(Parse(v), Replacements(Parse(v), edits))))
  {
    hide Parse, Print;
    var ss := Parse(v);
    assert forall e :: e in edits <==> e in multiset(edits);
    assert forall e :: e in edits' <==> e in multiset(edits');
    assert |edits| == |multiset(edits)| == |edits'|;
    assert forall k | 0 <= k < |edits'| :: edits'[k] in edits;
    QueueIsSubstitution(v, edits);
    QueueIsSubstitution(v, edits');
    SameReplacements(ss, edits, edits');
  }

  lemma SameReplacements(ss: seq<Sentence>, edits: seq<Edit>, edits': seq<Edit>)
    requires EditsOk(ss, edits) && EditsOk(ss, edits')
    requires forall e :: e in edits <==> e in edits'
    ensures Replacements(ss, edits) == Replacements(ss, edits')
  {
    hide Replacements, Replacement, EditsOk;
    ReplacementsAre(ss, edits);
    ReplacementsAre(ss, edits');
  }
}
