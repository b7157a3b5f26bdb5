/** `insert_word_in_sentence` as a function on sentences, and what one WRITE does to a text. */
module Insertion {
  import opened Wrappers
  import opened Text
  import opened Printer

  /* ---- Word positions ---- */

  /** The tokens that word positions count: everything but blanks. */
  function RealWords(s: seq<Token>): nat {
    if s == [] then 0 else (if IsBlankToken(s[0]) then 0 else 1) + RealWords(s[1..])
  }

  /** The index just past the k-th counted token. */
  function PastWord(s: seq<Token>, k: nat): (p: nat)
    requires 1 <= k <= RealWords(s)
    ensures p <= |s|
  {
    if IsBlankToken(s[0]) then 1 + PastWord(s[1..], k)
    else if k == 1 then 1
    else 1 + PastWord(s[1..], k - 1)
  }

  predicate ValidWord(s: seq<Token>, w: int) {
    1 <= w <= RealWords(s) + 1
  }

  /** Where the 1-based word position `w` falls among the tokens of a sentence. */
  function WordPos(s: seq<Token>, w: int): (p: nat)
    requires ValidWord(s, w)
    ensures p <= |s|
  {
    if w == 1 then 0
    else if w == RealWords(s) + 1 then |s|
    else PastWord(s, w - 1)
  }

  lemma {:induction false} PastWordCounts(s: seq<Token>, k: nat)
    requires 1 <= k <= RealWords(s)
    ensures RealWords(s[..PastWord(s, k)]) == k
  {
    var p := PastWord(s, k);
    assert s[..p][0] == s[0] && s[..p][1..] == s[1..][..p - 1];
    if IsBlankToken(s[0]) {
      PastWordCounts(s[1..], k);
    } else if k > 1 {
      PastWordCounts(s[1..], k - 1);
    } else {
      assert s[1..][..0] == [];
    }
  }

  /** Exactly `w - 1` counted tokens come before word position `w`. */
  lemma WordPosCounts(s: seq<Token>, w: int)
    requires ValidWord(s, w)
    ensures RealWords(s[..WordPos(s, w)]) == w - 1
  {
    if w == 1 {
      assert s[..0] == [];
    } else if w == RealWords(s) + 1 {
      assert s[..|s|] == s;
    } else {
      PastWordCounts(s, w - 1);
    }
  }

  /* ---- The insertion ---- */

  function DelimiterCount(ts: seq<Token>): nat {
    if ts == [] then 0 else (if IsDelimiterToken(ts[0]) then 1 else 0) + DelimiterCount(ts[1..])
  }

  /** The number of tokens up to and including the last delimiter; 0 when there is none. */
  function LastDelimiterEnd(ts: seq<Token>): (n: nat)
    ensures n <= |ts|
    ensures n > 0 ==> IsDelimiterToken(ts[n - 1])
    ensures forall i | n <= i < |ts| :: !IsDelimiterToken(ts[i])
  {
    if ts == [] then 0
    else if IsDelimiterToken(ts[|ts| - 1]) then |ts|
    else LastDelimiterEnd(ts[..|ts| - 1])
  }

  lemma LastDelimiterUnique(ts: seq<Token>, n: nat)
    requires n <= |ts| && (n > 0 ==> IsDelimiterToken(ts[n - 1]))
    requires forall i | n <= i < |ts| :: !IsDelimiterToken(ts[i])
    ensures LastDelimiterEnd(ts) == n
  {}

  /** Content that goes on after its last delimiter splits the sentence there. */
  predicate Splits(parts: seq<Token>) {
    0 < LastDelimiterEnd(parts) < |parts|
  }

  function Created(parts: seq<Token>): nat {
    DelimiterCount(parts) + if Splits(parts) then 1 else 0
  }

  function Empties(n: nat): (r: seq<Sentence>)
    ensures |r| == n && forall i | 0 <= i < n :: r[i] == []
  {
    seq(n, _ => [])
  }

  /** What the sentence `s` becomes: itself with `parts` at position `p`, followed by the empty
      sentences that fill up the count of new ones. */
  function Spliced(s: Sentence, p: nat, parts: seq<Token>): (r: seq<Sentence>)
    requires p <= |s|
    ensures |r| == 1 + Created(parts)
  {
    if Splits(parts) then
      var n := LastDelimiterEnd(parts);
      SplitsHasDelimiter(parts);
      [s[..p] + parts[..n], parts[n..] + s[p..]] + Empties(Created(parts) - 1)
    else
      [s[..p] + parts + s[p..]] + Empties(Created(parts))
  }

  lemma {:induction false} SplitsHasDelimiter(ts: seq<Token>)
    ensures LastDelimiterEnd(ts) > 0 ==> DelimiterCount(ts) > 0
  {
    if ts != [] && !IsDelimiterToken(ts[0]) {
      SplitsHasDelimiter(ts[1..]);
      var n := LastDelimiterEnd(ts);
      if n > 0 {
        assert n > 1;
        assert IsDelimiterToken(ts[1..][n - 2]);
      }
    }
  }

  lemma SplitsCreate(ts: seq<Token>)
    ensures Splits(ts) <==> 0 < LastDelimiterEnd(ts) < |ts|
    ensures Splits(ts) ==> Created(ts) > 0
  {
    SplitsHasDelimiter(ts);
  }

  datatype InsertResult =
    | Invalid
    | Inserted(sentences: seq<Sentence>, created: nat)

  /** The slots the insertion works on: one more when it appends a sentence. */
  function Slots(ss: seq<Sentence>, idx: nat): seq<Sentence> {
    if idx == |ss| then ss + [[]] else ss
  }

  /** A lone empty sentence is not counted again when a sentence is appended to it. */
  predicate AppendsToEmpty(ss: seq<Sentence>, idx: int) {
    idx == 1 && ss == [[]]
  }

  /** Content without a delimiter is then cut off with the slot that was not counted. */
  predicate Loses(ss: seq<Sentence>, idx: int, content: string) {
    AppendsToEmpty(ss, idx) && Tokens(content) != [] && DelimiterCount(Tokens(content)) == 0
  }

  function Counted(ss: seq<Sentence>, idx: nat): nat {
    if idx == |ss| && !AppendsToEmpty(ss, idx) then |ss| + 1 else |ss|
  }

  function Insert(ss: seq<Sentence>, idx: int, w: int, content: string): InsertResult {
    if idx < 0 || idx > |ss| || !ValidWord(Slots(ss, idx)[idx], w) then Invalid
    else
      var slots := Slots(ss, idx);
      var parts := Tokens(content);
      if parts == [] then Inserted(slots[..Counted(ss, idx)], 0)
      else
        var r := slots[..idx] + Spliced(slots[idx], WordPos(slots[idx], w), parts) + slots[idx + 1..];
        Inserted(r[..Counted(ss, idx) + Created(parts)], Created(parts))
  }

  lemma {:induction false} FlattenEmpties(ss: seq<Sentence>, n: nat)
    ensures Flatten(ss + Empties(n)) == Flatten(ss)
  {
    if n > 0 {
      FlattenEmpties(ss, n - 1);
      FlattenOne([]);
      assert ss + Empties(n) == (ss + Empties(n - 1)) + [[]];
      FlattenAppend(ss + Empties(n - 1), [[]]);
    } else {
      assert ss + Empties(0) == ss;
    }
  }

  lemma FlattenOne(s: Sentence)
    ensures Flatten([s]) == s
  {
    var ss := [s];
    assert ss[1..] == [];
  }

  lemma FlattenSpliced(s: Sentence, p: nat, parts: seq<Token>)
    requires p <= |s|
    ensures Flatten(Spliced(s, p, parts)) == s[..p] + parts + s[p..]
  {
    if Splits(parts) {
      var n := LastDelimiterEnd(parts);
      SplitsHasDelimiter(parts);
      var a, b := s[..p] + parts[..n], parts[n..] + s[p..];
      FlattenEmpties([a, b], Created(parts) - 1);
      FlattenOne(a);
      FlattenOne(b);
      assert [a, b] == [a] + [b];
      FlattenAppend([a], [b]);
      assert a + b == s[..p] + (parts[..n] + parts[n..]) + s[p..];
      assert parts[..n] + parts[n..] == parts;
    } else {
      var a := s[..p] + parts + s[p..];
      FlattenEmpties([a], Created(parts));
      FlattenOne(a);
    }
  }

  lemma FlattenAround(a: seq<Sentence>, mid: seq<Sentence>, b: seq<Sentence>)
    ensures Flatten(a + mid + b) == Flatten(a) + Flatten(mid) + Flatten(b)
  {
    FlattenAppend(a + mid, b);
    FlattenAppend(a, mid);
  }

  /** The new sentences stand where the addressed one stood. */
  lemma InsertedShape(ss: seq<Sentence>, idx: nat, w: int, content: string)
    requires !AppendsToEmpty(ss, idx) && idx <= |ss|
    requires Insert(ss, idx, w, content).Inserted?
    ensures var slots, parts := Slots(ss, idx), Tokens(content);
      Insert(ss, idx, w, content).sentences == slots[..idx]
        + (if parts == [] then [slots[idx]] else Spliced(slots[idx], WordPos(slots[idx], w), parts))
        + slots[idx + 1..]
    ensures Insert(ss, idx, w, content).created == Created(Tokens(content))
  {
    var slots, parts := Slots(ss, idx), Tokens(content);
    assert Counted(ss, idx) == |slots|;
    if parts == [] {
      assert slots[..|slots|] == slots == slots[..idx] + [slots[idx]] + slots[idx + 1..];
    } else {
      var all := slots[..idx] + Spliced(slots[idx], WordPos(slots[idx], w), parts) + slots[idx + 1..];
      assert all[..|slots| + Created(parts)] == all;
    }
  }

  /** Appending to a lone empty sentence, where one slot goes uncounted: it is an empty one exactly
      when the content is empty or has a delimiter, and otherwise the whole content is gone. */
  lemma AppendToEmpty(w: int, content: string)
    requires Insert([[]], 1, w, content).Inserted?
    ensures var r, parts := Insert([[]], 1, w, content), Tokens(content);
      && w == 1
      && r.created == Created(parts) && |r.sentences| == 1 + r.created && r.sentences[0] == []
      && (Flatten(r.sentences) == parts <==> parts == [] || DelimiterCount(parts) > 0)
      && (Loses([[]], 1, content) ==> r == Inserted([[]], 0))
  {
    var parts, r := Tokens(content), Insert([[]], 1, w, content);
    CreatedNone();
    FlattenOne([]);
    assert Slots([[]], 1) == [[], []];
    if parts == [] {
      assert r.sentences == [[]];
    } else {
      UncountedSlot(parts, r.sentences);
    }
  }

  lemma UncountedSlot(parts: seq<Token>, r: seq<Sentence>)
    requires parts != [] && r == ([[]] + Spliced([], 0, parts))[..1 + Created(parts)]
    ensures r[0] == [] && (DelimiterCount(parts) == 0 ==> r == [[]] && Created(parts) == 0)
    ensures Flatten(r) == parts <==> DelimiterCount(parts) > 0
  {
    var mid, n := Spliced([], 0, parts), Created(parts);
    SplitsHasDelimiter(parts);
    FlattenOne([]);
    if DelimiterCount(parts) > 0 {
      FlattenSpliced([], 0, parts);
      assert [][..0] + parts + [][0..] == parts;
      assert mid[n] == [];
      assert mid == mid[..n] + [[]];
      FlattenAppend(mid[..n], [[]]);
      assert r == [[]] + mid[..n];
      FlattenAppend([[]], mid[..n]);
    } else {
      assert r == [[]];
    }
  }

  /** The insertion fails exactly when the sentence or the word index is out of range. */
  lemma InsertFails(ss: seq<Sentence>, idx: int, w: int, content: string)
    ensures Insert(ss, idx, w, content).Invalid? <==>
      !(0 <= idx <= |ss| && 1 <= w <= (if idx < |ss| then RealWords(ss[idx]) else 0) + 1)
  {
    if 0 <= idx <= |ss| {
      assert Slots(ss, idx)[idx] == if idx < |ss| then ss[idx] else [];
    }
  }

  lemma FlattenInserted(a: seq<Sentence>, s: Sentence, p: nat, parts: seq<Token>, b: seq<Sentence>)
    requires p <= |s|
    ensures Flatten(a + (if parts == [] then [s] else Spliced(s, p, parts)) + b)
      == Flatten(a) + (s[..p] + parts + s[p..]) + Flatten(b)
  {
    var mid := if parts == [] then [s] else Spliced(s, p, parts);
    FlattenAround(a, mid, b);
    assert Flatten(mid) == s[..p] + parts + s[p..] by {
      if parts == [] {
        FlattenOne(s);
      } else {
        FlattenSpliced(s, p, parts);
      }
    }
  }

  /** Insertion is a splice.  The flattened tokens gain exactly the tokens of the content, after
      exactly `w - 1` counted tokens of the addressed sentence; earlier sentences stay put and
      later ones move intact by the number of sentences reported. */
  lemma InsertIsSplice(ss: seq<Sentence>, idx: int, w: int, content: string)
    requires !Loses(ss, idx, content)
    requires Insert(ss, idx, w, content).Inserted?
    ensures var r := Insert(ss, idx, w, content);
      var slots := Slots(ss, idx);
      var s, p := slots[idx], WordPos(slots[idx], w);
      && RealWords(s[..p]) == w - 1
      && Flatten(r.sentences) == Flatten(slots[..idx]) + (s[..p] + Tokens(content) + s[p..]) + Flatten(slots[idx + 1..])
      && |r.sentences| == Counted(ss, idx) + r.created
      && r.sentences[..idx] == ss[..idx]
      && (idx < |ss| ==> r.sentences[idx + 1 + r.created..] == ss[idx + 1..])
  {
    if AppendsToEmpty(ss, idx) {
      AppendIsSplice(w, content);
    } else {
      InsertElsewhere(ss, idx, w, content);
    }
  }

  lemma AppendIsSplice(w: int, content: string)
    requires !Loses([[]], 1, content) && Insert([[]], 1, w, content).Inserted?
    ensures var r, slots, parts := Insert([[]], 1, w, content), Slots([[]], 1), Tokens(content);
      && w == 1 && slots == [[], []] && |r.sentences| == 1 + r.created && r.sentences[..1] == [[]]
      && Flatten(r.sentences) == Flatten(slots[..1]) + ([][..0] + parts + [][0..]) + Flatten(slots[2..])
  {
    hide Insert, DelimiterCount, RealWords;
    AppendToEmpty(w, content);
    var slots, parts := Slots([[]], 1), Tokens(content);
    assert slots[..1] == [[]] && slots[2..] == [];
    FlattenOne([]);
    assert [] + ([][..0] + parts + [][0..]) + [] == parts;
  }

  lemma InsertElsewhere(ss: seq<Sentence>, idx: int, w: int, content: string)
    requires !AppendsToEmpty(ss, idx)
    requires Insert(ss, idx, w, content).Inserted?
    ensures var r := Insert(ss, idx, w, content);
      var slots := Slots(ss, idx);
      var s, p := slots[idx], WordPos(slots[idx], w);
      && RealWords(s[..p]) == w - 1
      && Flatten(r.sentences) == Flatten(slots[..idx]) + (s[..p] + Tokens(content) + s[p..]) + Flatten(slots[idx + 1..])
      && |r.sentences| == Counted(ss, idx) + r.created
      && r.sentences[..idx] == slots[..idx] == ss[..idx]
      && r.sentences[idx + 1 + r.created..] == slots[idx + 1..]
  {
    var r := Insert(ss, idx, w, content);
    InsertedShape(ss, idx, w, content);
    var slots, parts := Slots(ss, idx), Tokens(content);
    var s, p := slots[idx], WordPos(slots[idx], w);
    WordPosCounts(s, w);
    FlattenInserted(slots[..idx], s, p, parts, slots[idx + 1..]);
    CreatedNone();
    AroundSlices(slots[..idx], if parts == [] then [s] else Spliced(s, p, parts), slots[idx + 1..]);
  }

  /** Insertion is a splice if and only if it is not an append to a lone empty sentence of content
      without a delimiter. */
  lemma SpliceExactly(ss: seq<Sentence>, idx: int, w: int, content: string)
    requires Insert(ss, idx, w, content).Inserted?
    ensures var r, slots := Insert(ss, idx, w, content), Slots(ss, idx);
      var s, p := slots[idx], WordPos(slots[idx], w);
      Flatten(r.sentences) == Flatten(slots[..idx]) + (s[..p] + Tokens(content) + s[p..]) + Flatten(slots[idx + 1..])
      <==> !Loses(ss, idx, content)
  {
    if Loses(ss, idx, content) {
      AppendToEmpty(w, content);
      FlattenOne([]);
    } else {
      InsertIsSplice(ss, idx, w, content);
    }
  }

  lemma CreatedNone()
    ensures Created([]) == 0
  {}

  lemma AroundSlices(a: seq<Sentence>, mid: seq<Sentence>, b: seq<Sentence>)
    ensures (a + mid + b)[..|a|] == a && (a + mid + b)[|a| + |mid|..] == b
  {}

  /** A content that is lost. */
  lemma AppendToEmptyLoses()
    ensures Insert([[]], 1, 1, "a") == Inserted([[]], 0)
    ensures Tokens("a") == ["a"]
  {
    var n, t, rest := FirstToken("a");
    assert "a"[n..] == "" && t == "a";
    assert !IsDelimiterToken(t);
    assert Tokens("a")[1..] == [] && Tokens("a")[..0] == [];
    assert Slots([[]], 1)[..1] == [[]];
  }

  /* ---- One WRITE on a session's temporary file ---- */

  /** The sentences a WRITE works on: a missing or empty file has one empty sentence. */
  function Loaded(file: Option<string>): seq<Sentence> {
    if file.None? || Parse(file.value) == [] then [[]] else Parse(file.value)
  }

  /** The file after the WRITE, or `None` when an index is rejected and the file is left alone. */
  function WriteText(file: Option<string>, idx: int, w: int, content: string): Option<string> {
    match Insert(Loaded(file), idx, w, content)
    case Invalid => None
    case Inserted(ss, _) => Some(Print(ss))
  }

  /** Insert `parts` at word `w` of the `idx`-th sentence of a token stream; an invalid word
      position changes nothing. */
  function SpliceAt(ts: seq<Token>, idx: nat, w: int, parts: seq<Token>): seq<Token> {
    var a := After(ts, idx);
    Before(ts, idx) + SpliceHead(a, w, parts)
  }

  /** The same in the first sentence of the stream. */
  function SpliceHead(ts: seq<Token>, w: int, parts: seq<Token>): seq<Token> {
    if !ValidWord(Head(ts), w) then ts
    else
      var p := WordPos(Head(ts), w);
      ts[..p] + parts + ts[p..]
  }

  lemma {:induction false} SolidRealWords(s: seq<Token>)
    ensures RealWords(Solid(s)) == RealWords(s)
  {
    if s == [] {
    } else {
      SolidRealWords(s[1..]);
      assert !IsSpaceToken(s[0]) ==> Solid(s)[1..] == Solid(s[1..]);
    }
  }

  lemma {:induction false} SolidPastWord(s: seq<Token>, k: nat)
    requires 1 <= k <= RealWords(s)
    ensures RealWords(Solid(s)) == RealWords(s)
    ensures Solid(s[..PastWord(s, k)]) == Solid(s)[..PastWord(Solid(s), k)]
  {
    SolidRealWords(s);
    SolidRealWords(s[1..]);
    var p := PastWord(s, k);
    assert s[..p][0] == s[0] && s[..p][1..] == s[1..][..p - 1];
    if !IsSpaceToken(s[0]) {
      assert Solid(s)[0] == s[0] && Solid(s)[1..] == Solid(s[1..]);
    }
    if IsBlankToken(s[0]) {
      SolidPastWord(s[1..], k);
    } else if k > 1 {
      SolidPastWord(s[1..], k - 1);
    } else {
      assert s[..1] == [s[0]] && [s[0]][1..] == [];
    }
  }

  /** Word positions mean the same place whether or not spaces are kept. */
  lemma SolidWordPos(s: seq<Token>, w: int)
    ensures ValidWord(Solid(s), w) <==> ValidWord(s, w)
    ensures ValidWord(s, w) ==>
      && Solid(s[..WordPos(s, w)]) == Solid(s)[..WordPos(Solid(s), w)]
      && Solid(s[WordPos(s, w)..]) == Solid(s)[WordPos(Solid(s), w)..]
  {
    SolidRealWords(s);
    if ValidWord(s, w) {
      var p, q := WordPos(s, w), WordPos(Solid(s), w);
      if w == 1 {
        assert s[..0] == [];
      } else if w == RealWords(s) + 1 {
        assert s[..|s|] == s && Solid(s)[..|Solid(s)|] == Solid(s);
      } else {
        SolidPastWord(s, w - 1);
      }
      assert Solid(s[..p]) == Solid(s)[..q];
      assert s[..p] + s[p..] == s;
      SolidAppend(s[..p], s[p..]);
      assert Solid(s)[..q] + Solid(s[p..]) == Solid(s);
    }
  }

  lemma SpliceSolid(ts: seq<Token>, idx: nat, w: int, parts: seq<Token>)
    ensures Solid(SpliceAt(ts, idx, w, parts)) == SpliceAt(Solid(ts), idx, w, Solid(parts))
  {
    var a, b := Before(ts, idx), After(ts, idx);
    SolidCuts(ts, idx);
    SolidSpliceHead(b, w, parts);
    SolidAppend(a, SpliceHead(b, w, parts));
  }

  lemma SolidSpliceHead(b: seq<Token>, w: int, parts: seq<Token>)
    ensures Solid(SpliceHead(b, w, parts)) == SpliceHead(Solid(b), w, Solid(parts))
  {
    hide Solid, WordPos, RealWords, HeadLength;
    SolidHead(b);
    SolidWordPos(Head(b), w);
    if ValidWord(Head(b), w) {
      SolidSpliced(b, Solid(b), WordPos(Head(b), w), WordPos(Head(Solid(b)), w), parts);
    }
  }

  /** Positions that cut the first sentence alike, with and without spaces. */
  lemma SolidSpliced(b: seq<Token>, c: seq<Token>, p: nat, q: nat, parts: seq<Token>)
    requires c == Solid(b) && p <= |Head(b)| && q <= |Head(c)| && Solid(Head(b)[..p]) == Head(c)[..q]
    ensures Solid(b[..p] + parts + b[p..]) == c[..q] + Solid(parts) + c[q..]
  {
    hide Solid, HeadLength;
    assert b[..p] == Head(b)[..p] && c[..q] == Head(c)[..q];
    assert b[..p] + b[p..] == b && c[..q] + c[q..] == c;
    SolidAppend(b[..p], b[p..]);
    assert Solid(b[p..]) == c[q..];
    SolidAppend(b[..p] + parts, b[p..]);
    SolidAppend(b[..p], parts);
  }

  lemma LoadedParse(file: Option<string>)
    ensures SentencesOk(Loaded(file))
    ensures file.Some? ==> Flatten(Loaded(file)) == Tokens(file.value)
    ensures file.Some? && file.value != "" ==> Parse(file.value) != []
  {
    if file.Some? {
      var s := file.value;
      ParseIsDocument(s);
      FlattenGroup(Tokens(s));
      if Parse(s) == [] { assert Flatten([[]]) == []; }
      if s != "" { var n := TokenLength(s); }
    }
  }

  lemma InsertOk(ss: seq<Sentence>, idx: int, w: int, content: string)
    requires SentencesOk(ss)
    ensures Insert(ss, idx, w, content).Inserted? ==> SentencesOk(Insert(ss, idx, w, content).sentences)
  {
    var r := Insert(ss, idx, w, content);
    if r.Inserted? {
      TokensAreOk(content);
      var slots, parts := Slots(ss, idx), Tokens(content);
      assert SentencesOk(slots);
      if parts != [] {
        var s, p := slots[idx], WordPos(slots[idx], w);
        var mid := Spliced(s, p, parts);
        SplicedOk(s, p, parts);
        assert SentencesOk(slots[..idx] + mid + slots[idx + 1..]);
      }
    }
  }

  lemma SplicedOk(s: Sentence, p: nat, parts: seq<Token>)
    requires p <= |s| && TokensOk(s) && TokensOk(parts)
    ensures SentencesOk(Spliced(s, p, parts))
  {
    assert TokensOk(s[..p]) && TokensOk(s[p..]);
    var n := LastDelimiterEnd(parts);
    assert TokensOk(parts[..n]) && TokensOk(parts[n..]);
  }

  /** A WRITE to an existing sentence, or to the one past the last, whose content is not lost. */
  predicate Addressable(file: string, idx: nat, content: string) {
    idx <= |Loaded(Some(file))| && !Loses(Loaded(Some(file)), idx, content)
  }

  /** The temporary file refines an in-memory splice: parsing the file, inserting, printing it
      and reading it back amounts, up to spaces, to inserting the content's tokens at the
      addressed word of the addressed sentence. */
  lemma WriteRefinesSplice(file: string, idx: nat, w: int, content: string)
    requires Addressable(file, idx, content)
    ensures var r := WriteText(Some(file), idx, w, content);
      && (r.Some? <==> ValidWord(Head(After(Solid(Tokens(file)), idx)), w))
      && Solid(Tokens(if r.Some? then r.value else file))
         == SpliceAt(Solid(Tokens(file)), idx, w, Solid(Tokens(content)))
  {
    hide Parse, Print, Loses, Flatten, Tokens, Solid, Before, After, Head, Tail, SentencesOk, Slots, Spliced;
    var ss, ts := Loaded(Some(file)), Tokens(file);
    LoadedParse(Some(file));
    LoadedCuts(file, idx);
    SlotsLength(ss, idx);
    var s, a := Slots(ss, idx)[idx], After(ts, idx);
    SolidWordPos(s, w);
    SolidHead(a);
    SolidCuts(ts, idx);
    SpliceSolid(ts, idx, w, Tokens(content));
    var r := Insert(ss, idx, w, content);
    if r.Inserted? {
      InsertIsSplice(ss, idx, w, content);
      InsertOk(ss, idx, w, content);
      PrintKeepsSolid(r.sentences);
      SpliceInHead(Before(ts, idx), a, WordPos(s, w), Tokens(content));
    } else {
      BeforeAfter(ts, idx);
    }
  }

  lemma SlotsLength(ss: seq<Sentence>, idx: nat)
    requires idx <= |ss|
    ensures idx < |Slots(ss, idx)|
  {}

  lemma SpliceInHead(before: seq<Token>, a: seq<Token>, p: nat, parts: seq<Token>)
    requires p <= |Head(a)|
    ensures before + (Head(a)[..p] + parts + Head(a)[p..]) + Tail(a)
      == before + (a[..p] + parts + a[p..])
  {
    assert a[..p] == Head(a)[..p] && a[p..] == Head(a)[p..] + Tail(a);
    assert before + (Head(a)[..p] + parts + Head(a)[p..]) + Tail(a)
        == before + (Head(a)[..p] + parts + (Head(a)[p..] + Tail(a)));
  }

  lemma LoadedCuts(file: string, idx: nat)
    requires idx <= |Loaded(Some(file))|
    ensures var slots, ts := Slots(Loaded(Some(file)), idx), Tokens(file);
      && idx < |slots|
      && slots[idx] == Head(After(ts, idx))
      && Flatten(slots[..idx]) == Before(ts, idx)
      && Flatten(slots[idx + 1..]) == Tail(After(ts, idx))
  {
    hide Group, Head, Tail, Before, After, Flatten, Tokens, SentencesOk;
    var ss, ts := Loaded(Some(file)), Tokens(file);
    LoadedParse(Some(file));
    if file == "" {
      EmptyCuts(idx);
    } else if idx < |ss| {
      GroupCuts(ts, idx);
      GroupCuts(ts, idx + 1);
      GroupAt(ts, idx);
    } else {
      CutsAtEnd(ts);
      assert Slots(ss, idx)[..idx] == ss && Slots(ss, idx)[idx + 1..] == [];
    }
  }

  lemma CutsAtEnd(ts: seq<Token>)
    ensures var n := |Group(ts)|;
      After(ts, n) == [] && Before(ts, n) == Flatten(Group(ts)) && Head([]) == [] && Tail([]) == []
    ensures Flatten([]) == []
  {
    var n := |Group(ts)|;
    GroupCuts(ts, n);
    assert Group(ts)[n..] == [] && Group(ts)[..n] == Group(ts);
  }

  lemma EmptyCuts(idx: nat)
    requires idx <= |Loaded(Some(""))|
    ensures var slots := Slots(Loaded(Some("")), idx);
      && Tokens("") == [] && idx < |slots|
      && slots[idx] == [] == Head(After([], idx))
      && Flatten(slots[..idx]) == [] == Before([], idx)
      && Flatten(slots[idx + 1..]) == [] == Tail(After([], idx))
  {
    var slots := Slots(Loaded(Some("")), idx);
    var one: Sentence := [];
    assert slots == if idx == 0 then [one] else [one, one];
    FlattenOne([]);
    assert slots[..idx] == (if idx == 0 then [] else [[]]) && slots[idx + 1..] == [];
    assert After([], 1) == After(Tail([]), 0);
    assert Before([], 1) == Head([]) + Before(Tail([]), 0);
  }
}
