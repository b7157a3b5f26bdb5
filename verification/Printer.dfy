/** The spacing-normalising printer (`write_file_content`) and its inverse relation to parsing. */
module Printer {
  import opened Text

  /** A space goes between two adjacent words of a sentence, and nowhere else inside it. */
  function WordGap(cur: Token, next: Token): seq<Token> {
    if IsWordToken(cur) && IsWordToken(next) then [" "] else []
  }

  /** A sentence with the printer's spaces made explicit. */
  function Inner(s: Sentence): Sentence {
    if |s| <= 1 then s else [s[0]] + WordGap(s[0], s[1]) + Inner(s[1..])
  }

  /** A space goes between a sentence and its successor unless either side is blank there. */
  function SentenceGap(s: Sentence, rest: seq<Sentence>): seq<Token> {
    if rest == [] || s == [] || IsBlankToken(s[|s| - 1]) then []
    else if rest[0] != [] && IsBlankToken(rest[0][0]) then []
    else [" "]
  }

  /** Everything the printer emits, as tokens. */
  function Expand(ss: seq<Sentence>): seq<Token> {
    if ss == [] then [] else Inner(ss[0]) + SentenceGap(ss[0], ss[1..]) + Expand(ss[1..])
  }

  function Print(ss: seq<Sentence>): string {
    Concat(Expand(ss))
  }

  /* ---- Printing keeps words apart ---- */

  predicate WordsApart(ts: seq<Token>) {
    forall i | 0 <= i < |ts| - 1 :: !(IsWordToken(ts[i]) && IsWordToken(ts[i + 1]))
  }

  lemma SpaceTokenOk()
    ensures TokenOk(" ") && IsSpaceToken(" ") && !IsWordToken(" ") && !IsDelimiterToken(" ")
  {}

  lemma WordsApartJoin(a: seq<Token>, b: seq<Token>)
    requires WordsApart(a) && WordsApart(b)
    requires a == [] || b == [] || !IsWordToken(a[|a| - 1]) || !IsWordToken(b[0])
    ensures WordsApart(a + b)
  {
    forall i | 0 <= i < |a + b| - 1
      ensures !(IsWordToken((a + b)[i]) && IsWordToken((a + b)[i + 1]))
    {
      if i >= |a| {
        assert (a + b)[i] == b[i - |a|] && (a + b)[i + 1] == b[i + 1 - |a|];
      }
    }
  }

  /** The explicit form of a sentence, unfolded once. */
  lemma InnerStep(s: Sentence)
    requires |s| > 1
    ensures Inner(s) == [s[0]] + WordGap(s[0], s[1]) + Inner(s[1..])
  {}

  lemma {:induction false} InnerEnds(s: Sentence)
    ensures |Inner(s)| >= |s|
    ensures s != [] ==> Inner(s)[0] == s[0] && Inner(s)[|Inner(s)| - 1] == s[|s| - 1]
  {
    hide WordGap;
    if |s| > 1 {
      InnerStep(s);
      InnerEnds(s[1..]);
    }
  }

  lemma {:induction false} InnerApart(s: Sentence)
    ensures WordsApart(Inner(s))
  {
    hide IsWordToken;
    if |s| > 1 {
      InnerStep(s);
      InnerEnds(s[1..]);
      InnerApart(s[1..]);
      SpaceTokenOk();
      WordsApartJoin([s[0]], WordGap(s[0], s[1]));
      WordsApartJoin([s[0]] + WordGap(s[0], s[1]), Inner(s[1..]));
    }
  }

  lemma {:induction false} InnerOk(s: Sentence)
    requires TokensOk(s)
    ensures TokensOk(Inner(s))
  {
    hide IsWordToken, TokenOk;
    if |s| > 1 {
      InnerStep(s);
      SpaceTokenOk();
      assert TokensOk(s[1..]);
      InnerOk(s[1..]);
    }
  }

  lemma {:induction false} InnerSolid(s: Sentence)
    ensures Solid(Inner(s)) == Solid(s)
  {
    hide Solid, IsWordToken;
    if |s| > 1 {
      InnerStep(s);
      InnerSolid(s[1..]);
      var g := WordGap(s[0], s[1]);
      SolidAppend([s[0]] + g, Inner(s[1..]));
      SolidAppend([s[0]], g);
      SolidOfGap(g);
      SolidAppend([s[0]], s[1..]);
      assert [s[0]] + s[1..] == s;
    }
  }

  lemma InnerFacts(s: Sentence)
    ensures |Inner(s)| >= |s| && (s != [] ==> Inner(s) != [])
    ensures s != [] ==> Inner(s)[0] == s[0] && Inner(s)[|Inner(s)| - 1] == s[|s| - 1]
    ensures WordsApart(Inner(s))
    ensures TokensOk(s) ==> TokensOk(Inner(s))
    ensures Solid(Inner(s)) == Solid(s)
  {
    hide Inner, WordsApart, TokensOk, Solid;
    InnerEnds(s);
    InnerApart(s);
    InnerSolid(s);
    if TokensOk(s) { InnerOk(s); }
  }

  lemma InnerNothing()
    ensures Inner([]) == []
  {}

  lemma ExpandFirst(ss: seq<Sentence>)
    requires ss != [] && ss[0] != []
    ensures Expand(ss) != [] && Expand(ss)[0] == ss[0][0]
  {
    InnerFacts(ss[0]);
  }

  /** Where the printer leaves no space between sentences, one side is no word. */
  lemma GapOrBlank(s: Sentence, rest: seq<Sentence>)
    ensures var g := SentenceGap(s, rest);
      g == [" "] || (g == [] && (s == [] || rest == [] || !IsWordToken(s[|s| - 1])
                                 || (rest[0] != [] && !IsWordToken(rest[0][0]))))
  {
    hide IsSpaceToken, IsNewlineToken, IsDelimiterToken;
  }

  lemma {:induction false} ExpandApart(ss: seq<Sentence>)
    ensures WordsApart(Expand(ss))
  {
    hide IsWordToken, IsBlankToken, SentenceGap, Inner, WordsApart;
    if ss != [] {
      var a, g, r := Inner(ss[0]), SentenceGap(ss[0], ss[1..]), Expand(ss[1..]);
      assert Expand(ss) == a + g + r;
      InnerFacts(ss[0]);
      InnerNothing();
      ExpandApart(ss[1..]);
      SpaceTokenOk();
      if |ss| > 1 && ss[1] != [] { ExpandFirst(ss[1..]); }
      GapOrBlank(ss[0], ss[1..]);
      OneApart(" ");
      if g == [] {
        assert a + g == a;
      } else {
        WordsApartJoin(a, g);
      }
      WordsApartJoin(a + g, r);
    } else {
      NoneApart();
    }
  }

  lemma NoneApart()
    ensures WordsApart([])
  {}

  lemma OneApart(t: Token)
    ensures WordsApart([t])
  {}

  lemma {:induction false} ExpandFacts(ss: seq<Sentence>)
    ensures SentencesOk(ss) ==> TokensOk(Expand(ss))
    ensures Solid(Expand(ss)) == Solid(Flatten(ss))
  {
    hide IsSpaceToken, IsBlankToken, TokenOk, Inner, Solid;
    if ss == [] {
    } else {
      var a, g, r := Inner(ss[0]), SentenceGap(ss[0], ss[1..]), Expand(ss[1..]);
      assert Expand(ss) == a + g + r;
      InnerFacts(ss[0]);
      ExpandFacts(ss[1..]);
      SolidAppend(a + g, r);
      SolidAppend(a, g);
      SolidOfGap(g);
      SolidAppend(ss[0], Flatten(ss[1..]));
      if SentencesOk(ss) {
        assert SentencesOk(ss[1..]);
        assert TokensOk(a) && TokensOk(g) && TokensOk(r);
      }
    }
  }

  lemma SolidOfGap(g: seq<Token>)
    requires g == [] || g == [" "]
    ensures Solid(g) == [] && TokensOk(g)
  {
    SpaceTokenOk();
    if g != [] { assert g[1..] == []; }
  }

  /* ---- Reading back what was printed ---- */

  /** The scanner finds the first token again when the next one cannot extend it. */
  lemma ReadFirst(t: Token, rest: string)
    requires TokenOk(t)
    requires IsWordToken(t) ==> rest == "" || ClassOf(rest[0]) != Letter
    requires IsSpaceToken(t) ==> rest == "" || ClassOf(rest[0]) != Space
    ensures Tokens(t + rest) == [t] + Tokens(rest)
  {
    TokenKinds(t);
    var s := t + rest;
    var n, u, more := FirstToken(s);
    assert Span(s, ClassOf(t[0])) >= |t| by { SpanAtLeast(s, ClassOf(t[0]), |t|); }
    assert |t| < |s| ==> s[|t|] == rest[0];
    assert n == |t|;
    assert s[..n] == t && s[n..] == rest;
  }

  lemma {:induction false} SpanAtLeast(s: string, k: CharClass, n: nat)
    requires n <= |s| && forall i | 0 <= i < n :: ClassOf(s[i]) == k
    ensures Span(s, k) >= n
  {
    if n == 0 {
    } else {
      SpanAtLeast(s[1..], k, n - 1);
    }
  }

  /** A space token in front of a text leaves its other tokens alone. */
  lemma ReadSpace(t: Token, rest: string)
    requires TokenOk(t) && IsSpaceToken(t)
    ensures Solid(Tokens(t + rest)) == Solid(Tokens(rest))
  {
    hide TokenOk, TokenLength, Span, Tokens;
    if rest == "" || ClassOf(rest[0]) != Space {
      TokenKinds(t);
      ReadFirst(t, rest);
    } else {
      var s := t + rest;
      var n, u, more := FirstToken(s);
      var m, v, more' := FirstToken(rest);
      SpanAtLeast(s, Space, |t| + m);
      assert |t| + m < |s| ==> s[|t| + m] == rest[m];
      assert n == |t| + m;
      assert s[n..] == rest[m..];
      assert Solid([u] + more) == Solid(more);
      assert Solid([v] + more') == Solid(more');
    }
  }

  lemma FirstClass(ts: seq<Token>)
    requires TokensOk(ts) && ts != []
    ensures Concat(ts) != "" && Concat(ts)[0] == ts[0][0]
  {}

  /** Reading any separated tokens back changes nothing but spaces. */
  lemma {:induction false} ReadSolid(ts: seq<Token>)
    requires TokensOk(ts) && WordsApart(ts)
    ensures Solid(Tokens(Concat(ts))) == Solid(ts)
  {
    if ts == [] {
    } else {
      var t, rest := ts[0], Concat(ts[1..]);
      assert WordsApart(ts[1..]) by {
        assert forall i | 0 <= i < |ts[1..]| :: ts[1..][i] == ts[i + 1];
      }
      ReadSolid(ts[1..]);
      TokenKinds(t);
      if IsSpaceToken(t) {
        ReadSpace(t, rest);
      } else {
        if |ts| > 1 {
          FirstClass(ts[1..]);
          TokenKinds(ts[1]);
        }
        ReadFirst(t, rest);
        assert ([t] + Tokens(rest))[1..] == Tokens(rest);
      }
    }
  }

  /** Reading back canonical tokens yields exactly them. */
  lemma {:induction false} ReadExact(ts: seq<Token>)
    requires TokensOk(ts) && WordsApart(ts) && NoAdjacentSpaces(ts)
    ensures Tokens(Concat(ts)) == ts
  {
    if ts == [] {
    } else {
      var t, rest := ts[0], Concat(ts[1..]);
      assert forall i | 0 <= i < |ts[1..]| :: ts[1..][i] == ts[i + 1];
      ReadExact(ts[1..]);
      TokenKinds(t);
      if |ts| > 1 {
        FirstClass(ts[1..]);
        TokenKinds(ts[1]);
      }
      ReadFirst(t, rest);
    }
  }

  /** Printing any sentences and reading them back keeps every token but spaces, in order. */
  lemma PrintKeepsSolid(ss: seq<Sentence>)
    requires SentencesOk(ss)
    ensures Solid(Tokens(Print(ss))) == Solid(Flatten(ss))
  {
    ExpandFacts(ss);
    ExpandApart(ss);
    ReadSolid(Expand(ss));
  }

  /* ---- Normal form ---- */

  /** A non-first sentence as it comes back from disk: with its leading space made explicit. */
  function Led(s: Sentence): Sentence
    requires s != []
  {
    if IsBlankToken(s[0]) then Inner(s) else [" "] + Inner(s)
  }

  function LedAll(ss: seq<Sentence>): (r: seq<Sentence>)
    requires forall i | 0 <= i < |ss| :: ss[i] != []
    ensures |r| == |ss| && forall i | 0 <= i < |ss| :: r[i] == Led(ss[i])
  {
    if ss == [] then [] else [Led(ss[0])] + LedAll(ss[1..])
  }

  /** A document with the printer's spaces made explicit. */
  function Norm(ss: seq<Sentence>): seq<Sentence>
    requires Document(ss)
  {
    if ss == [] then [] else
      assert forall i | 0 <= i < |ss[1..]| :: ss[1..][i] == ss[i + 1];
      [Inner(ss[0])] + LedAll(ss[1..])
  }

  /** A blank or a word in front keeps a sentence well-formed. */
  lemma SentencePrepend(t: Token, s: Sentence)
    requires TokenOk(t) && !IsDelimiterToken(t)
    requires SentenceWf(s) && !(IsSpaceToken(t) && IsSpaceToken(s[0]))
    ensures SentenceWf([t] + s)
    ensures EndsWithDelimiter([t] + s) <==> EndsWithDelimiter(s)
  {
    hide TokenOk, IsSpaceToken, IsDelimiterToken;
    var r := [t] + s;
    assert forall i | 0 < i < |r| :: r[i] == s[i - 1];
    forall i | 0 <= i < |r| - 1
      ensures !IsDelimiterToken(r[i]) && !(IsSpaceToken(r[i]) && IsSpaceToken(r[i + 1]))
    {
      if i > 0 { assert r[i] == s[i - 1] && r[i + 1] == s[i]; }
    }
  }

  lemma SentenceRest(s: Sentence)
    requires SentenceWf(s) && |s| > 1
    ensures SentenceWf(s[1..]) && TokenOk(s[0]) && !IsDelimiterToken(s[0])
    ensures !(IsSpaceToken(s[0]) && IsSpaceToken(s[1]))
    ensures EndsWithDelimiter(s[1..]) <==> EndsWithDelimiter(s)
  {
    hide TokenOk, IsSpaceToken, IsDelimiterToken;
    assert forall i | 0 <= i < |s[1..]| :: s[1..][i] == s[i + 1];
  }

  lemma WordIsNotSpace(t: Token)
    requires IsWordToken(t)
    ensures !IsSpaceToken(t) && !IsBlankToken(t) && !IsDelimiterToken(t)
  {}

  lemma {:induction false} InnerWf(s: Sentence)
    requires SentenceWf(s)
    ensures SentenceWf(Inner(s))
    ensures EndsWithDelimiter(Inner(s)) <==> EndsWithDelimiter(s)
  {
    hide IsSpaceToken, IsWordToken, TokenOk, SentenceWf, EndsWithDelimiter;
    SpaceTokenOk();
    if |s| > 1 {
      InnerStep(s);
      InnerEnds(s[1..]);
      SentenceRest(s);
      InnerWf(s[1..]);
      var r := Inner(s[1..]);
      if IsWordToken(s[0]) && IsWordToken(s[1]) {
        WordIsNotSpace(s[0]);
        WordIsNotSpace(s[1]);
        SentencePrepend(" ", r);
        SentencePrepend(s[0], [" "] + r);
        assert Inner(s) == [s[0]] + ([" "] + r);
      } else {
        SentencePrepend(s[0], r);
        assert Inner(s) == [s[0]] + r;
      }
    }
  }

  lemma LedWf(s: Sentence)
    requires SentenceWf(s)
    ensures SentenceWf(Led(s))
    ensures EndsWithDelimiter(Led(s)) <==> EndsWithDelimiter(s)
    ensures WordsApart(Led(s)) && IsBlankToken(Led(s)[0])
  {
    hide IsSpaceToken, IsNewlineToken, IsWordToken, TokenOk, Inner, SentenceWf, EndsWithDelimiter, WordsApart;
    SpaceTokenOk();
    InnerWf(s);
    InnerFacts(s);
    assert s != [] by { NotEmpty(s); }
    if !IsBlankToken(s[0]) {
      SentencePrepend(" ", Inner(s));
      OneApart(" ");
      WordsApartJoin([" "], Inner(s));
    }
  }

  lemma NotEmpty(s: Sentence)
    requires SentenceWf(s)
    ensures s != []
  {}

  lemma DocumentTail(ss: seq<Sentence>)
    requires Document(ss) && ss != []
    ensures Document(ss[1..])
  {
    assert forall i | 0 <= i < |ss[1..]| :: ss[1..][i] == ss[i + 1];
  }

  lemma NormIsDocument(ss: seq<Sentence>)
    requires Document(ss)
    ensures Document(Norm(ss)) && |Norm(ss)| == |ss|
    ensures forall i | 0 <= i < |ss| :: EndsWithDelimiter(Norm(ss)[i]) == EndsWithDelimiter(ss[i])
  {
    forall i | 0 <= i < |ss|
      ensures SentenceWf(Norm(ss)[i]) && EndsWithDelimiter(Norm(ss)[i]) == EndsWithDelimiter(ss[i])
    {
      if i == 0 { InnerWf(ss[0]); } else { LedWf(ss[i]); }
    }
  }

  /** On a document the printer emits exactly the normalised sentences. */
  lemma {:induction false} ExpandDocument(ss: seq<Sentence>)
    requires Document(ss)
    ensures Expand(ss) == Flatten(Norm(ss))
  {
    if ss == [] {
    } else {
      ExpandTail(ss);
      assert Norm(ss)[1..] == LedAllTail(ss);
      assert Expand(ss) == Inner(ss[0]) + (SentenceGap(ss[0], ss[1..]) + Expand(ss[1..]));
    }
  }

  lemma {:induction false} ExpandTail(ss: seq<Sentence>)
    requires Document(ss) && ss != []
    ensures SentenceGap(ss[0], ss[1..]) + Expand(ss[1..]) == Flatten(LedAllTail(ss))
    decreases |ss|
  {
    var rest := ss[1..];
    if rest == [] {
    } else {
      DocumentTail(ss);
      ExpandTail(rest);
      EndIsNotBlank(ss[0]);
      var t := LedAllTail(rest);
      assert LedAllTail(ss) == [Led(rest[0])] + t;
      assert Flatten(LedAllTail(ss)) == Led(rest[0]) + Flatten(t) by {
        assert LedAllTail(ss)[1..] == t;
      }
      assert Expand(rest) == Inner(rest[0]) + (SentenceGap(rest[0], rest[1..]) + Expand(rest[1..]));
      var g := SentenceGap(ss[0], rest);
      assert g + Inner(rest[0]) == Led(rest[0]);
    }
  }

  lemma EndIsNotBlank(s: Sentence)
    requires TokensOk(s) && EndsWithDelimiter(s)
    ensures !IsBlankToken(s[|s| - 1])
  {
    TokenKinds(s[|s| - 1]);
  }

  function LedAllTail(ss: seq<Sentence>): seq<Sentence>
    requires Document(ss) && ss != []
  {
    assert forall i | 0 <= i < |ss[1..]| :: ss[1..][i] == ss[i + 1];
    LedAll(ss[1..])
  }

  lemma {:induction false} NoSpacesAcross(ss: seq<Sentence>)
    requires Document(ss)
    ensures NoAdjacentSpaces(Flatten(ss)) && TokensOk(Flatten(ss))
  {
    if ss == [] {
    } else {
      DocumentTail(ss);
      NoSpacesAcross(ss[1..]);
      var a, r := ss[0], Flatten(ss[1..]);
      assert Flatten(ss) == a + r;
      if |ss| == 1 { assert r == []; }
      forall i | 0 <= i < |a + r| - 1
        ensures !(IsSpaceToken((a + r)[i]) && IsSpaceToken((a + r)[i + 1]))
      {
        if i >= |a| {
          assert (a + r)[i] == r[i - |a|] && (a + r)[i + 1] == r[i + 1 - |a|];
        } else if i == |a| - 1 {
          assert EndsWithDelimiter(a);
          TokenKinds(a[i]);
        }
      }
    }
  }

  /** Parsing a printed document gives the document back, with the printer's spaces explicit. */
  lemma ParsePrint(ss: seq<Sentence>)
    requires Document(ss)
    ensures Parse(Print(ss)) == Norm(ss)
  {
    NormIsDocument(ss);
    ExpandDocument(ss);
    NoSpacesAcross(Norm(ss));
    ExpandFacts(ss);
    ExpandApart(ss);
    ReadExact(Expand(ss));
    GroupFlatten(Norm(ss));
  }

  lemma {:induction false} InnerIdempotent(s: Sentence)
    requires WordsApart(s)
    ensures Inner(s) == s
  {
    if |s| > 1 {
      assert forall i | 0 <= i < |s[1..]| :: s[1..][i] == s[i + 1];
      InnerIdempotent(s[1..]);
    }
  }

  lemma NormIdempotent(ss: seq<Sentence>)
    requires Document(ss)
    ensures Document(Norm(ss)) && Norm(Norm(ss)) == Norm(ss)
  {
    hide Document, Norm, IsSpaceToken, Inner;
    NormIsDocument(ss);
    NormIsDocument(Norm(ss));
    forall i | 0 <= i < |ss| ensures Norm(Norm(ss))[i] == Norm(ss)[i] {
      NormAt(ss, i);
      NormAt(Norm(ss), i);
      if i == 0 {
        InnerFacts(ss[0]);
        InnerIdempotent(Inner(ss[0]));
      } else {
        LedWf(ss[i]);
        InnerIdempotent(Led(ss[i]));
      }
    }
  }

  lemma NormAt(ss: seq<Sentence>, i: nat)
    requires Document(ss) && i < |ss|
    ensures SentenceWf(ss[i]) && |Norm(ss)| == |ss|
    ensures Norm(ss)[i] == if i == 0 then Inner(ss[i]) else Led(ss[i])
  {}

  /** Normalising changes nothing but spaces, in any sentence. */
  lemma NormSolid(ss: seq<Sentence>)
    requires Document(ss)
    ensures SolidAll(Norm(ss)) == SolidAll(ss)
  {
    hide Inner, Solid, SentenceWf;
    NormIsDocument(ss);
    SolidOfGap([" "]);
    forall i | 0 <= i < |ss| ensures Solid(Norm(ss)[i]) == Solid(ss[i]) {
      NormAt(ss, i);
      InnerSolid(ss[i]);
      SolidAppend([" "], Inner(ss[i]));
    }
  }

  lemma PrintNorm(ss: seq<Sentence>)
    requires Document(ss)
    ensures Document(Norm(ss)) && Print(Norm(ss)) == Print(ss)
  {
    hide SentenceWf, IsSpaceToken, Inner, Led;
    NormIdempotent(ss);
    ExpandDocument(ss);
    ExpandDocument(Norm(ss));
  }

  lemma {:induction false} InkOfExpand(ss: seq<Sentence>)
    ensures Ink(Concat(Expand(ss))) == Ink(Concat(Flatten(ss)))
  {
    hide Concat, Ink, Inner;
    if ss == [] {
    } else {
      var a, g, r := Inner(ss[0]), SentenceGap(ss[0], ss[1..]), Expand(ss[1..]);
      InkOfExpand(ss[1..]);
      InkOfInner(ss[0]);
      ConcatAppend(a + g, r);
      ConcatAppend(a, g);
      InkAppend(Concat(a + g), Concat(r));
      InkAppend(Concat(a), Concat(g));
      InkOfGap(g);
      ConcatAppend(ss[0], Flatten(ss[1..]));
      InkAppend(Concat(ss[0]), Concat(Flatten(ss[1..])));
    }
  }

  lemma InkOfGap(g: seq<Token>)
    requires g == [] || g == [" "]
    ensures Ink(Concat(g)) == ""
  {
    if g == [" "] {
      assert g[1..] == [];
      assert Concat(g) == " ";
      InkOfSpaces(" ");
    }
  }

  lemma {:induction false} InkOfInner(s: Sentence)
    ensures Ink(Concat(Inner(s))) == Ink(Concat(s))
  {
    hide Ink, Concat, IsWordToken;
    if |s| > 1 {
      InnerStep(s);
      var g, r := WordGap(s[0], s[1]), Inner(s[1..]);
      InkOfInner(s[1..]);
      ConcatAppend([s[0]] + g, r);
      ConcatAppend([s[0]], g);
      InkAppend(Concat([s[0]] + g), Concat(r));
      InkAppend(Concat([s[0]]), Concat(g));
      InkOfGap(g);
      assert [s[0]] + s[1..] == s;
      ConcatAppend([s[0]], s[1..]);
      InkAppend(Concat([s[0]]), Concat(s[1..]));
    }
  }

  /** Normal form: printing what was parsed changes nothing but spaces, keeps the number of
      sentences, and doing it again changes nothing at all. */
  lemma NormalForm(s: string)
    ensures var p := Print(Parse(s));
      && Print(Parse(p)) == p
      && |Parse(p)| == |Parse(s)|
      && Ink(p) == Ink(s)
  {
    var d := Parse(s);
    ParseIsDocument(s);
    ParsePrint(d);
    PrintNorm(d);
    NormIsDocument(d);
    InkOfExpand(d);
    FlattenGroup(Tokens(s));
    InkOfTokens(s);
  }
}
