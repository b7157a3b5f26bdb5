/** The lexical rules of `file_ops.c`: character classes, tokens, sentences.

    A file is a string.  `Tokens` cuts it the way both scanners of the source do, `Group`
    ends a sentence after each delimiter, and `Parse` is their composition.  The imperative
    scanners of FileContent.dfy are proved against these functions.
 */
module Text {
  /** Size of the source's token buffers, including the terminating NUL. */
  const MAX_WORD := 128

  type Token = string
  type Sentence = seq<Token>

  datatype CharClass = Space | Newline | Delimiter | Letter

  function ClassOf(c: char): CharClass {
    if c == ' ' || c == '\t' || c == '\r' then Space
    else if c == '\n' then Newline
    else if IsDelimiter(c) then Delimiter
    else Letter
  }

  predicate IsDelimiter(c: char) {
    c == '.' || c == '!' || c == '?'
  }

  /** The length of the longest prefix of `s` whose characters all have class `k`. */
  function Span(s: string, k: CharClass): (n: nat)
    ensures n <= |s|
    ensures forall i | 0 <= i < n :: ClassOf(s[i]) == k
    ensures n < |s| ==> ClassOf(s[n]) != k
  {
    if s == "" || ClassOf(s[0]) != k then 0 else 1 + Span(s[1..], k)
  }

  function Min(a: nat, b: nat): nat {
    if a < b then a else b
  }

  /** The token stream of a text: a run of spaces is one token cut to 127 characters, newlines
      and delimiters stand alone, and a run of other characters is chopped into pieces of 127. */
  function Tokens(s: string): seq<Token> {
    if s == "" then []
    else match ClassOf(s[0])
      case Space =>
        var n := Span(s, Space);
        [s[..Min(n, MAX_WORD - 1)]] + Tokens(s[n..])
      case Letter =>
        var n := Min(Span(s, Letter), MAX_WORD - 1);
        [s[..n]] + Tokens(s[n..])
      case _ => [s[..1]] + Tokens(s[1..])
  }

  /* ---- Token tests, as the source writes them ---- */

  predicate IsSpaceToken(t: Token) {
    t != "" && forall i | 0 <= i < |t| :: ClassOf(t[i]) == Space
  }

  predicate IsNewlineToken(t: Token) {
    t == "\n"
  }

  predicate IsDelimiterToken(t: Token) {
    t != "" && IsDelimiter(t[0])
  }

  /** Tokens that word positions do not count. */
  predicate IsBlankToken(t: Token) {
    IsSpaceToken(t) || IsNewlineToken(t)
  }

  predicate IsWordToken(t: Token) {
    !IsBlankToken(t) && !IsDelimiterToken(t)
  }

  /** The tokens the scanners can produce. */
  predicate TokenOk(t: Token) {
    && 0 < |t| < MAX_WORD
    && (forall i | 0 <= i < |t| :: ClassOf(t[i]) == ClassOf(t[0]))
    && (ClassOf(t[0]) == Newline || ClassOf(t[0]) == Delimiter ==> |t| == 1)
  }

  predicate TokensOk(ts: seq<Token>) {
    forall i | 0 <= i < |ts| :: TokenOk(ts[i])
  }

  predicate SentencesOk(ss: seq<Sentence>) {
    forall i | 0 <= i < |ss| :: TokensOk(ss[i])
  }

  /** On scanner tokens, every test is a test of the first character's class. */
  lemma TokenKinds(t: Token)
    requires TokenOk(t)
    ensures IsSpaceToken(t) <==> ClassOf(t[0]) == Space
    ensures IsNewlineToken(t) <==> ClassOf(t[0]) == Newline
    ensures IsDelimiterToken(t) <==> ClassOf(t[0]) == Delimiter
    ensures IsWordToken(t) <==> ClassOf(t[0]) == Letter
  {
    if ClassOf(t[0]) == Newline { assert t == [t[0]]; }
  }

  lemma {:induction false} TokensAreOk(s: string)
    ensures TokensOk(Tokens(s))
    decreases |s|
  {
    if s == "" {
    } else {
      var n := TokenLength(s);
      TokensAreOk(s[n..]);
    }
  }

  /** How much of the text the first token takes. */
  function TokenLength(s: string): (n: nat)
    requires s != ""
    ensures 0 < n <= |s|
    ensures |Tokens(s)| > 0 && Tokens(s)[1..] == Tokens(s[n..]) && TokenOk(Tokens(s)[0])
    ensures Tokens(s)[0] == s[..Min(n, MAX_WORD - 1)]
  {
    match ClassOf(s[0])
    case Space => Span(s, Space)
    case Letter => Min(Span(s, Letter), MAX_WORD - 1)
    case _ => 1
  }

  /** What the first token takes: characters of one class; of spaces the whole run, of which 127 are
      kept; of a word all, or 127; a newline or delimiter alone. */
  lemma TokenRun(s: string)
    requires s != ""
    ensures var n, k := TokenLength(s), ClassOf(s[0]);
      && Tokens(s) == [s[..Min(n, 127)]] + Tokens(s[n..])
      && (forall i | 0 <= i < n :: ClassOf(s[i]) == k)
      && (k == Space ==> n == |s| || ClassOf(s[n]) != Space)
      && (k == Letter ==> n <= 127 && (n == 127 || n == |s| || ClassOf(s[n]) != Letter))
      && (k != Space && k != Letter ==> n == 1)
  {
    hide Tokens, Span, ClassOf, TokenOk;
    var n, ts := TokenLength(s), Tokens(s);
    assert ts == [ts[0]] + ts[1..];
  }

  /** The token stream unfolded once. */
  lemma FirstToken(s: string) returns (n: nat, t: Token, rest: seq<Token>)
    requires s != ""
    ensures n == TokenLength(s) && t == s[..Min(n, MAX_WORD - 1)] && rest == Tokens(s[n..])
    ensures Tokens(s) == [t] + rest && Concat(Tokens(s)) == t + Concat(rest)
    ensures n == (if ClassOf(s[0]) == Space then Span(s, Space) else |t|)
    ensures ClassOf(s[0]) == Space ==> forall i | 0 <= i < n :: ClassOf(s[i]) == Space
    ensures ClassOf(s[0]) != Space ==> t == s[..n]
  {
    n := TokenLength(s);
    var ts := Tokens(s);
    t, rest := ts[0], ts[1..];
    assert ts == [t] + rest;
  }

  function Concat(ts: seq<Token>): string {
    if ts == [] then "" else ts[0] + Concat(ts[1..])
  }

  function Flatten(ss: seq<Sentence>): seq<Token> {
    if ss == [] then [] else ss[0] + Flatten(ss[1..])
  }

  lemma {:induction false} ConcatAppend(a: seq<Token>, b: seq<Token>)
    ensures Concat(a + b) == Concat(a) + Concat(b)
  {
    if a == [] {
      assert a + b == b;
    } else {
      assert (a + b)[1..] == a[1..] + b;
      ConcatAppend(a[1..], b);
    }
  }

  lemma {:induction false} FlattenAppend(a: seq<Sentence>, b: seq<Sentence>)
    ensures Flatten(a + b) == Flatten(a) + Flatten(b)
  {
    if a == [] {
      assert a + b == b;
    } else {
      assert (a + b)[1..] == a[1..] + b;
      FlattenAppend(a[1..], b);
    }
  }

  lemma TokensOkAppend(a: seq<Token>, b: seq<Token>)
    ensures TokensOk(a + b) <==> TokensOk(a) && TokensOk(b)
  {
    hide TokenOk;
    assert forall i | 0 <= i < |a| :: (a + b)[i] == a[i];
    assert forall i | 0 <= i < |b| :: (a + b)[|a| + i] == b[i];
  }

  lemma SentencesOkStep(ss: seq<Sentence>)
    requires ss != []
    ensures SentencesOk(ss) <==> TokensOk(ss[0]) && SentencesOk(ss[1..])
  {
    hide TokensOk;
    assert forall i | 0 < i < |ss| :: ss[i] == ss[1..][i - 1];
  }

  lemma {:induction false} FlattenOk(ss: seq<Sentence>)
    ensures SentencesOk(ss) <==> TokensOk(Flatten(ss))
  {
    hide TokenOk;
    if ss == [] {
    } else {
      hide TokensOk, SentencesOk;
      FlattenOk(ss[1..]);
      SentencesOkStep(ss);
      TokensOkAppend(ss[0], Flatten(ss[1..]));
    }
  }

  /* ---- Sentences ---- */

  /** The length of the first sentence: up to and including the first delimiter, or all. */
  function HeadLength(ts: seq<Token>): (n: nat)
    ensures n <= |ts| && (ts != [] ==> n > 0)
    ensures forall i | 0 <= i < n - 1 :: !IsDelimiterToken(ts[i])
    ensures n < |ts| ==> IsDelimiterToken(ts[n - 1])
  {
    if ts == [] then 0
    else if IsDelimiterToken(ts[0]) then 1
    else 1 + HeadLength(ts[1..])
  }

  function Head(ts: seq<Token>): seq<Token> {
    ts[..HeadLength(ts)]
  }

  function Tail(ts: seq<Token>): seq<Token> {
    ts[HeadLength(ts)..]
  }

  /** Cut a token stream after each delimiter. */
  function Group(ts: seq<Token>): seq<Sentence>
    decreases |ts|
  {
    if ts == [] then [] else [Head(ts)] + Group(Tail(ts))
  }

  /** What `parse_file` makes of a text. */
  function Parse(s: string): seq<Sentence> {
    Group(Tokens(s))
  }

  /** The tokens of the first `k` sentences, and those after them. */
  function Before(ts: seq<Token>, k: nat): seq<Token>
    decreases k
  {
    if k == 0 then [] else Head(ts) + Before(Tail(ts), k - 1)
  }

  function After(ts: seq<Token>, k: nat): seq<Token>
    decreases k
  {
    if k == 0 then ts else After(Tail(ts), k - 1)
  }

  lemma {:induction false} BeforeAfter(ts: seq<Token>, k: nat)
    ensures Before(ts, k) + After(ts, k) == ts
    decreases k
  {
    hide Head, Tail;
    if k == 0 {
    } else {
      BeforeAfter(Tail(ts), k - 1);
      HeadThenTail(ts);
      var a, b := Before(Tail(ts), k - 1), After(Tail(ts), k - 1);
      assert Head(ts) + a + b == Head(ts) + (a + b);
    }
  }

  lemma HeadThenTail(ts: seq<Token>)
    ensures Head(ts) + Tail(ts) == ts
  {}

  lemma {:induction false} GroupCuts(ts: seq<Token>, k: nat)
    requires k <= |Group(ts)|
    ensures Flatten(Group(ts)[..k]) == Before(ts, k)
    ensures Group(ts)[k..] == Group(After(ts, k))
    ensures Flatten(Group(ts)[k..]) == After(ts, k)
    decreases k
  {
    hide Head, Tail;
    FlattenGroup(ts);
    if k > 0 {
      GroupCuts(Tail(ts), k - 1);
      assert Group(ts)[..k] == [Head(ts)] + Group(Tail(ts))[..k - 1];
      assert Group(ts)[k..] == Group(Tail(ts))[k - 1..];
    } else {
      assert Group(ts)[0..] == Group(ts);
    }
  }

  lemma {:induction false} FlattenGroup(ts: seq<Token>)
    ensures Flatten(Group(ts)) == ts
    decreases |ts|
  {
    if ts == [] {
    } else {
      var g := Group(ts);
      FlattenGroup(Tail(ts));
      assert g[0] == Head(ts) && g[1..] == Group(Tail(ts));
      assert Flatten(g) == Head(ts) + Flatten(Group(Tail(ts)));
    }
  }

  /** The k-th sentence read off the token stream. */
  lemma GroupAt(ts: seq<Token>, k: nat)
    requires k < |Group(ts)|
    ensures Group(ts)[k] == Head(After(ts, k)) && After(ts, k) != []
    ensures After(ts, k + 1) == Tail(After(ts, k))
  {
    GroupCuts(ts, k);
    assert Group(ts)[k] == Group(ts)[k..][0];
    AfterStep(ts, k);
  }

  lemma {:induction false} AfterStep(ts: seq<Token>, k: nat)
    ensures After(ts, k + 1) == Tail(After(ts, k))
    ensures Before(ts, k + 1) == Before(ts, k) + Head(After(ts, k))
    decreases k
  {
    hide HeadLength, IsDelimiterToken;
    if k > 0 {
      AfterStep(Tail(ts), k - 1);
      assert Before(ts, k + 1) == Head(ts) + Before(Tail(ts), k);
    } else {
      assert Before(Tail(ts), 0) == [];
    }
  }

  /* ---- Well-formed documents: what parsing yields and merging keeps ---- */

  predicate EndsWithDelimiter(ts: seq<Token>) {
    ts != [] && IsDelimiterToken(ts[|ts| - 1])
  }

  /** Nonempty, with a delimiter nowhere but at the end, and no two space tokens in a row. */
  predicate SentenceWf(s: Sentence) {
    && s != []
    && TokensOk(s)
    && (forall i | 0 <= i < |s| - 1 :: !IsDelimiterToken(s[i]))
    && NoAdjacentSpaces(s)
  }

  predicate NoAdjacentSpaces(ts: seq<Token>) {
    forall i | 0 <= i < |ts| - 1 :: !(IsSpaceToken(ts[i]) && IsSpaceToken(ts[i + 1]))
  }

  /** A document: well-formed sentences, each but possibly the last ending in its delimiter. */
  predicate Document(ss: seq<Sentence>) {
    && (forall i | 0 <= i < |ss| :: SentenceWf(ss[i]))
    && (forall i | 0 <= i < |ss| - 1 :: EndsWithDelimiter(ss[i]))
  }

  lemma {:induction false} TokensNoAdjacentSpaces(s: string)
    ensures NoAdjacentSpaces(Tokens(s))
    decreases |s|
  {
    TokensAreOk(s);
    if s == "" {
    } else {
      var n := TokenLength(s);
      var ts := Tokens(s);
      TokensNoAdjacentSpaces(s[n..]);
      TokenKinds(ts[0]);
      if |ts| > 1 {
        assert s[n..] != "";
        var m := TokenLength(s[n..]);
        assert ts[1] == Tokens(s[n..])[0];
        TokenKinds(ts[1]);
        assert ts[1][0] == s[n];
      }
      forall i | 0 <= i < |ts| - 1
        ensures !(IsSpaceToken(ts[i]) && IsSpaceToken(ts[i + 1]))
      {
        if i > 0 {
          assert ts[i] == Tokens(s[n..])[i - 1] && ts[i + 1] == Tokens(s[n..])[i];
        } else {
          assert ts[0][0] == s[0];
        }
      }
    }
  }

  lemma {:induction false} GroupIsDocument(ts: seq<Token>)
    requires TokensOk(ts) && NoAdjacentSpaces(ts)
    ensures Document(Group(ts))
    decreases |ts|
  {
    hide IsSpaceToken, TokenOk;
    if ts == [] {
    } else {
      GroupIsDocument(Tail(ts));
      var g := Group(ts);
      assert SentenceWf(Head(ts));
      forall i | 0 <= i < |g| ensures SentenceWf(g[i]) {
        if i > 0 { assert g[i] == Group(Tail(ts))[i - 1]; }
      }
      forall i | 0 <= i < |g| - 1 ensures EndsWithDelimiter(g[i]) {
        if i > 0 { assert g[i] == Group(Tail(ts))[i - 1]; }
      }
    }
  }

  /** Every parsed file is a document. */
  lemma ParseIsDocument(s: string)
    ensures Document(Parse(s)) && SentencesOk(Parse(s))
  {
    TokensAreOk(s);
    TokensNoAdjacentSpaces(s);
    GroupIsDocument(Tokens(s));
  }

  /** Grouping inverts flattening on documents. */
  lemma {:induction false} GroupFlatten(ss: seq<Sentence>)
    requires Document(ss)
    ensures Group(Flatten(ss)) == ss
  {
    if ss == [] {
    } else {
      var rest := Flatten(ss[1..]);
      assert Flatten(ss) == ss[0] + rest;
      HeadOf(ss[0], rest);
      if |ss| == 1 {
        assert rest == [];
      } else {
        assert EndsWithDelimiter(ss[0]);
      }
      assert Head(Flatten(ss)) == ss[0];
      assert Tail(Flatten(ss)) == rest;
      assert Document(ss[1..]) by {
        assert forall i | 0 <= i < |ss[1..]| :: ss[1..][i] == ss[i + 1];
      }
      GroupFlatten(ss[1..]);
    }
  }

  /** A run of tokens with a delimiter only at its end is the head of whatever follows it. */
  lemma {:induction false} HeadOf(s: seq<Token>, rest: seq<Token>)
    requires s != [] && (forall i | 0 <= i < |s| - 1 :: !IsDelimiterToken(s[i]))
    requires EndsWithDelimiter(s) || rest == []
    ensures HeadLength(s + rest) == |s|
  {
    if |s| > 1 {
      assert (s + rest)[1..] == s[1..] + rest;
      HeadOf(s[1..], rest);
    } else {
      assert (s + rest)[1..] == rest;
    }
  }

  /* ---- Lossless tokenizing ---- */

  /** No maximal run of class `k` is longer than a token buffer can hold. */
  predicate RunsFit(s: string, k: CharClass) {
    forall i | 0 <= i <= |s| :: Span(s[i..], k) < MAX_WORD
  }

  lemma RunsFitSuffix(s: string, k: CharClass, n: nat)
    requires RunsFit(s, k) && n <= |s|
    ensures RunsFit(s[n..], k)
  {
    forall i | 0 <= i <= |s[n..]| ensures Span(s[n..][i..], k) < MAX_WORD {
      assert s[n..][i..] == s[n + i..];
    }
  }

  lemma NoTokens()
    ensures Tokens("") == [] && Concat([]) == ""
  {}

  lemma {:induction false} ConcatTokens(s: string)
    requires RunsFit(s, Space)
    ensures Concat(Tokens(s)) == s
    decreases |s|
  {
    hide Tokens, TokenLength, Span, TokenOk, Concat;
    NoTokens();
    if s == "" {
    } else {
      var n, t, rest := FirstToken(s);
      assert s[0..] == s;
      assert t == s[..n];
      RunsFitSuffix(s, Space, n);
      ConcatTokens(s[n..]);
    }
  }

  /** Lossless parsing: with space runs that fit a token, the tokens of the parsed sentences
      spell the file, and only the last sentence may lack its delimiter. */
  lemma LosslessParse(s: string)
    requires RunsFit(s, Space)
    ensures Concat(Flatten(Parse(s))) == s
    ensures Document(Parse(s))
  {
    FlattenGroup(Tokens(s));
    ConcatTokens(s);
    ParseIsDocument(s);
  }

  /** Text with its spaces, tabs and carriage returns left out. */
  function Ink(s: string): string {
    if s == "" then "" else (if ClassOf(s[0]) == Space then "" else [s[0]]) + Ink(s[1..])
  }

  lemma {:induction false} InkAppend(a: string, b: string)
    ensures Ink(a + b) == Ink(a) + Ink(b)
  {
    hide ClassOf;
    if a == "" {
      assert a + b == b;
    } else {
      assert (a + b)[1..] == a[1..] + b;
      InkAppend(a[1..], b);
      var own := if ClassOf(a[0]) == Space then "" else [a[0]];
      assert own + Ink(a[1..]) + Ink(b) == own + (Ink(a[1..]) + Ink(b));
    }
  }

  lemma {:induction false} InkOfSpaces(s: string)
    requires forall i | 0 <= i < |s| :: ClassOf(s[i]) == Space
    ensures Ink(s) == ""
  {
    if s == "" {
    } else {
      InkOfSpaces(s[1..]);
    }
  }

  /** Tokenizing loses nothing but spaces, on any text. */
  lemma {:induction false} InkOfTokens(s: string)
    ensures Ink(Concat(Tokens(s))) == Ink(s)
    decreases |s|
  {
    hide Tokens, TokenLength, Span, TokenOk, Concat, Ink;
    NoTokens();
    if s == "" {
    } else {
      var n, t, rest := FirstToken(s);
      InkOfTokens(s[n..]);
      InkAppend(t, Concat(rest));
      InkAppend(s[..n], s[n..]);
      assert s[..n] + s[n..] == s;
      if ClassOf(s[0]) == Space {
        InkOfSpaces(s[..n]);
        InkOfSpaces(t);
      }
    }
  }

  /* ---- Tokens without the space tokens ---- */

  function Solid(ts: seq<Token>): seq<Token> {
    if ts == [] then []
    else if IsSpaceToken(ts[0]) then Solid(ts[1..])
    else [ts[0]] + Solid(ts[1..])
  }

  /** The sentences up to spaces. */
  function SolidAll(ss: seq<Sentence>): (r: seq<seq<Token>>)
    ensures |r| == |ss| && forall i | 0 <= i < |ss| :: r[i] == Solid(ss[i])
  {
    seq(|ss|, i requires 0 <= i < |ss| => Solid(ss[i]))
  }

  lemma {:induction false} SolidFlatten(ss: seq<Sentence>)
    ensures Solid(Flatten(ss)) == Flatten(SolidAll(ss))
  {
    hide Solid;
    if ss == [] {
      EmptySolid();
    } else {
      assert SolidAll(ss)[1..] == SolidAll(ss[1..]);
      SolidFlatten(ss[1..]);
      SolidAppend(ss[0], Flatten(ss[1..]));
    }
  }

  lemma {:induction false} SolidAppend(a: seq<Token>, b: seq<Token>)
    ensures Solid(a + b) == Solid(a) + Solid(b)
  {
    if a == [] {
      assert a + b == b;
    } else {
      assert (a + b)[1..] == a[1..] + b;
      SolidAppend(a[1..], b);
    }
  }

  lemma {:induction false} SolidOk(ts: seq<Token>)
    requires TokensOk(ts)
    ensures TokensOk(Solid(ts))
    ensures forall i | 0 <= i < |Solid(ts)| :: !IsSpaceToken(Solid(ts)[i])
  {
    if ts == [] {
    } else {
      SolidOk(ts[1..]);
    }
  }

  lemma DelimiterIsSolid(t: Token)
    requires IsDelimiterToken(t)
    ensures !IsSpaceToken(t)
  {}

  /** Leaving out spaces commutes with cutting sentences. */
  lemma {:induction false} SolidHead(ts: seq<Token>)
    ensures Solid(Head(ts)) == Head(Solid(ts))
    ensures Solid(Tail(ts)) == Tail(Solid(ts))
  {
    hide IsSpaceToken, IsDelimiterToken, Head, Tail, Solid;
    EmptySolid();
    if ts == [] {
    } else {
      HeadStep(ts);
      SolidStep(ts[0], ts[1..]);
      assert ts == [ts[0]] + ts[1..];
      if IsDelimiterToken(ts[0]) {
        DelimiterIsSolid(ts[0]);
        SolidStep(ts[0], []);
        assert [ts[0]] == [ts[0]] + [];
        HeadStep(Solid(ts));
      } else {
        SolidHead(ts[1..]);
        SolidStep(ts[0], Head(ts[1..]));
        if !IsSpaceToken(ts[0]) { HeadStep(Solid(ts)); }
      }
    }
  }

  lemma EmptySolid()
    ensures Solid([]) == [] && Head([]) == [] && Tail([]) == []
  {}

  lemma SolidStep(t: Token, rest: seq<Token>)
    ensures Solid([t] + rest) == if IsSpaceToken(t) then Solid(rest) else [t] + Solid(rest)
  {
    hide IsSpaceToken;
    assert ([t] + rest)[1..] == rest;
  }

  lemma HeadStep(ts: seq<Token>)
    requires ts != []
    ensures IsDelimiterToken(ts[0]) ==> Head(ts) == [ts[0]] && Tail(ts) == ts[1..]
    ensures !IsDelimiterToken(ts[0]) ==> Head(ts) == [ts[0]] + Head(ts[1..]) && Tail(ts) == Tail(ts[1..])
  {
    hide IsDelimiterToken;
  }

  lemma {:induction false} SolidCuts(ts: seq<Token>, k: nat)
    ensures Solid(Before(ts, k)) == Before(Solid(ts), k)
    ensures Solid(After(ts, k)) == After(Solid(ts), k)
    decreases k
  {
    if k == 0 {
    } else {
      SolidHead(ts);
      SolidCuts(Tail(ts), k - 1);
      SolidAppend(Head(ts), Before(Tail(ts), k - 1));
    }
  }
}
