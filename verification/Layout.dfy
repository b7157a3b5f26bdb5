/** Where the printer puts spaces, on characters: what reading a file and writing it back makes of
    its text, and the exact text after a WRITE. */
module Layout {
  import opened Wrappers
  import opened Text
  import opened Printer
  import opened Insertion
  import opened Merge

  predicate Blank(c: char) {
    c == ' ' || c == '\t' || c == '\r' || c == '\n'
  }

  predicate Stop(c: char) {
    c == '.' || c == '!' || c == '?'
  }

  predicate EndsFull(a: string) {
    a != "" && !Blank(a[|a| - 1])
  }

  predicate StartsFull(a: string) {
    a != "" && !Blank(a[0])
  }

  predicate EndsInStop(a: string) {
    a != "" && Stop(a[|a| - 1])
  }

  /** Between two sentences: a space unless one side is blank there. */
  function SentenceBreak(a: string, b: string): string {
    if EndsFull(a) && StartsFull(b) then " " else ""
  }

  /** Behind a sentence that an empty one follows. */
  function EmptyBreak(a: string): string {
    if EndsFull(a) then " " else ""
  }

  /** Inside a sentence: a space between two words. */
  function WordBreak(a: string, b: string): string {
    if EndsFull(a) && !EndsInStop(a) && StartsFull(b) && !Stop(b[0]) then " " else ""
  }

  /** The break behind the text `a` of a sentence when the sentences `rest` follow. */
  function Break(a: string, rest: seq<Sentence>): string {
    if rest == [] then ""
    else if rest[0] == [] then EmptyBreak(a)
    else SentenceBreak(a, rest[0][0])
  }

  lemma CharClasses(c: char)
    ensures Blank(c) <==> ClassOf(c) == Space || ClassOf(c) == Newline
    ensures Stop(c) <==> ClassOf(c) == Delimiter
    ensures !Blank(c) && !Stop(c) <==> ClassOf(c) == Letter
  {}

  /* ---- Laws of the printer ---- */

  lemma TokenChars(t: Token)
    requires TokenOk(t)
    ensures IsBlankToken(t) <==> Blank(t[0])
    ensures IsBlankToken(t) <==> Blank(t[|t| - 1])
    ensures IsWordToken(t) <==> !Blank(t[0]) && !Stop(t[0])
    ensures IsWordToken(t) <==> !Blank(t[|t| - 1]) && !Stop(t[|t| - 1])
    ensures IsDelimiterToken(t) <==> Stop(t[0])
    ensures forall i | 0 <= i < |t| :: ClassOf(t[i]) == ClassOf(t[0])
  {
    TokenKinds(t);
    CharClasses(t[0]);
    CharClasses(t[|t| - 1]);
  }

  /** A single token is printed as it is, an empty sentence as nothing. */
  lemma PrintToken(t: Token)
    ensures Print([[t]]) == t && Print([[]]) == "" && Print([]) == ""
  {
    assert Inner([t]) == [t] && SentenceGap([t], []) == [];
    var none: Sentence := [];
    InnerNothing();
    assert [[t]][1..] == [] && [none][1..] == [] && [t][1..] == [];
    assert SentenceGap(none, []) == [] && Expand([]) == [];
    assert Expand([[t]]) == [t] && Expand([none]) == [];
    assert Print([none]) == "";
    assert Print([]) == "";
    assert Print([[t]]) == t;
  }

  lemma PrintOne(s: Sentence)
    ensures Print([s]) == Concat(Inner(s))
  {
    assert [s][1..] == [] && SentenceGap(s, []) == [];
    assert Expand([s]) == Inner(s);
  }

  lemma {:induction false} ConcatEnds(ts: seq<Token>)
    requires TokensOk(ts) && ts != []
    ensures Concat(ts) != ""
    ensures Concat(ts)[0] == ts[0][0]
    ensures var t := ts[|ts| - 1]; Concat(ts)[|Concat(ts)| - 1] == t[|t| - 1]
  {
    if |ts| > 1 {
      ConcatEnds(ts[1..]);
      var c := Concat(ts[1..]);
      assert Concat(ts)[|Concat(ts)| - 1] == c[|c| - 1];
    } else {
      assert ts[1..] == [] && Concat(ts) == ts[0];
    }
  }

  /** A printed sentence begins and ends as its tokens do. */
  lemma PrintEnds(s: Sentence)
    requires TokensOk(s)
    ensures Print([s]) == "" <==> s == []
    ensures s != [] ==>
      var t := s[|s| - 1]; Print([s])[0] == s[0][0] && Print([s])[|Print([s])| - 1] == t[|t| - 1]
  {
    hide Inner, Print, TokenOk;
    PrintOne(s);
    if s != [] {
      InnerFacts(s);
      ConcatEnds(Inner(s));
    } else {
      InnerNothing();
    }
  }

  lemma {:induction false} InnerJoin(a: Sentence, b: Sentence)
    ensures Inner(a + b) == Inner(a) + (if a == [] || b == [] then [] else WordGap(a[|a| - 1], b[0])) + Inner(b)
  {
    hide WordGap;
    if a == [] {
      assert a + b == b && Inner(a) == [];
    } else if b == [] {
      assert a + b == a && Inner(b) == [];
    } else {
      assert (a + b)[1..] == a[1..] + b;
      InnerJoin(a[1..], b);
      if |a| == 1 {
        assert a[1..] + b == b;
        InnerStep(a + b);
      } else {
        InnerStep(a + b);
        InnerStep(a);
      }
    }
  }

  lemma GapIsWordBreak(a: Sentence, b: Sentence)
    requires TokensOk(a) && TokensOk(b)
    ensures Concat(if a == [] || b == [] then [] else WordGap(a[|a| - 1], b[0])) == WordBreak(Print([a]), Print([b]))
  {
    hide Blank, Stop, TokenOk, IsWordToken, Print, Concat;
    PrintEnds(a);
    PrintEnds(b);
    ConcatGap(if a == [] || b == [] then [] else WordGap(a[|a| - 1], b[0]));
    if a != [] && b != [] {
      TokenChars(a[|a| - 1]);
      TokenChars(b[0]);
    }
  }

  /** Two runs of tokens of one sentence: a space exactly between two words. */
  lemma PrintJoin(a: Sentence, b: Sentence)
    requires TokensOk(a) && TokensOk(b)
    ensures Print([a + b]) == Print([a]) + WordBreak(Print([a]), Print([b])) + Print([b])
  {
    hide Inner, Print, WordBreak, WordGap, TokensOk, Concat;
    PrintOne(a);
    PrintOne(b);
    PrintOne(a + b);
    InnerJoin(a, b);
    GapIsWordBreak(a, b);
    var g := if a == [] || b == [] then [] else WordGap(a[|a| - 1], b[0]);
    ConcatAppend(Inner(a) + g, Inner(b));
    ConcatAppend(Inner(a), g);
  }

  lemma ConcatGap(g: seq<Token>)
    requires g == [] || g == [" "]
    ensures Concat(g) == if g == [] then "" else " "
  {
    if g != [] { assert g[1..] == []; }
  }

  lemma GapIsBreak(s: Sentence, rest: seq<Sentence>)
    requires TokensOk(s) && SentencesOk(rest)
    ensures Concat(SentenceGap(s, rest)) == Break(Print([s]), rest)
  {
    hide Blank, Stop, TokenOk, IsBlankToken, Print, Concat;
    PrintEnds(s);
    ConcatGap(SentenceGap(s, rest));
    if s != [] { TokenChars(s[|s| - 1]); }
    if rest != [] && rest[0] != [] {
      assert TokensOk(rest[0]);
      TokenChars(rest[0][0]);
      TokenNotEmpty(rest[0][0]);
    }
  }

  /** A sentence and what follows it. */
  lemma PrintStep(s: Sentence, rest: seq<Sentence>)
    requires TokensOk(s) && SentencesOk(rest)
    ensures Print([s] + rest) == Print([s]) + Break(Print([s]), rest) + Print(rest)
  {
    hide Inner, Break, SentenceGap, TokensOk;
    var ss, g := [s] + rest, SentenceGap(s, rest);
    assert ss[1..] == rest;
    PrintOne(s);
    GapIsBreak(s, rest);
    assert Expand(ss) == Inner(s) + g + Expand(rest);
    ConcatAppend(Inner(s) + g, Expand(rest));
    ConcatAppend(Inner(s), g);
  }

  /** Two runs of sentences. */
  lemma {:induction false} PrintSentences(a: seq<Sentence>, b: seq<Sentence>)
    requires SentencesOk(a) && SentencesOk(b) && a != []
    ensures Print(a + b) == Print(a) + Break(Print([a[|a| - 1]]), b) + Print(b)
  {
    hide Print, Break, TokensOk;
    if |a| == 1 {
      assert a == [a[0]];
      PrintStep(a[0], b);
    } else {
      var rest := a[1..];
      assert a == [a[0]] + rest && a + b == [a[0]] + (rest + b);
      PrintSentences(rest, b);
      PrintStep(a[0], rest);
      PrintStep(a[0], rest + b);
      SameBreak(Print([a[0]]), rest, b);
    }
  }

  lemma SameBreak(a: string, rest: seq<Sentence>, b: seq<Sentence>)
    requires rest != []
    ensures Break(a, rest + b) == Break(a, rest)
  {}

  /* ---- Reading a file and writing it back ---- */

  /** A space behind every delimiter that something other than a blank follows. */
  function Spread(s: string): string {
    if |s| <= 1 then s
    else [s[0]] + (if Stop(s[0]) && !Blank(s[1]) then " " else "") + Spread(s[1..])
  }

  lemma {:induction false} SpreadSplit(a: string, b: string)
    requires forall i | 0 <= i < |a| - 1 :: !Stop(a[i])
    ensures Spread(a + b) == a + (if EndsInStop(a) then SentenceBreak(a, b) else "") + Spread(b)
  {
    hide Blank, Stop, SentenceBreak, Spread, EndsInStop;
    if a == "" {
      assert a + b == b;
      NothingEnds(b);
    } else if |a| == 1 {
      OneStop(a, b);
    } else {
      var rest := a[1..];
      assert forall i | 0 <= i < |rest| - 1 :: rest[i] == a[i + 1];
      assert !Stop(a[0]);
      SpreadSplit(rest, b);
      BreakOfRest(a, b);
      PlainStep(a[0], rest + b);
      assert a + b == [a[0]] + (rest + b);
      var g := if EndsInStop(a) then SentenceBreak(a, b) else "";
      PrependTo(a[0], rest, g, Spread(b));
      assert a == [a[0]] + rest;
    }
  }

  lemma NothingEnds(b: string)
    ensures !EndsInStop("") && "" + "" + Spread(b) == Spread(b)
  {}

  lemma PlainStep(c: char, t: string)
    requires !Stop(c) && t != ""
    ensures Spread([c] + t) == [c] + Spread(t)
  {
    assert ([c] + t)[1..] == t;
  }

  lemma PrependTo(c: char, a: string, b: string, d: string)
    ensures [c] + (a + b + d) == ([c] + a) + b + d
  {}

  lemma BreakOfRest(a: string, b: string)
    requires |a| > 1
    ensures SentenceBreak(a[1..], b) == SentenceBreak(a, b) && EndsInStop(a[1..]) == EndsInStop(a)
  {}

  lemma OneStop(a: string, b: string)
    requires |a| == 1
    ensures Spread(a + b) == a + (if EndsInStop(a) then SentenceBreak(a, b) else "") + Spread(b)
  {
    hide Blank, Stop;
    assert (a + b)[1..] == b;
    StopIsNotBlank(a[0]);
    if b == "" { assert a + b == a; }
  }

  lemma StopIsNotBlank(c: char)
    ensures Stop(c) ==> !Blank(c)
  {}

  /** Only the last character of a sentence's text can be a delimiter. */
  lemma {:induction false} StopsAtEnd(ts: seq<Token>)
    requires TokensOk(ts) && forall i | 0 <= i < |ts| - 1 :: !IsDelimiterToken(ts[i])
    ensures var c := Concat(ts); forall i | 0 <= i < |c| - 1 :: !Stop(c[i])
    ensures EndsInStop(Concat(ts)) <==> EndsWithDelimiter(ts)
  {
    hide IsDelimiterToken, Stop;
    if ts == [] {
    } else {
      var t, rest := ts[0], ts[1..];
      assert forall i | 0 <= i < |rest| :: rest[i] == ts[i + 1];
      StopsAtEnd(rest);
      OneToken(t);
      if rest == [] {
        assert Concat(ts) == t;
      } else {
        ConcatEnds(rest);
        assert ts[|ts| - 1] == rest[|rest| - 1];
      }
    }
  }

  lemma OneToken(t: Token)
    requires TokenOk(t)
    ensures forall i | 0 <= i < |t| :: Stop(t[i]) <==> IsDelimiterToken(t)
    ensures IsDelimiterToken(t) ==> |t| == 1
  {
    TokenKinds(t);
    forall i | 0 <= i < |t| ensures Stop(t[i]) <==> IsDelimiterToken(t) {
      CharClasses(t[i]);
    }
  }

  lemma {:induction false} InnerStops(s: Sentence)
    requires forall i | 0 <= i < |s| - 1 :: !IsDelimiterToken(s[i])
    ensures var r := Inner(s); forall i | 0 <= i < |r| - 1 :: !IsDelimiterToken(r[i])
    ensures EndsWithDelimiter(Inner(s)) <==> EndsWithDelimiter(s)
  {
    hide IsDelimiterToken, IsWordToken;
    SpaceTokenOk();
    if |s| > 1 {
      InnerStep(s);
      assert forall i | 0 <= i < |s[1..]| :: s[1..][i] == s[i + 1];
      InnerStops(s[1..]);
      InnerEnds(s[1..]);
    }
  }

  /** Of any tokens: the sentences are printed as the tokens in one run, spread out. */
  lemma {:induction false} GroupSpread(ts: seq<Token>)
    requires TokensOk(ts)
    ensures Print(Group(ts)) == Spread(Print([ts]))
    decreases |ts|
  {
    hide Print, TokensOk;
    if ts == [] {
      PrintToken("");
    } else {
      var h, t := Head(ts), Tail(ts);
      assert ts == h + t;
      TokensOkAppend(h, t);
      GroupSpread(t);
      HeadSpread(h, t);
    }
  }

  /** A sentence that is closed, or the last, in front of the others. */
  lemma HeadSpread(h: Sentence, t: seq<Token>)
    requires TokensOk(h) && TokensOk(t) && (forall i | 0 <= i < |h| - 1 :: !IsDelimiterToken(h[i]))
    requires t != [] ==> EndsWithDelimiter(h)
    requires Print(Group(t)) == Spread(Print([t]))
    ensures Print([h] + Group(t)) == Spread(Print([h + t]))
  {
    hide Print, Inner, Break, TokensOk, IsDelimiterToken, Group, WordBreak, SentenceBreak, EndsInStop, Spread, Stop;
    FlattenGroup(t);
    FlattenOk(Group(t));
    PrintStep(h, Group(t));
    PrintJoin(h, t);
    HeadText(h);
    PrintEnds(t);
    SpreadSplit(Print([h]), Print([t]));
    GroupBreak(Print([h]), t);
    StopsNoWord(Print([h]), Print([t]));
    assert Print([h]) + "" + Print([t]) == Print([h]) + Print([t]);
  }

  lemma HeadText(h: Sentence)
    requires TokensOk(h) && forall i | 0 <= i < |h| - 1 :: !IsDelimiterToken(h[i])
    ensures var c := Print([h]);
      (forall i | 0 <= i < |c| - 1 :: !Stop(c[i])) && (EndsInStop(c) <==> EndsWithDelimiter(h))
  {
    hide Print, Inner, TokenOk, IsDelimiterToken, Stop;
    PrintOne(h);
    InnerStops(h);
    InnerFacts(h);
    StopsAtEnd(Inner(h));
  }

  lemma GroupBreak(a: string, t: seq<Token>)
    requires TokensOk(t)
    ensures Break(a, Group(t)) == SentenceBreak(a, Print([t]))
  {
    hide Print, Blank, Stop, TokenOk;
    PrintEnds(t);
    if t != [] {
      assert TokenOk(t[0]);
      assert Group(t)[0] == Head(t) && Head(t)[0] == t[0];
      TokenNotEmpty(t[0]);
    }
  }

  lemma TokenNotEmpty(t: Token)
    requires TokenOk(t)
    ensures t != ""
  {}

  lemma StopsNoWord(a: string, b: string)
    ensures EndsInStop(a) ==> WordBreak(a, b) == ""
    ensures b == "" ==> WordBreak(a, b) == "" && SentenceBreak(a, b) == ""
  {}

  lemma {:induction false} TokensApart(s: string)
    requires RunsFit(s, Letter)
    ensures WordsApart(Tokens(s))
    decreases |s|
  {
    hide Tokens, ClassOf, Span, RunsFit;
    if s == "" {
      NoTokens();
    } else {
      var n, t, rest := FirstToken(s);
      RunsFitSuffix(s, Letter, n);
      TokensApart(s[n..]);
      NoTokens();
      if s[n..] != "" { NextIsNoWord(s, n); }
      assert Tokens(s) == [t] + rest;
      OneApart(t);
      WordsApartJoin([t], rest);
    }
  }

  /** A word that fits a token is followed by something else. */
  lemma NextIsNoWord(s: string, n: nat)
    requires s != "" && n == TokenLength(s) < |s| && RunsFit(s, Letter)
    ensures Tokens(s) != [] && Tokens(s[n..]) != []
    ensures !IsWordToken(Tokens(s)[0]) || !IsWordToken(Tokens(s[n..])[0])
  {
    hide Tokens, ClassOf;
    TokenRun(s);
    TokenRun(s[n..]);
    assert s[0..] == s && Span(s[0..], Letter) < MAX_WORD;
    var t, u := Tokens(s)[0], Tokens(s[n..])[0];
    TokenKinds(t);
    var m := TokenLength(s[n..]);
    TokenKinds(u);
    if ClassOf(s[0]) == Letter {
      SpanEnds(s, Letter, n);
    }
  }

  lemma {:induction false} SpanEnds(s: string, k: CharClass, n: nat)
    requires n < |s| && Span(s, k) == n
    ensures ClassOf(s[n]) != k
  {
    if n > 0 { SpanEnds(s[1..], k, n - 1); }
  }

  /** Reading any text and writing it back: its tokens in one run, spread out. */
  lemma PrintParse(s: string)
    ensures Print(Parse(s)) == Spread(Print([Tokens(s)]))
  {
    TokensAreOk(s);
    GroupSpread(Tokens(s));
  }

  /** When its words and runs of spaces fit a token: the text with a space behind every delimiter that
      something other than a blank follows, and not one character more or less. */
  lemma PrintIsSpread(s: string)
    requires RunsFit(s, Letter) && RunsFit(s, Space)
    ensures Print(Parse(s)) == Spread(s)
  {
    hide Print, Inner, Tokens, RunsFit, WordsApart, Spread, Parse;
    PrintParse(s);
    TokensApart(s);
    InnerIdempotent(Tokens(s));
    PrintOne(Tokens(s));
    ConcatTokens(s);
  }

  /** So such a text is left alone if and only if every delimiter is followed by a blank, or ends it. */
  lemma {:induction false} SpreadSame(s: string)
    ensures |Spread(s)| >= |s|
    ensures Spread(s) == s <==> |Spread(s)| == |s|
    ensures Spread(s) == s <==> forall i | 0 <= i < |s| - 1 && Stop(s[i]) :: Blank(s[i + 1])
  {
    hide Stop, Blank;
    if |s| > 1 {
      SpreadSame(s[1..]);
      assert forall i | 0 < i < |s| :: s[i] == s[1..][i - 1];
      assert s == [s[0]] + s[1..];
      if Stop(s[0]) && !Blank(s[1]) {
        assert |Spread(s)| == 2 + |Spread(s[1..])|;
      } else {
        assert Spread(s) == [s[0]] + Spread(s[1..]);
        assert Spread(s)[1..] == Spread(s[1..]);
      }
    }
  }

  /* ---- Word positions ---- */

  /** The tokens that a word position counts: those that do not begin with a blank character. */
  function Visible(ts: seq<Token>): nat {
    if ts == [] then 0 else (if StartsFull(ts[0]) then 1 else 0) + Visible(ts[1..])
  }

  lemma {:induction false} VisibleIs(ts: seq<Token>)
    requires TokensOk(ts)
    ensures RealWords(ts) == Visible(ts)
  {
    hide TokenOk, Blank, IsBlankToken;
    if ts != [] {
      assert TokenOk(ts[0]);
      TokenNotEmpty(ts[0]);
      TokenChars(ts[0]);
      VisibleIs(ts[1..]);
    }
  }

  /** Where a word position is. */
  lemma PositionIs(s: Sentence, w: int)
    requires TokensOk(s)
    ensures ValidWord(s, w) <==> 1 <= w <= Visible(s) + 1
    ensures ValidWord(s, w) ==>
      var p := WordPos(s, w);
      if w == 1 then p == 0
      else if w == Visible(s) + 1 then p == |s|
      else 0 < p && StartsFull(s[p - 1]) && Visible(s[..p]) == w - 1
  {
    hide TokenOk, StartsFull, RealWords, Visible;
    VisibleIs(s);
    if ValidWord(s, w) && 1 < w <= Visible(s) { InnerPosition(s, w); }
  }

  lemma InnerPosition(s: Sentence, w: int)
    requires TokensOk(s) && 1 < w <= RealWords(s)
    ensures var p := WordPos(s, w); 0 < p && StartsFull(s[p - 1]) && Visible(s[..p]) == w - 1
  {
    hide TokenOk, StartsFull, RealWords, Visible, PastWord;
    var p := WordPos(s, w);
    WordPosCounts(s, w);
    TokensOkParts(s, p);
    VisibleIs(s[..p]);
    EndsCounted(s, w - 1);
  }

  lemma {:induction false} EndsCounted(s: Sentence, k: nat)
    requires TokensOk(s) && 1 <= k <= RealWords(s)
    ensures var p := PastWord(s, k); 0 < p && StartsFull(s[p - 1])
  {
    assert TokenOk(s[0]);
    TokenNotEmpty(s[0]);
    TokenChars(s[0]);
    if IsBlankToken(s[0]) {
      EndsCounted(s[1..], k);
    } else if k > 1 {
      EndsCounted(s[1..], k - 1);
    }
  }

  /* ---- The text after a WRITE ---- */

  /** The number of characters up to and including the last delimiter. */
  function AfterLastStop(s: string): (c: nat)
    ensures c <= |s| && (c > 0 ==> Stop(s[c - 1]))
    ensures forall i | c <= i < |s| :: !Stop(s[i])
  {
    if s == "" then 0
    else if Stop(s[|s| - 1]) then |s|
    else AfterLastStop(s[..|s| - 1])
  }

  lemma AfterLastStopIs(s: string, c: nat)
    requires c <= |s| && (c > 0 ==> Stop(s[c - 1])) && forall i | c <= i < |s| :: !Stop(s[i])
    ensures AfterLastStop(s) == c
  {}

  /** The content as it is written: with a break where it goes on after its last delimiter. */
  function Written(content: string): string {
    var c := AfterLastStop(content);
    content[..c] + SentenceBreak(content[..c], content[c..]) + content[c..]
  }

  /** The sentence that is written to: `left` and `right` are its text around the word position. */
  function Body(left: string, content: string, right: string): string {
    left + WordBreak(left, content) + Written(content) + WordBreak(content, right) + right
  }

  /** The file: `before` and `after` are its other sentences. */
  function WrittenFile(before: string, left: string, content: string, right: string, after: string): string {
    var body := Body(left, content, right);
    Spread(before) + (if body == "" then EmptyBreak(before) else SentenceBreak(before, body))
    + body
    + (if AfterLastStop(content) > 0 then EmptyBreak(body) else SentenceBreak(body, after)) + Spread(after)
  }

  lemma BreaksAppend(a: string, b: string)
    ensures b != "" ==> EndsFull(a + b) == EndsFull(b) && EndsInStop(a + b) == EndsInStop(b)
    ensures a != "" ==> StartsFull(a + b) == StartsFull(a) && (a + b)[0] == a[0]
  {}

  lemma {:induction false} PrintEmpties(n: nat)
    ensures Print(Empties(n)) == "" && SentencesOk(Empties(n))
  {
    hide Print;
    if n == 0 {
      PrintToken("");
      assert Empties(0) == [];
    } else {
      PrintEmpties(n - 1);
      assert Empties(n) == [[]] + Empties(n - 1);
      PrintToken("");
      PrintStep([], Empties(n - 1));
    }
  }

  lemma PrintPadded(a: Sentence, n: nat)
    requires TokensOk(a)
    ensures Print([a] + Empties(n)) == Print([a]) + if n > 0 then EmptyBreak(Print([a])) else ""
  {
    hide Print, EmptyBreak, TokensOk;
    PrintEmpties(n);
    PrintStep(a, Empties(n));
  }

  /** Tokens without adjacent words are printed as they are. */
  lemma PrintApart(ts: seq<Token>)
    requires WordsApart(ts)
    ensures Print([ts]) == Concat(ts)
  {
    PrintOne(ts);
    InnerIdempotent(ts);
  }

  lemma ApartParts(ts: seq<Token>, i: nat)
    requires WordsApart(ts) && i <= |ts|
    ensures WordsApart(ts[..i]) && WordsApart(ts[i..])
    ensures Concat(ts) == Concat(ts[..i]) + Concat(ts[i..])
  {
    hide IsWordToken, Concat;
    assert ts[..i] + ts[i..] == ts;
    ConcatAppend(ts[..i], ts[i..]);
    assert forall j | 0 <= j < |ts| - i :: ts[i..][j] == ts[i + j];
  }

  lemma TokensOkParts(ts: seq<Token>, i: nat)
    requires TokensOk(ts) && i <= |ts|
    ensures TokensOk(ts[..i]) && TokensOk(ts[i..])
  {
    assert ts[..i] + ts[i..] == ts;
    TokensOkAppend(ts[..i], ts[i..]);
  }

  lemma ConcatEmpty(ts: seq<Token>)
    requires TokensOk(ts)
    ensures Concat(ts) == "" <==> ts == []
  {
    if ts != [] { ConcatEnds(ts); }
  }

  /** The last delimiter among the tokens is the last among the characters. */
  lemma StopOfParts(parts: seq<Token>)
    requires TokensOk(parts)
    ensures var n := LastDelimiterEnd(parts);
      && Concat(parts) == Concat(parts[..n]) + Concat(parts[n..])
      && AfterLastStop(Concat(parts)) == |Concat(parts[..n])|
      && (DelimiterCount(parts) > 0 <==> n > 0)
  {
    hide Stop, TokenOk, LastDelimiterEnd, DelimiterCount, IsDelimiterToken, Concat;
    var n := LastDelimiterEnd(parts);
    var a, b := parts[..n], parts[n..];
    assert a + b == parts;
    TokensOkParts(parts, n);
    ConcatAppend(a, b);
    assert forall i | 0 <= i < |b| :: b[i] == parts[n + i];
    NoStops(b);
    if n > 0 {
      ConcatEnds(a);
      OneToken(parts[n - 1]);
      assert a[|a| - 1] == parts[n - 1];
      assert TokenOk(parts[n - 1]);
    }
    AfterLastStopIs(Concat(parts), |Concat(a)|);
    CountOrNone(parts);
  }

  lemma CountOrNone(parts: seq<Token>)
    ensures DelimiterCount(parts) > 0 <==> LastDelimiterEnd(parts) > 0
  {
    SplitsHasDelimiter(parts);
    if DelimiterCount(parts) > 0 && LastDelimiterEnd(parts) == 0 { NoneCounted(parts); }
  }

  lemma {:induction false} NoneCounted(ts: seq<Token>)
    requires forall i | 0 <= i < |ts| :: !IsDelimiterToken(ts[i])
    ensures DelimiterCount(ts) == 0
  {
    if ts != [] { NoneCounted(ts[1..]); }
  }

  predicate NoStop(s: string) {
    forall i | 0 <= i < |s| :: !Stop(s[i])
  }

  lemma {:induction false} NoStops(ts: seq<Token>)
    requires TokensOk(ts) && forall i | 0 <= i < |ts| :: !IsDelimiterToken(ts[i])
    ensures NoStop(Concat(ts))
  {
    hide IsDelimiterToken, Stop, TokenOk;
    if ts != [] {
      assert forall i | 0 <= i < |ts| - 1 :: ts[1..][i] == ts[i + 1];
      NoStops(ts[1..]);
      assert TokenOk(ts[0]);
      OneToken(ts[0]);
      var t, rest := ts[0], Concat(ts[1..]);
      assert !IsDelimiterToken(ts[0]);
      assert NoStop(t) && NoStop(rest);
      assert Concat(ts) == t + rest;
    }
  }

  /** Three runs of tokens of one sentence. */
  lemma PrintThree(a: seq<Token>, b: seq<Token>, c: seq<Token>)
    requires TokensOk(a) && TokensOk(b) && TokensOk(c) && b != []
    ensures Print([a + b + c])
      == Print([a]) + WordBreak(Print([a]), Print([b])) + Print([b]) + WordBreak(Print([b]), Print([c])) + Print([c])
  {
    hide Print, TokensOk, Blank, Stop;
    TokensOkAppend(a, b);
    PrintJoin(a + b, c);
    PrintJoin(a, b);
    PrintEnds(b);
    BreaksAppend(Print([a]) + WordBreak(Print([a]), Print([b])), Print([b]));
  }

  /** The sentences of an insertion: one, or two cut behind the last delimiter, and an empty one for
      every delimiter. */
  lemma SplicedShape(s: Sentence, p: nat, parts: seq<Token>)
    requires p <= |s|
    ensures var n, d := LastDelimiterEnd(parts), DelimiterCount(parts);
      Spliced(s, p, parts) ==
        if 0 < n < |parts| then [s[..p] + parts[..n]] + ([parts[n..] + s[p..]] + Empties(d))
        else [s[..p] + parts + s[p..]] + Empties(d)
  {
    hide LastDelimiterEnd, DelimiterCount, Empties;
    var n, d := LastDelimiterEnd(parts), DelimiterCount(parts);
    if 0 < n < |parts| {
      PairFirst(s[..p] + parts[..n], parts[n..] + s[p..], Empties(d));
      assert Created(parts) - 1 == d;
    }
  }

  lemma PairFirst(a: Sentence, b: Sentence, rest: seq<Sentence>)
    ensures [a, b] + rest == [a] + ([b] + rest)
  {}

  /** What the insertion makes of one sentence. */
  lemma PrintSpliced(s: Sentence, p: nat, parts: seq<Token>)
    requires TokensOk(s) && TokensOk(parts) && WordsApart(s) && WordsApart(parts) && p <= |s| && parts != []
    ensures var r := Spliced(s, p, parts);
      var body := Body(Concat(s[..p]), Concat(parts), Concat(s[p..]));
      && Print(r) == body + (if AfterLastStop(Concat(parts)) > 0 then EmptyBreak(body) else "")
      && SentencesOk(r) && r[0] != [] && r[0][0] != "" && body != "" && body[0] == r[0][0][0]
      && (AfterLastStop(Concat(parts)) > 0 ==> r[|r| - 1] == [])
      && (AfterLastStop(Concat(parts)) == 0 ==> Print([r[|r| - 1]]) == body)
  {
    hide Print, LastDelimiterEnd, DelimiterCount, Body, WordsApart, EmptyBreak, TokenOk, Spliced, AfterLastStop;
    var n, d := LastDelimiterEnd(parts), DelimiterCount(parts);
    SplicedOk(s, p, parts);
    SplicedShape(s, p, parts);
    StopOfParts(parts);
    TokensOkParts(s, p);
    TokensOkParts(parts, n);
    if 0 < n < |parts| {
      PrintSplit(s, p, parts, n, d);
      TokenNotEmpty((s[..p] + parts[..n])[0]);
    } else {
      TokensOkAppend(s[..p], parts);
      TokensOkAppend(s[..p] + parts, s[p..]);
      PrintUnsplit(s, p, parts);
      PrintPadded(s[..p] + parts + s[p..], d);
      TokenNotEmpty((s[..p] + parts + s[p..])[0]);
      if n > 0 { StopCounts(parts); }
    }
  }

  lemma StopCounts(parts: seq<Token>)
    requires TokensOk(parts) && LastDelimiterEnd(parts) > 0
    ensures AfterLastStop(Concat(parts)) > 0
  {
    hide LastDelimiterEnd, AfterLastStop, DelimiterCount, TokenOk;
    StopOfParts(parts);
    TokensOkParts(parts, LastDelimiterEnd(parts));
    ConcatEmpty(parts[..LastDelimiterEnd(parts)]);
  }

  /** Content that ends in its last delimiter, or has none, stays in one sentence. */
  lemma PrintUnsplit(s: Sentence, p: nat, parts: seq<Token>)
    requires TokensOk(s) && TokensOk(parts) && WordsApart(s) && WordsApart(parts) && p <= |s| && parts != []
    requires !(0 < LastDelimiterEnd(parts) < |parts|)
    ensures var a, body := s[..p] + parts + s[p..], Body(Concat(s[..p]), Concat(parts), Concat(s[p..]));
      Print([a]) == body && body != "" && body[0] == a[0][0]
  {
    hide Print, TokensOk, LastDelimiterEnd, WordsApart, WordBreak, SentenceBreak, AfterLastStop;
    var a, c := s[..p] + parts + s[p..], Concat(parts);
    StopOfParts(parts);
    var n := LastDelimiterEnd(parts);
    if n == 0 { assert parts[..0] == []; } else { assert parts[..n] == parts && parts[n..] == []; }
    Unbroken(c);
    ApartParts(s, p);
    PrintApart(s[..p]);
    PrintApart(s[p..]);
    PrintApart(parts);
    TokensOkParts(s, p);
    PrintThree(s[..p], parts, s[p..]);
    TokensOkAppend(s[..p], parts);
    TokensOkAppend(s[..p] + parts, s[p..]);
    PrintEnds(a);
  }

  lemma Unbroken(c: string)
    requires AfterLastStop(c) == 0 || AfterLastStop(c) == |c|
    ensures Written(c) == c
  {
    if AfterLastStop(c) == |c| { assert c[..|c|] == c && c[|c|..] == ""; }
  }

  /** Other content is cut behind its last delimiter. */
  lemma PrintSplit(s: Sentence, p: nat, parts: seq<Token>, n: nat, d: nat)
    requires TokensOk(s) && TokensOk(parts) && WordsApart(s) && WordsApart(parts) && p <= |s|
    requires n == LastDelimiterEnd(parts) && 0 < n < |parts| && d > 0
    ensures var a, b := s[..p] + parts[..n], parts[n..] + s[p..];
      var body := Body(Concat(s[..p]), Concat(parts), Concat(s[p..]));
      && Print([a] + ([b] + Empties(d))) == body + EmptyBreak(body) && body != "" && body[0] == a[0][0]
      && AfterLastStop(Concat(parts)) > 0
  {
    hide Print, TokensOk, LastDelimiterEnd, WordsApart, AfterLastStop, Body, WordBreak, SentenceBreak, EmptyBreak, Concat;
    StopOfParts(parts);
    StopCounts(parts);
    PrintRun(s, p);
    PrintRun(parts, n);
    PrintHalves(s[..p], parts[..n], parts[n..], s[p..], d);
  }

  lemma PrintHalves(q: seq<Token>, u: seq<Token>, v: seq<Token>, r: seq<Token>, d: nat)
    requires TokensOk(q) && TokensOk(u) && TokensOk(v) && TokensOk(r) && u != [] && v != [] && d > 0
    requires Print([q]) == Concat(q) && Print([u]) == Concat(u) && Print([v]) == Concat(v) && Print([r]) == Concat(r)
    requires AfterLastStop(Concat(u) + Concat(v)) == |Concat(u)|
    ensures var a, b, body := q + u, v + r, Body(Concat(q), Concat(u) + Concat(v), Concat(r));
      Print([a] + ([b] + Empties(d))) == body + EmptyBreak(body) && body != "" && body[0] == a[0][0]
  {
    hide Print, TokensOk, AfterLastStop, Body, WordBreak, SentenceBreak, EmptyBreak, Concat, Empties;
    var a, b := q + u, v + r;
    PrintJoin(q, u);
    PrintJoin(v, r);
    TokensOkAppend(q, u);
    TokensOkAppend(v, r);
    ConcatEmpty(u);
    ConcatEmpty(v);
    TwoSentences(a, b, u, v, d);
    PrintEnds(a);
    BodyOfParts(Concat(q), Concat(u), Concat(v), Concat(r));
    Reassociate(Print([a]) + SentenceBreak(Concat(u), Concat(v)), Print([b]), EmptyBreak(Print([b])));
  }

  lemma Reassociate(a: string, b: string, c: string)
    ensures a + (b + c) == a + b + c
  {}

  lemma PrintRun(ts: seq<Token>, i: nat)
    requires TokensOk(ts) && WordsApart(ts) && i <= |ts|
    ensures TokensOk(ts[..i]) && TokensOk(ts[i..]) && Concat(ts) == Concat(ts[..i]) + Concat(ts[i..])
    ensures Print([ts[..i]]) == Concat(ts[..i]) && Print([ts[i..]]) == Concat(ts[i..])
  {
    hide Print, WordsApart, TokensOk, Concat;
    ApartParts(ts, i);
    TokensOkParts(ts, i);
    PrintApart(ts[..i]);
    PrintApart(ts[i..]);
  }

  /** Two sentences and empty ones behind them. */
  lemma TwoSentences(a: Sentence, b: Sentence, u: seq<Token>, v: seq<Token>, d: nat)
    requires TokensOk(a) && TokensOk(b) && TokensOk(u) && TokensOk(v) && a != [] && b != [] && u != [] && v != []
    requires a[|a| - 1] == u[|u| - 1] && b[0] == v[0] && d > 0
    ensures Print([a] + ([b] + Empties(d)))
      == Print([a]) + SentenceBreak(Print([u]), Print([v])) + (Print([b]) + EmptyBreak(Print([b])))
  {
    hide Print, TokenOk, Blank, EmptyBreak;
    PrintPadded(b, d);
    PrintEmpties(d);
    PrintStep(a, [b] + Empties(d));
    PrintEnds(a);
    PrintEnds(u);
    PrintEnds(v);
    TokenNotEmpty(b[0]);
  }

  lemma BodyOfParts(q: string, u: string, v: string, r: string)
    requires u != "" && v != "" && AfterLastStop(u + v) == |u|
    ensures var first, second := q + WordBreak(q, u) + u, v + WordBreak(v, r) + r;
      var body := Body(q, u + v, r);
      && body == first + SentenceBreak(u, v) + second
      && EmptyBreak(body) == EmptyBreak(second) && body != "" && body[0] == first[0]
  {
    hide AfterLastStop, WordBreak, SentenceBreak, EmptyBreak;
    assert (u + v)[..|u|] == u && (u + v)[|u|..] == v;
    WordBreakParts(q, u, v, r);
    Regroup(q, WordBreak(q, u), u, SentenceBreak(u, v), v, WordBreak(v, r), r);
    BodyEnds(q + WordBreak(q, u) + u, SentenceBreak(u, v), v + WordBreak(v, r) + r);
  }

  lemma BodyEnds(first: string, g: string, second: string)
    requires first != "" && second != ""
    ensures EmptyBreak(first + g + second) == EmptyBreak(second) && (first + g + second)[0] == first[0]
  {
    BreaksAppend(first + g, second);
  }

  lemma WordBreakParts(q: string, u: string, v: string, r: string)
    requires u != "" && v != ""
    ensures WordBreak(q, u + v) == WordBreak(q, u) && WordBreak(u + v, r) == WordBreak(v, r)
  {
    BreaksAppend(u, v);
  }

  lemma Regroup(a: string, b: string, c: string, d: string, e: string, f: string, g: string)
    ensures a + b + (c + d + e) + f + g == (a + b + c) + d + (e + f + g)
  {}

  /** The sentences `mid` print as `body`, with the break of an empty sentence behind it if `padded`. */
  predicate PrintsAs(mid: seq<Sentence>, body: string, padded: bool) {
    && mid != [] && SentencesOk(mid)
    && Print(mid) == body + (if padded then EmptyBreak(body) else "")
    && (mid[0] == [] <==> body == "")
    && (mid[0] != [] ==> mid[0][0] != "" && body != "" && body[0] == mid[0][0][0])
    && (if padded then mid[|mid| - 1] == [] else Print([mid[|mid| - 1]]) == body)
  }

  /** The sentences `ss` of a file have the text `text`. */
  predicate HasText(ss: seq<Sentence>, text: string) {
    && SentencesOk(ss) && Print(ss) == Spread(text)
    && (ss == [] <==> text == "")
    && (ss != [] ==>
          && ss[0] != [] && ss[0][0] != "" && text[0] == ss[0][0][0]
          && EndsFull(Print([ss[|ss| - 1]])) == EndsFull(text))
  }

  lemma TailBreak(mid: seq<Sentence>, body: string, padded: bool, b: seq<Sentence>, after: string)
    requires PrintsAs(mid, body, padded) && HasText(b, after)
    ensures Break(Print([mid[|mid| - 1]]), b) == if padded then "" else SentenceBreak(body, after)
  {
    hide Print, Spread, TokensOk, Blank;
    PrintToken("");
  }

  lemma HeadBreak(a: seq<Sentence>, before: string, mid: seq<Sentence>, body: string, padded: bool)
    requires PrintsAs(mid, body, padded) && HasText(a, before) && a != []
    ensures Break(Print([a[|a| - 1]]), mid) == if body == "" then EmptyBreak(before) else SentenceBreak(before, body)
  {
    hide Print, Spread, TokensOk, Blank;
  }

  lemma PrintAround(a: seq<Sentence>, mid: seq<Sentence>, b: seq<Sentence>,
      before: string, body: string, padded: bool, after: string)
    requires HasText(a, before) && PrintsAs(mid, body, padded) && HasText(b, after)
    ensures Print(a + mid + b)
      == Spread(before) + (if body == "" then EmptyBreak(before) else SentenceBreak(before, body))
         + body + (if padded then EmptyBreak(body) else SentenceBreak(body, after)) + Spread(after)
  {
    hide Print, Spread, SentencesOk, Break, EmptyBreak, SentenceBreak, PrintsAs, HasText;
    TextFacts(a, before);
    BodyFacts(mid, body, padded);
    PrintTail(mid, body, padded, b, after);
    if a == [] {
      assert a + mid + b == mid + b;
      NoBreakBefore(body);
    } else {
      HeadBreak(a, before, mid, body, padded);
      PrintSentences(a, mid + b);
      assert a + mid + b == a + (mid + b);
      SameBreak(Print([a[|a| - 1]]), mid, b);
      var g, t := if body == "" then EmptyBreak(before) else SentenceBreak(before, body),
          if padded then EmptyBreak(body) else SentenceBreak(body, after);
      Reassociate(Spread(before) + g, body + t, Spread(after));
      Reassociate(Spread(before) + g, body, t);
    }
  }

  lemma TextFacts(ss: seq<Sentence>, text: string)
    requires HasText(ss, text)
    ensures SentencesOk(ss) && Print(ss) == Spread(text) && (ss == [] <==> text == "")
  {
    hide Print, Spread, SentencesOk;
  }

  lemma BodyFacts(mid: seq<Sentence>, body: string, padded: bool)
    requires PrintsAs(mid, body, padded)
    ensures mid != [] && SentencesOk(mid) && Print(mid) == body + if padded then EmptyBreak(body) else ""
  {
    hide Print, SentencesOk;
  }

  lemma NoBreakBefore(body: string)
    ensures Spread("") == "" && EmptyBreak("") == "" && SentenceBreak("", body) == ""
  {}

  lemma PrintTail(mid: seq<Sentence>, body: string, padded: bool, b: seq<Sentence>, after: string)
    requires PrintsAs(mid, body, padded) && HasText(b, after)
    ensures SentencesOk(mid + b)
    ensures Print(mid + b) == body + (if padded then EmptyBreak(body) else SentenceBreak(body, after)) + Spread(after)
  {
    hide Print, Spread, TokensOk, Break, EmptyBreak, SentenceBreak, PrintsAs, HasText;
    TextFacts(b, after);
    BodyFacts(mid, body, padded);
    TailBreak(mid, body, padded, b, after);
    PrintSentences(mid, b);
    assert body + "" == body;
  }

  /** Consecutive sentences of a file whose words and runs of spaces fit a token. */
  lemma PartText(ss: seq<Sentence>)
    requires Document(ss) && WordsApart(Flatten(ss))
    ensures HasText(ss, Concat(Flatten(ss)))
  {
    hide Print, Spread, WordsApart, Concat, TokenOk, Blank, NoAdjacentSpaces;
    var ts := Flatten(ss);
    DocumentSentences(ss);
    FlattenOk(ss);
    GroupFlatten(ss);
    GroupSpread(ts);
    PrintApart(ts);
    ConcatEmpty(ts);
    if ss != [] {
      FlattenEnds(ss);
      ConcatEnds(ts);
      PrintEnds(ss[|ss| - 1]);
      TokenNotEmpty(ss[0][0]);
    } else {
      assert Flatten(ss) == [];
    }
  }

  lemma DocumentSentences(ss: seq<Sentence>)
    requires Document(ss)
    ensures SentencesOk(ss) && forall i | 0 <= i < |ss| :: ss[i] != []
  {}

  lemma {:induction false} FlattenEnds(ss: seq<Sentence>)
    requires ss != [] && forall i | 0 <= i < |ss| :: ss[i] != []
    ensures var ts, last := Flatten(ss), ss[|ss| - 1];
      ts != [] && ts[0] == ss[0][0] && ts[|ts| - 1] == last[|last| - 1]
  {
    if |ss| > 1 {
      FlattenEnds(ss[1..]);
      var rest := Flatten(ss[1..]);
      assert Flatten(ss)[|Flatten(ss)| - 1] == rest[|rest| - 1];
    } else {
      FlattenOne(ss[0]);
      assert ss == [ss[0]];
    }
  }

  lemma DocumentParts(ss: seq<Sentence>, i: nat, j: nat)
    requires Document(ss) && i <= j <= |ss|
    ensures Document(ss[i..j])
  {
    hide SentenceWf;
    var r := ss[i..j];
    forall k | 0 <= k < |r| ensures SentenceWf(r[k]) && (k < |r| - 1 ==> EndsWithDelimiter(r[k])) {
      assert r[k] == ss[i + k];
    }
  }

  /** The addressed sentence after the insertion. */
  lemma AddressedText(s: Sentence, p: nat, content: string)
    requires TokensOk(s) && WordsApart(s) && p <= |s| && RunsFit(content, Letter) && RunsFit(content, Space)
    ensures var parts := Tokens(content);
      PrintsAs(if parts == [] then [s] else Spliced(s, p, parts),
               Body(Concat(s[..p]), content, Concat(s[p..])), AfterLastStop(content) > 0)
  {
    hide Print, WordsApart, RunsFit, Tokens, Spliced, Body, TokenOk;
    var parts := Tokens(content);
    TokensAreOk(content);
    TokensApart(content);
    ConcatTokens(content);
    if parts == [] {
      NothingWritten(s, p);
    } else {
      PrintSpliced(s, p, parts);
    }
  }

  lemma NothingWritten(s: Sentence, p: nat)
    requires TokensOk(s) && WordsApart(s) && p <= |s|
    ensures Concat([]) == "" && PrintsAs([s], Body(Concat(s[..p]), "", Concat(s[p..])), AfterLastStop("") > 0)
  {
    hide Print, WordsApart, TokenOk, Body, AfterLastStop, Concat;
    ApartParts(s, p);
    PrintApart(s);
    PrintEnds(s);
    NoTokensNoText();
    EmptyBody(Concat(s[..p]), Concat(s[p..]));
    if s != [] { TokenNotEmpty(s[0]); }
  }

  lemma NoTokensNoText()
    ensures Concat([]) == ""
  {}

  lemma EmptyBody(left: string, right: string)
    ensures Body(left, "", right) == left + right && AfterLastStop("") == 0
  {
    assert Written("") == "";
    assert WordBreak(left, "") == "" && WordBreak("", right) == "";
    assert left + "" == left;
  }

  /** The parts of a text around word `w` of sentence `idx`. */
  function Around(file: string, idx: nat, w: int): (string, string, string, string)
    requires idx <= |Loaded(Some(file))| && ValidWord(Slots(Loaded(Some(file)), idx)[idx], w)
  {
    var slots := Slots(Loaded(Some(file)), idx);
    var s, p := slots[idx], WordPos(slots[idx], w);
    (Concat(Flatten(slots[..idx])), Concat(s[..p]), Concat(s[p..]), Concat(Flatten(slots[idx + 1..])))
  }

  /** The exact text after a WRITE whose file and content have words and runs of spaces that fit a
      token: the file's characters and the content's, in order, and a space in just these places.
      Behind the delimiters of the other sentences that no blank follows, as whenever the file is
      written back; between two words that come to stand next to each other in the sentence; behind
      the last delimiter of the content if it goes on; and, if the content has a delimiter, behind
      the sentence, for the empty one that follows. */
  lemma WriteIsExact(file: string, idx: nat, w: int, content: string)
    requires RunsFit(file, Letter) && RunsFit(file, Space) && RunsFit(content, Letter) && RunsFit(content, Space)
    requires idx <= |Loaded(Some(file))| && !AppendsToEmpty(Loaded(Some(file)), idx)
    requires WriteText(Some(file), idx, w, content).Some?
    ensures ValidWord(Slots(Loaded(Some(file)), idx)[idx], w)
    ensures var (before, left, right, after) := Around(file, idx, w);
      && file == before + left + right + after
      && WriteText(Some(file), idx, w, content).value == WrittenFile(before, left, content, right, after)
  {
    hide Print, RunsFit, Tokens, Flatten, Parse, Spliced, Body, PrintsAs, HasText, Concat, WordsApart, Spread;
    var ss := Loaded(Some(file));
    var slots := Slots(ss, idx);
    var s, p, parts := slots[idx], WordPos(slots[idx], w), Tokens(content);
    InsertedShape(ss, idx, w, content);
    FileParts(file, idx);
    AddressedText(s, p, content);
    ApartParts(s, p);
    PrintAround(slots[..idx], if parts == [] then [s] else Spliced(s, p, parts), slots[idx + 1..],
      Concat(Flatten(slots[..idx])), Body(Concat(s[..p]), content, Concat(s[p..])), AfterLastStop(content) > 0,
      Concat(Flatten(slots[idx + 1..])));
  }

  /** The sentences around the addressed one. */
  lemma FileParts(file: string, idx: nat)
    requires RunsFit(file, Letter) && RunsFit(file, Space)
    requires idx <= |Loaded(Some(file))| && !AppendsToEmpty(Loaded(Some(file)), idx)
    ensures var slots := Slots(Loaded(Some(file)), idx);
      var a, s, b := slots[..idx], slots[idx], slots[idx + 1..];
      && HasText(a, Concat(Flatten(a))) && HasText(b, Concat(Flatten(b)))
      && TokensOk(s) && WordsApart(s)
      && file == Concat(Flatten(a)) + Concat(s) + Concat(Flatten(b))
  {
    hide RunsFit, HasText, WordsApart, Concat, Flatten, Document, Tokens, TokenOk;
    var ss := Loaded(Some(file));
    var slots := Slots(ss, idx);
    var a, s, b := slots[..idx], slots[idx], slots[idx + 1..];
    TokensApart(file);
    ConcatTokens(file);
    SlotsOf(file, idx);
    assert slots == a + [s] + b;
    FlattenAround(a, [s], b);
    FlattenOne(s);
    var x, z := Flatten(a), Flatten(b);
    assert x + s + z == Tokens(file);
    ApartSegments(x, s, z);
    PartText(a);
    PartText(b);
  }

  lemma ApartSegments(x: seq<Token>, s: seq<Token>, z: seq<Token>)
    requires WordsApart(x + s + z)
    ensures WordsApart(x) && WordsApart(s) && WordsApart(z)
    ensures Concat(x + s + z) == Concat(x) + Concat(s) + Concat(z)
  {
    hide WordsApart, Concat;
    ApartParts(x + s + z, |x + s|);
    assert (x + s + z)[..|x + s|] == x + s && (x + s + z)[|x + s|..] == z;
    ApartParts(x + s, |x|);
    assert (x + s)[..|x|] == x && (x + s)[|x|..] == s;
  }

  lemma SlotsOf(file: string, idx: nat)
    requires idx <= |Loaded(Some(file))| && !AppendsToEmpty(Loaded(Some(file)), idx)
    ensures var slots := Slots(Loaded(Some(file)), idx);
      && |slots| > idx && Flatten(slots) == Tokens(file)
      && Document(slots[..idx]) && Document(slots[idx + 1..]) && TokensOk(slots[idx])
  {
    hide Document, Tokens, Flatten, Parse, TokenOk;
    var ss := Loaded(Some(file));
    var slots := Slots(ss, idx);
    LoadedParse(Some(file));
    ParseIsDocument(file);
    NoSentencesDocument();
    if idx == |ss| {
      FlattenAppend(ss, [[]]);
      FlattenOne([]);
      assert slots[..idx] == ss && slots[idx + 1..] == [];
    } else if Parse(file) == [] {
      assert slots[..idx] == [] && slots[idx + 1..] == [];
    } else {
      DocumentParts(ss, 0, idx);
      DocumentParts(ss, idx + 1, |ss|);
      assert slots[..idx] == ss[0..idx] && slots[idx + 1..] == ss[idx + 1..|ss|];
    }
  }

  lemma NoSentencesDocument()
    ensures Document([])
  {}

  /* ---- The text after a commit ---- */

  /** The text of the sentences `i .. j` of a file. */
  function TextOf(file: string, i: nat, j: nat): string
    requires i <= j <= |Parse(file)|
  {
    Concat(Flatten(Parse(file)[i..j]))
  }

  lemma {:induction false} DocumentApart(ss: seq<Sentence>)
    requires Document(ss) && forall i | 0 <= i < |ss| :: WordsApart(ss[i])
    ensures WordsApart(Flatten(ss))
  {
    hide WordsApart, IsWordToken, SentenceWf;
    if ss == [] {
      NoneApart();
    } else {
      var rest := ss[1..];
      DocumentTail(ss);
      assert forall i | 0 <= i < |rest| :: rest[i] == ss[i + 1];
      DocumentApart(rest);
      if rest != [] {
        ClosedFirst(ss);
      } else {
        assert Flatten(rest) == [];
      }
      WordsApartJoin(ss[0], Flatten(rest));
    }
  }

  lemma ClosedFirst(ss: seq<Sentence>)
    requires Document(ss) && |ss| > 1
    ensures ss[0] != [] && !IsWordToken(ss[0][|ss[0]| - 1])
  {
    assert EndsWithDelimiter(ss[0]);
    DelimiterIsSolid(ss[0][|ss[0]| - 1]);
  }

  /** A document without adjacent words in its sentences is printed as its text, spread out. */
  lemma DocumentText(ss: seq<Sentence>)
    requires Document(ss) && forall i | 0 <= i < |ss| :: WordsApart(ss[i])
    ensures Print(ss) == Spread(Concat(Flatten(ss)))
  {
    hide Print, Spread, WordsApart, Concat, SentenceWf, TokenOk;
    DocumentApart(ss);
    PartText(ss);
  }

  lemma {:induction false} SentencesApart(ss: seq<Sentence>)
    requires WordsApart(Flatten(ss))
    ensures forall i | 0 <= i < |ss| :: WordsApart(ss[i])
  {
    hide WordsApart;
    if ss != [] {
      var rest := ss[1..];
      assert Flatten(ss) == [] + ss[0] + Flatten(rest);
      ApartSegments([], ss[0], Flatten(rest));
      SentencesApart(rest);
      assert forall i | 0 < i < |ss| :: ss[i] == rest[i - 1];
    }
  }

  lemma FileApart(file: string)
    requires RunsFit(file, Letter)
    ensures forall i | 0 <= i < |Parse(file)| :: WordsApart(Parse(file)[i])
  {
    hide WordsApart, Tokens, RunsFit;
    TokensApart(file);
    FlattenGroup(Tokens(file));
    SentencesApart(Parse(file));
  }

  /** The exact text after a commit: the characters of the file before the target sentence, those that
      the session's copy has in place of the locked one, and those of the file behind it, with a space
      behind every delimiter that no blank follows. */
  lemma CommitIsExact(v: string, idx: nat, temp: string, file: string)
    requires RunsFit(file, Letter) && RunsFit(temp, Letter)
    requires EditOk(Parse(v), Edit(idx, temp)) && Parse(file) != []
    requires 0 <= AdjustedIndex(|Parse(file)|, idx, |Parse(v)|)
    ensures var t := AdjustedIndex(|Parse(file)|, idx, |Parse(v)|);
      var grown := |Parse(temp)| - |Parse(v)|;
      && t < |Parse(file)| && idx + 1 + grown <= |Parse(temp)|
      && ApplyCommit(Some(file), idx, |Parse(v)|, Some(temp))
         == Some(Spread(TextOf(file, 0, t) + TextOf(temp, idx, idx + 1 + grown) + TextOf(file, t + 1, |Parse(file)|)))
  {
    hide Print, Spread, WordsApart, Concat, Flatten, Parse, RunsFit, Document, ApplyCommit, Slice, Replace;
    var e, main := Edit(idx, temp), Parse(file);
    var t := AdjustedIndex(|main|, idx, |Parse(v)|);
    var x := Replacement(Parse(v), e);
    CommitInside(file, idx, |Parse(v)|, temp);
    ReplacementFits(Parse(v), e);
    ParseIsDocument(file);
    ReplaceAtIsDocument(Parse(v), main, t, x, idx, t);
    FileApart(file);
    FileApart(temp);
    ReplacedApart(main, t, x, Parse(temp), idx);
    DocumentText(Replace(main, t, x));
    ReplacedText(main, t, x);
    assert x == Parse(temp)[idx..idx + 1 + (|Parse(temp)| - |Parse(v)|)];
  }

  lemma ReplacedApart(main: seq<Sentence>, t: nat, x: seq<Sentence>, temp: seq<Sentence>, idx: nat)
    requires t < |main| && idx + |x| <= |temp| && x == temp[idx..idx + |x|]
    requires forall i | 0 <= i < |main| :: WordsApart(main[i])
    requires forall i | 0 <= i < |temp| :: WordsApart(temp[i])
    ensures var r := Replace(main, t, x); forall i | 0 <= i < |r| :: WordsApart(r[i])
  {
    hide WordsApart;
    assert forall i | 0 <= i < |x| :: x[i] == temp[idx + i];
  }

  lemma ReplacedText(main: seq<Sentence>, t: nat, x: seq<Sentence>)
    requires t < |main|
    ensures Concat(Flatten(Replace(main, t, x)))
      == Concat(Flatten(main[0..t])) + Concat(Flatten(x)) + Concat(Flatten(main[t + 1..|main|]))
  {
    hide Flatten, Concat;
    var a, b := main[..t], main[t + 1..];
    assert a == main[0..t] && b == main[t + 1..|main|];
    FlattenAround(a, x, b);
    ConcatAppend(Flatten(a) + Flatten(x), Flatten(b));
    ConcatAppend(Flatten(a), Flatten(x));
  }
}
