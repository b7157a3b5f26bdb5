/** A whole write session on one file: lock, any number of WRITEs, commit.

    The session works on a copy that is parsed, edited, printed and parsed again for every
    WRITE, and merged by sentence index at the end.  `SessionRefinesSplices` shows what all
    that amounts to: splices in the locked sentence, and nothing else.
 */
module Session {
  import opened Wrappers
  import opened Text
  import opened Printer
  import opened Insertion
  import opened Merge

  datatype WriteOp = WriteOp(word: int, content: string)

  /** The session's file after its WRITEs; a rejected WRITE leaves it alone. */
  function WriteAll(file: string, idx: nat, ops: seq<WriteOp>): string
    decreases |ops|
  {
    if ops == [] then file
    else
      var r := WriteText(Some(file), idx, ops[0].word, ops[0].content);
      WriteAll(if r.Some? then r.value else file, idx, ops[1..])
  }

  /** The reference: the same WRITEs as splices into the tokens of the locked sentence alone. */
  function EditAll(region: seq<Token>, ops: seq<WriteOp>): seq<Token>
    decreases |ops|
  {
    if ops == [] then region
    else EditAll(SpliceHead(region, ops[0].word, Solid(Tokens(ops[0].content))), ops[1..])
  }

  /* ---- Cutting sentences off a token stream ---- */

  /** The first `k` sentences all have their delimiter. */
  predicate Closes(ts: seq<Token>, k: nat)
    decreases k
  {
    k == 0 || (EndsWithDelimiter(Head(ts)) && Closes(Tail(ts), k - 1))
  }

  lemma {:induction false} ClosesCut(ts: seq<Token>, k: nat, rest: seq<Token>)
    requires Closes(ts, k)
    ensures Before(Before(ts, k) + rest, k) == Before(ts, k)
    ensures After(Before(ts, k) + rest, k) == rest
    decreases k
  {
    hide Before, After, HeadLength, IsDelimiterToken;
    CutStep(ts, k);
    CutStep(Before(ts, k) + rest, k);
    if k > 0 {
      var h, b := Head(ts), Before(Tail(ts), k - 1);
      ClosesCut(Tail(ts), k - 1, rest);
      HeadOf(h, b + rest);
      assert Before(ts, k) + rest == h + (b + rest);
      assert Head(h + (b + rest)) == h && Tail(h + (b + rest)) == b + rest;
    } else {
      assert Before(ts, 0) + rest == rest;
    }
  }

  lemma CutStep(ts: seq<Token>, k: nat)
    ensures Before(ts, k) == if k == 0 then [] else Head(ts) + Before(Tail(ts), k - 1)
    ensures After(ts, k) == if k == 0 then ts else After(Tail(ts), k - 1)
  {}

  lemma {:induction false} SolidCloses(ts: seq<Token>, k: nat)
    requires Closes(ts, k)
    ensures Closes(Solid(ts), k)
    decreases k
  {
    if k == 0 {
    } else {
      SolidHead(ts);
      SolidCloses(Tail(ts), k - 1);
      SolidLast(Head(ts));
    }
  }

  lemma {:induction false} SolidLast(ts: seq<Token>)
    requires EndsWithDelimiter(ts) && !IsSpaceToken(ts[|ts| - 1])
    ensures EndsWithDelimiter(Solid(ts))
  {
    if |ts| > 1 {
      SolidLast(ts[1..]);
      if !IsSpaceToken(ts[0]) { assert Solid(ts) == [ts[0]] + Solid(ts[1..]); }
    } else {
      assert ts == [ts[0]];
    }
  }

  lemma {:induction false} GroupCloses(ts: seq<Token>, k: nat)
    requires k < |Group(ts)|
    ensures Closes(ts, k)
    decreases k
  {
    if k == 0 {
    } else {
      assert Group(ts)[1..] == Group(Tail(ts));
      GroupCloses(Tail(ts), k - 1);
    }
  }

  lemma {:induction false} BeyondGroups(ts: seq<Token>, k: nat)
    requires After(ts, k) != []
    ensures k < |Group(ts)|
    decreases k
  {
    if k == 0 {
    } else {
      BeyondGroups(Tail(ts), k - 1);
      assert Group(ts)[1..] == Group(Tail(ts));
    }
  }

  /* ---- Counting sentences ---- */

  lemma {:induction false} DelimitersAppend(a: seq<Token>, b: seq<Token>)
    ensures DelimiterCount(a + b) == DelimiterCount(a) + DelimiterCount(b)
  {
    if a == [] {
      assert a + b == b;
    } else {
      assert (a + b)[1..] == a[1..] + b;
      DelimitersAppend(a[1..], b);
    }
  }

  lemma {:induction false} SolidDelimiters(ts: seq<Token>)
    ensures DelimiterCount(Solid(ts)) == DelimiterCount(ts)
  {
    if ts == [] {
    } else {
      SolidDelimiters(ts[1..]);
      if !IsSpaceToken(ts[0]) { assert Solid(ts)[1..] == Solid(ts[1..]); }
    }
  }

  lemma {:induction false} HeadDelimiters(ts: seq<Token>)
    ensures DelimiterCount(Head(ts)) == if EndsWithDelimiter(Head(ts)) then 1 else 0
    ensures DelimiterCount(ts) == DelimiterCount(Head(ts)) + DelimiterCount(Tail(ts))
  {
    assert Head(ts) + Tail(ts) == ts;
    DelimitersAppend(Head(ts), Tail(ts));
    if ts == [] {
    } else {
      if IsDelimiterToken(ts[0]) {
        assert Head(ts) == [ts[0]] && [ts[0]][1..] == [];
      } else {
        HeadDelimiters(ts[1..]);
        assert Head(ts)[1..] == Head(ts[1..]);
        if HeadLength(ts[1..]) == 0 {
          assert !EndsWithDelimiter(Head(ts));
        } else {
          assert Head(ts)[|Head(ts)| - 1] == Head(ts[1..])[|Head(ts[1..])| - 1];
        }
      }
    }
  }

  predicate OpenTokens(ts: seq<Token>) {
    ts != [] && !IsDelimiterToken(ts[|ts| - 1])
  }

  /** One sentence per delimiter, and one more for text after the last. */
  lemma {:induction false} GroupCount(ts: seq<Token>)
    ensures |Group(ts)| == DelimiterCount(ts) + if OpenTokens(ts) then 1 else 0
    decreases |ts|
  {
    if ts == [] {
    } else {
      GroupCount(Tail(ts));
      HeadDelimiters(ts);
      assert Group(ts)[1..] == Group(Tail(ts));
      if Tail(ts) == [] {
        assert Head(ts) == ts;
      } else {
        assert Tail(ts)[|Tail(ts)| - 1] == ts[|ts| - 1];
      }
    }
  }

  /** An insertion makes as many new sentences as the content has, if it has a delimiter at all. */
  lemma CreatedIsSentences(parts: seq<Token>)
    ensures Created(parts) == if DelimiterCount(parts) > 0 then |Group(parts)| else 0
  {
    GroupCount(parts);
    SplitsHasDelimiter(parts);
    if DelimiterCount(parts) > 0 {
      SomeDelimiter(parts);
    }
  }

  /** The text goes on after its last delimiter. */
  predicate OpenText(s: string) {
    s != "" && !IsDelimiter(s[|s| - 1])
  }

  lemma {:induction false} OpenTextTokens(s: string)
    ensures OpenTokens(Tokens(s)) <==> OpenText(s)
    decreases |s|
  {
    if s == "" {
    } else {
      var n, t, rest := FirstToken(s);
      if n < |s| {
        OpenTextTokens(s[n..]);
        assert s[n..][|s[n..]| - 1] == s[|s| - 1];
        var m := TokenLength(s[n..]);
        assert Tokens(s)[|Tokens(s)| - 1] == rest[|rest| - 1];
      } else {
        assert s[n..] == "" && rest == [];
        TokensAreOk(s);
        TokenKinds(t);
        LastCharClass(s, n);
      }
    }
  }

  lemma LastCharClass(s: string, n: nat)
    requires s != "" && n == |s| == TokenLength(s)
    ensures ClassOf(s[n - 1]) == ClassOf(s[0])
  {}

  /** The number of sentences, read off the text. */
  lemma SentenceCount(s: string)
    ensures |Parse(s)| == DelimiterCount(Solid(Tokens(s))) + if OpenText(s) then 1 else 0
  {
    GroupCount(Tokens(s));
    OpenTextTokens(s);
    SolidDelimiters(Tokens(s));
  }

  /** The printer ends where the last sentence ends. */
  lemma {:induction false} PrintEnd(ss: seq<Sentence>)
    requires SentencesOk(ss) && ss != [] && ss[|ss| - 1] != []
    ensures var last := ss[|ss| - 1];
      OpenText(Print(ss)) <==> !IsDelimiterToken(last[|last| - 1])
  {
    ExpandLast(ss);
    ExpandFacts(ss);
    ConcatLast(Expand(ss));
  }

  /** An empty sentence at the end leaves an open text open: a word gets a space behind it. */
  lemma PrintEndBlank(ss: seq<Sentence>)
    requires SentencesOk(ss) && ss != [] && OpenTokens(ss[|ss| - 1])
    ensures OpenText(Print(ss + [[]]))
  {
    ExpandLastBlank(ss);
    ExpandFacts(ss + [[]]);
    ConcatLast(Expand(ss + [[]]));
  }

  lemma {:induction false} ExpandLastBlank(ss: seq<Sentence>)
    requires SentencesOk(ss) && ss != [] && OpenTokens(ss[|ss| - 1])
    ensures var e := Expand(ss + [[]]); e != [] && !IsDelimiterToken(e[|e| - 1])
    decreases |ss|
  {
    var d := ss + [[]];
    assert d[1..] == ss[1..] + [[]];
    InnerFacts(ss[0]);
    if |ss| > 1 {
      ExpandLastBlank(ss[1..]);
    } else {
      SpaceTokenOk();
      assert d[1..] == [[]];
      assert Expand([[]]) == [] by { NoGapAtEnd([]); }
      assert Expand(d) == Inner(ss[0]) + SentenceGap(ss[0], [[]]);
    }
  }

  lemma {:induction false} ExpandLast(ss: seq<Sentence>)
    requires ss != [] && ss[|ss| - 1] != []
    ensures Expand(ss) != []
    ensures var last := ss[|ss| - 1]; Expand(ss)[|Expand(ss)| - 1] == last[|last| - 1]
  {
    hide Inner, SentenceGap;
    InnerFacts(ss[0]);
    var a, r := Inner(ss[0]) + SentenceGap(ss[0], ss[1..]), Expand(ss[1..]);
    assert Expand(ss) == a + r;
    if |ss| > 1 {
      ExpandLast(ss[1..]);
    } else {
      NoGapAtEnd(ss[0]);
      assert a + r == Inner(ss[0]);
    }
  }

  lemma NoGapAtEnd(s: Sentence)
    ensures SentenceGap(s, []) == [] && Expand([]) == []
  {}

  lemma {:induction false} ConcatLast(ts: seq<Token>)
    requires TokensOk(ts) && ts != []
    ensures OpenText(Concat(ts)) <==> !IsDelimiterToken(ts[|ts| - 1])
  {
    if |ts| > 1 {
      ConcatLast(ts[1..]);
      FirstClass(ts[1..]);
      var c := Concat(ts[1..]);
      assert Concat(ts)[|Concat(ts)| - 1] == c[|c| - 1];
    } else {
      assert ts[1..] == [] && Concat(ts) == ts[0];
      TokenKinds(ts[0]);
    }
  }

  /** What one WRITE does to the shape of the file, wherever it goes: no sentence is lost, and text
      after the last delimiter, if any, stays when an earlier sentence is written to. */
  lemma WriteKeepsCount(file: string, idx: nat, w: int, content: string)
    requires WriteText(Some(file), idx, w, content).Some?
    ensures var file' := WriteText(Some(file), idx, w, content).value;
      && |Parse(file')| >= |Parse(file)|
      && (idx + 1 < |Parse(file)| ==> (OpenText(file') <==> OpenText(file)))
  {
    hide Parse, Print, Insert, Tokens, Splits, SpliceAt, SpliceHead;
    EmptyParse();
    if file != "" {
      var ss, parts := Loaded(Some(file)), Tokens(content);
      LoadedEnd(file);
      WriteInRange(file, idx, w, content);
      WriteInserts(file, idx, w, content);
      LoadedCuts(file, idx);
      var file' := Print(Insert(ss, idx, w, content).sentences);
      WriteRefinesSplice(file, idx, w, content);
      SpliceDelimiters(Solid(Tokens(file)), idx, w, Solid(parts));
      SolidDelimiters(parts);
      SentenceCount(file);
      SentenceCount(file');
      WriteKeepsEnd(file, idx, w, content);
    }
  }

  lemma {:induction false} WriteAllKeepsCount(file: string, idx: nat, ops: seq<WriteOp>)
    ensures |Parse(WriteAll(file, idx, ops))| >= |Parse(file)|
    decreases |ops|
  {
    hide Parse, WriteText;
    if ops == [] {
    } else {
      var r := WriteText(Some(file), idx, ops[0].word, ops[0].content);
      if r.Some? { WriteKeepsCount(file, idx, ops[0].word, ops[0].content); }
      WriteAllKeepsCount(if r.Some? then r.value else file, idx, ops[1..]);
    }
  }

  lemma WriteInRange(file: string, idx: nat, w: int, content: string)
    requires WriteText(Some(file), idx, w, content).Some?
    ensures idx <= |Loaded(Some(file))|
  {}

  lemma WriteInserts(file: string, idx: nat, w: int, content: string)
    requires idx <= |Loaded(Some(file))|
    requires WriteText(Some(file), idx, w, content).Some?
    ensures var ins := Insert(Loaded(Some(file)), idx, w, content);
      && ins.Inserted? && WriteText(Some(file), idx, w, content).value == Print(ins.sentences)
      && ValidWord(Slots(Loaded(Some(file)), idx)[idx], w)
  {}

  lemma SpliceDelimiters(ts: seq<Token>, idx: nat, w: int, parts: seq<Token>)
    ensures DelimiterCount(SpliceAt(ts, idx, w, parts))
      == DelimiterCount(ts) + if ValidWord(Head(After(ts, idx)), w) then DelimiterCount(parts) else 0
  {
    var a := After(ts, idx);
    BeforeAfter(ts, idx);
    DelimitersAppend(Before(ts, idx), a);
    DelimitersAppend(Before(ts, idx), SpliceHead(a, w, parts));
    SpliceHeadDelimiters(a, w, parts);
  }

  lemma SpliceHeadDelimiters(a: seq<Token>, w: int, parts: seq<Token>)
    ensures DelimiterCount(SpliceHead(a, w, parts))
      == DelimiterCount(a) + if ValidWord(Head(a), w) then DelimiterCount(parts) else 0
  {
    if ValidWord(Head(a), w) {
      var p := WordPos(Head(a), w);
      DelimitersAppend(a[..p] + parts, a[p..]);
      DelimitersAppend(a[..p], parts);
      DelimitersAppend(a[..p], a[p..]);
      assert a[..p] + a[p..] == a;
    }
  }

  /** If the content has no delimiter, or goes to an earlier sentence, the file ends as before. */
  lemma WriteKeepsEnd(file: string, idx: nat, w: int, content: string)
    requires file != "" && WriteText(Some(file), idx, w, content).Some?
    ensures var file' := WriteText(Some(file), idx, w, content).value;
      && (idx + 1 < |Parse(file)| ==> (OpenText(file') <==> OpenText(file)))
      && (DelimiterCount(Tokens(content)) == 0 && OpenText(file) ==> OpenText(file'))
  {
    hide Parse, Print, Insert, Tokens, Splits, SentencesOk, TokensOk, Document, Spliced, IsDelimiterToken, DelimiterCount,
      IsDelimiter, Loses, RealWords, Group;
    var ss, parts := Loaded(Some(file)), Tokens(content);
    WriteInRange(file, idx, w, content);
    LoadedCuts(file, idx);
    var d := Insert(ss, idx, w, content).sentences;
    WriteInserts(file, idx, w, content);
    LoadedParse(Some(file));
    InsertOk(ss, idx, w, content);
    LoadedEnd(file);
    InsertedShape(ss, idx, w, content);
    var slots := Slots(ss, idx);
    var s, p := slots[idx], WordPos(slots[idx], w);
    var mid := if parts == [] then [s] else Spliced(s, p, parts);
    assert d == slots[..idx] + mid + slots[idx + 1..];
    if idx + 1 < |ss| {
      assert d[|d| - 1] == ss[|ss| - 1];
      PrintEnd(d);
    } else if DelimiterCount(parts) == 0 && OpenText(file) {
      if idx == |ss| && parts == [] {
        assert d == ss + [[]];
        PrintEndBlank(ss);
      } else {
        OpenSplice(s, p, parts);
        assert d[|d| - 1] == mid[|mid| - 1];
        PrintEnd(d);
      }
    }
  }

  lemma EmptyParse()
    ensures Parse("") == []
  {}

  lemma OpenSplice(s: Sentence, p: nat, parts: seq<Token>)
    requires p <= |s| && DelimiterCount(parts) == 0
    requires OpenTokens(s) || (s == [] && parts != [])
    ensures var mid := if parts == [] then [s] else Spliced(s, p, parts);
      |mid| == 1 && OpenTokens(mid[0])
  {
    NoDelimiters(parts);
    SplitsHasDelimiter(parts);
    if parts != [] {
      var r := s[..p] + parts + s[p..];
      assert Spliced(s, p, parts) == [r];
      if p == |s| { assert r[|r| - 1] == parts[|parts| - 1]; }
    }
  }

  lemma {:induction false} NoDelimiters(ts: seq<Token>)
    requires DelimiterCount(ts) == 0
    ensures forall i | 0 <= i < |ts| :: !IsDelimiterToken(ts[i])
  {
    if ts == [] {
    } else {
      NoDelimiters(ts[1..]);
    }
  }

  lemma LoadedEnd(file: string)
    requires file != ""
    ensures var ss := Loaded(Some(file));
      && ss == Parse(file) != []
      && ss[|ss| - 1] != []
      && (OpenText(file) <==> OpenTokens(ss[|ss| - 1]))
  {
    var ss := Parse(file);
    LoadedParse(Some(file));
    ParseIsDocument(file);
    OpenTextTokens(file);
    FlattenGroup(Tokens(file));
    FlattenLast(ss);
  }

  lemma {:induction false} LastTokenClass(s: string)
    requires s != ""
    ensures var ts := Tokens(s);
      ts != [] && TokenOk(ts[|ts| - 1]) && ClassOf(ts[|ts| - 1][0]) == ClassOf(s[|s| - 1])
    decreases |s|
  {
    var n, t, rest := FirstToken(s);
    if n < |s| {
      LastTokenClass(s[n..]);
      assert s[n..][|s[n..]| - 1] == s[|s| - 1];
      assert Tokens(s)[|Tokens(s)| - 1] == rest[|rest| - 1];
    } else {
      assert s[n..] == "" && rest == [];
      TokensAreOk(s);
      TokenKinds(t);
      LastCharClass(s, n);
    }
  }

  lemma KindOfLast(t: Token)
    requires TokenOk(t)
    ensures IsDelimiterToken(t) <==> ClassOf(t[0]) == Delimiter
    ensures IsNewlineToken(t) <==> ClassOf(t[0]) == Newline
  {
    TokenKinds(t);
  }

  /** The kind of a file's last token is the kind of its last character. */
  lemma LastToken(file: string)
    requires file != ""
    ensures var ss, c := Parse(file), file[|file| - 1];
      && ss != [] && ss[|ss| - 1] != []
      && var t := ss[|ss| - 1][|ss[|ss| - 1]| - 1];
      && (IsDelimiterToken(t) <==> IsDelimiter(c))
      && (IsNewlineToken(t) <==> c == '\n')
  {
    hide Tokens, Group, Loaded, Flatten, IsBlankToken, IsWordToken, IsSpaceToken, OpenTokens, OpenText;
    var ss := Parse(file);
    LoadedEnd(file);
    FlattenGroup(Tokens(file));
    FlattenLast(ss);
    LastTokenClass(file);
    var t := ss[|ss| - 1][|ss[|ss| - 1]| - 1];
    assert t == Tokens(file)[|Tokens(file)| - 1];
    KindOfLast(t);
  }

  lemma {:induction false} FlattenLast(ss: seq<Sentence>)
    requires ss != [] && ss[|ss| - 1] != []
    ensures Flatten(ss) != []
    ensures var last := ss[|ss| - 1]; Flatten(ss)[|Flatten(ss)| - 1] == last[|last| - 1]
  {
    if |ss| > 1 {
      FlattenLast(ss[1..]);
    } else {
      FlattenOne(ss[0]);
      assert ss == [ss[0]];
    }
  }

  /* ---- The session against the reference ---- */

  /** What the session's file is while the session lasts: the sentences before the locked one,
      the edited region, and the sentences after it. */
  predicate Tracks(v: string, idx: nat, region: seq<Token>, temp: string) {
    var l := Solid(Tokens(v));
    && idx < |Parse(v)| <= |Parse(temp)|
    && Solid(Tokens(temp)) == Before(l, idx) + (region + After(l, idx + 1))
    && (idx + 1 < |Parse(v)| ==>
          && DelimiterCount(region) > 0
          && (OpenText(temp) <==> OpenText(v)))
  }

  lemma LastHasNothingAfter(v: string, idx: nat)
    requires idx + 1 == |Parse(v)|
    ensures After(Solid(Tokens(v)), idx + 1) == []
  {
    var ts := Tokens(v);
    GroupCuts(ts, idx + 1);
    assert Group(ts)[idx + 1..] == [];
    SolidCuts(ts, idx + 1);
  }

  lemma TrackStart(v: string, idx: nat)
    requires idx < |Parse(v)|
    ensures Tracks(v, idx, Head(After(Solid(Tokens(v)), idx)), v)
  {
    hide Tokens, Solid, DelimiterCount, HeadLength, Before, Closes, OpenText;
    var ts := Tokens(v);
    var l := Solid(ts);
    BeforeAfter(l, idx);
    AfterStep(l, idx);
    var a := After(l, idx);
    assert a == Head(a) + Tail(a);
    if idx + 1 < |Parse(v)| {
      GroupCloses(ts, idx + 1);
      SolidCloses(ts, idx + 1);
      ClosesAt(l, idx);
      HeadDelimiters(a);
    }
  }

  lemma {:induction false} ClosesAt(ts: seq<Token>, k: nat)
    requires Closes(ts, k + 1)
    ensures EndsWithDelimiter(Head(After(ts, k)))
    decreases k
  {
    if k == 0 {
    } else {
      ClosesAt(Tail(ts), k - 1);
    }
  }

  lemma {:induction false} HeadOfClosed(region: seq<Token>, rest: seq<Token>)
    requires DelimiterCount(region) > 0 || rest == []
    ensures HeadLength(region + rest) == HeadLength(region)
  {
    if region == [] {
      assert region + rest == [];
    } else if !IsDelimiterToken(region[0]) {
      assert (region + rest)[1..] == region[1..] + rest;
      HeadOfClosed(region[1..], rest);
    }
  }

  lemma SpliceInRegion(region: seq<Token>, rest: seq<Token>, w: int, parts: seq<Token>)
    requires DelimiterCount(region) > 0 || rest == []
    ensures SpliceHead(region + rest, w, parts) == SpliceHead(region, w, parts) + rest
  {
    hide RealWords, WordPos, ValidWord, HeadLength;
    HeadOfClosed(region, rest);
    assert Head(region + rest) == Head(region);
    if ValidWord(Head(region), w) {
      SpliceBefore(region, rest, WordPos(Head(region), w), parts);
    }
  }

  lemma SpliceBefore(region: seq<Token>, rest: seq<Token>, p: nat, parts: seq<Token>)
    requires p <= |region|
    ensures (region + rest)[..p] + parts + (region + rest)[p..] == region[..p] + parts + region[p..] + rest
  {
    assert (region + rest)[..p] == region[..p] && (region + rest)[p..] == region[p..] + rest;
  }

  lemma TrackStep(v: string, idx: nat, region: seq<Token>, temp: string, op: WriteOp)
    requires Tracks(v, idx, region, temp)
    ensures var r := WriteText(Some(temp), idx, op.word, op.content);
      Tracks(v, idx, SpliceHead(region, op.word, Solid(Tokens(op.content))), if r.Some? then r.value else temp)
  {
    hide Parse, Tokens, WriteText, Closes, Solid;
    var l, parts := Solid(Tokens(v)), Solid(Tokens(op.content));
    var rest := After(l, idx + 1);
    if idx + 1 == |Parse(v)| { LastHasNothingAfter(v, idx); }
    WriteRefinesSplice(temp, idx, op.word, op.content);
    SolidGroupCloses(v, idx);
    ClosesCut(l, idx, region + rest);
    SpliceInRegion(region, rest, op.word, parts);
    SpliceHeadDelimiters(region, op.word, parts);
    var r := WriteText(Some(temp), idx, op.word, op.content);
    if r.Some? { WriteKeepsCount(temp, idx, op.word, op.content); }
  }

  /** A WRITE is accepted if and only if its word position is one of the edited sentence. */
  lemma TrackAccepts(v: string, idx: nat, region: seq<Token>, temp: string, op: WriteOp)
    requires Tracks(v, idx, region, temp)
    ensures WriteText(Some(temp), idx, op.word, op.content).Some? <==> ValidWord(Head(region), op.word)
  {
    hide Parse, Tokens, WriteText, Closes, Solid, ValidWord, HeadLength;
    var l := Solid(Tokens(v));
    var rest := After(l, idx + 1);
    if idx + 1 == |Parse(v)| { LastHasNothingAfter(v, idx); }
    WriteRefinesSplice(temp, idx, op.word, op.content);
    SolidGroupCloses(v, idx);
    ClosesCut(l, idx, region + rest);
    HeadOfClosed(region, rest);
    assert Head(region + rest) == Head(region);
  }

  lemma SolidGroupCloses(v: string, idx: nat)
    requires idx < |Parse(v)|
    ensures Closes(Solid(Tokens(v)), idx)
  {
    GroupCloses(Tokens(v), idx);
    SolidCloses(Tokens(v), idx);
  }

  lemma {:induction false} TrackAll(v: string, idx: nat, region: seq<Token>, temp: string, ops: seq<WriteOp>)
    requires Tracks(v, idx, region, temp)
    ensures Tracks(v, idx, EditAll(region, ops), WriteAll(temp, idx, ops))
    decreases |ops|
  {
    hide Tracks, WriteText, SpliceHead, Tokens, Solid;
    if ops == [] {
    } else {
      TrackStep(v, idx, region, temp, ops[0]);
      var r := WriteText(Some(temp), idx, ops[0].word, ops[0].content);
      TrackAll(v, idx, SpliceHead(region, ops[0].word, Solid(Tokens(ops[0].content))),
        if r.Some? then r.value else temp, ops[1..]);
    }
  }

  /* ---- The commit ---- */

  /** What survives of the edited region: up to its last delimiter, unless it ends the file. */
  function Kept(region: seq<Token>, last: bool): seq<Token> {
    if last then region else region[..LastDelimiterEnd(region)]
  }

  lemma {:induction false} BeforeLastDelimiter(region: seq<Token>, rest: seq<Token>)
    ensures Before(region + rest, DelimiterCount(region)) == region[..LastDelimiterEnd(region)]
    decreases |region|
  {
    hide LastDelimiterEnd, Before, DelimiterCount;
    if DelimiterCount(region) == 0 {
      NoDelimiters(region);
      LastDelimiterUnique(region, 0);
      BeforeNone(region + rest);
    } else {
      CutHead(region, rest);
      BeforeLastDelimiter(Tail(region), rest);
      LastDelimiterSplit(Head(region), Tail(region));
      assert Head(region) + Tail(region) == region;
    }
  }

  lemma BeforeNone(ts: seq<Token>)
    ensures Before(ts, 0) == []
  {}

  lemma CutHead(region: seq<Token>, rest: seq<Token>)
    requires DelimiterCount(region) > 0
    ensures EndsWithDelimiter(Head(region))
    ensures DelimiterCount(region) == 1 + DelimiterCount(Tail(region))
    ensures Before(region + rest, DelimiterCount(region))
      == Head(region) + Before(Tail(region) + rest, DelimiterCount(Tail(region)))
  {
    HeadDelimiters(region);
    SomeDelimiter(region);
    HeadOfClosed(region, rest);
    assert Head(region + rest) == Head(region) && Tail(region + rest) == Tail(region) + rest;
  }

  lemma {:induction false} SomeDelimiter(ts: seq<Token>)
    requires DelimiterCount(ts) > 0
    ensures EndsWithDelimiter(Head(ts)) && DelimiterCount(Head(ts)) == 1
  {
    HeadDelimiters(ts);
    if !IsDelimiterToken(ts[0]) {
      SomeDelimiter(ts[1..]);
      assert Head(ts)[1..] == Head(ts[1..]);
      assert Head(ts)[|Head(ts)| - 1] == Head(ts[1..])[|Head(ts[1..])| - 1];
    }
  }

  lemma LastDelimiterSplit(h: seq<Token>, t: seq<Token>)
    requires EndsWithDelimiter(h)
    ensures (h + t)[..LastDelimiterEnd(h + t)] == h + t[..LastDelimiterEnd(t)]
  {
    var m := LastDelimiterEnd(t);
    var ts := h + t;
    assert m > 0 ==> ts[|h| + m - 1] == t[m - 1];
    assert forall i | |h| + m <= i < |ts| :: ts[i] == t[i - |h|];
    LastDelimiterUnique(ts, |h| + m);
  }

  /** A slice of the sentences, as tokens. */
  lemma SliceTokens(ts: seq<Token>, idx: nat, count: nat)
    requires idx + count <= |Group(ts)|
    ensures Flatten(Group(ts)[idx..idx + count]) == Before(After(ts, idx), count)
  {
    GroupCuts(ts, idx);
    GroupCuts(After(ts, idx), count);
    assert Group(ts)[idx..][..count] == Group(ts)[idx..idx + count];
  }

  /** In a session on an earlier sentence, the number of new sentences in the session's file is
      the number of new delimiters in the region. */
  lemma RegionExpansion(v: string, idx: nat, region: seq<Token>, temp: string)
    requires Tracks(v, idx, region, temp) && idx + 1 < |Parse(v)|
    ensures 1 + |Parse(temp)| - |Parse(v)| == DelimiterCount(region)
  {
    hide Parse, Tokens, Solid;
    var l := Solid(Tokens(v));
    SentenceCount(v);
    SentenceCount(temp);
    SolidHeadCloses(v, idx);
    BeforeAfter(l, idx);
    AfterStep(l, idx);
    var p, a, rest := Before(l, idx), After(l, idx), After(l, idx + 1);
    DelimitersAppend(p, a);
    HeadDelimiters(a);
    DelimitersAppend(p, region + rest);
    DelimitersAppend(region, rest);
  }

  lemma SolidHeadCloses(v: string, idx: nat)
    requires idx + 1 < |Parse(v)|
    ensures EndsWithDelimiter(Head(After(Solid(Tokens(v)), idx)))
  {
    hide Tokens, Solid, Head, After, EndsWithDelimiter;
    GroupCloses(Tokens(v), idx + 1);
    SolidCloses(Tokens(v), idx + 1);
    ClosesAt(Solid(Tokens(v)), idx);
  }

  /** What the commit takes out of the session's file. */
  lemma SliceOfTemp(v: string, idx: nat, region: seq<Token>, temp: string)
    requires Tracks(v, idx, region, temp)
    ensures var n, t := |Parse(v)|, Parse(temp);
      Solid(Flatten(Slice(t, idx, 1 + |t| - n))) == Kept(region, idx + 1 == n)
  {
    hide Tokens, Solid, Closes, Group, LastDelimiterEnd, DelimiterCount, Before, After, Flatten;
    var l, ts := Solid(Tokens(v)), Tokens(temp);
    var n, count := |Parse(v)|, 1 + |Parse(temp)| - |Parse(v)|;
    var rest := After(l, idx + 1);
    SolidGroupCloses(v, idx);
    ClosesCut(l, idx, region + rest);
    SolidCuts(ts, idx);
    if idx + 1 == n {
      LastHasNothingAfter(v, idx);
      GroupCuts(ts, idx);
      assert Slice(Parse(temp), idx, count) == Group(ts)[idx..];
      assert region + rest == region;
    } else {
      RegionExpansion(v, idx, region, temp);
      SliceTokens(ts, idx, count);
      assert Slice(Parse(temp), idx, count) == Group(ts)[idx..idx + count];
      SolidCuts(After(ts, idx), count);
      BeforeLastDelimiter(region, rest);
    }
  }

  /* ---- The sentences of the commit ---- */

  /** The sentences of an edited region: one per delimiter, and one for a tail. */
  function Pieces(region: seq<Token>, tail: bool): seq<seq<Token>> {
    seq(DelimiterCount(region) + if tail then 1 else 0, i requires 0 <= i => Head(After(region, i)))
  }

  lemma SolidSentence(ts: seq<Token>, k: nat)
    requires k < |Group(ts)|
    ensures Solid(Group(ts)[k]) == Head(After(Solid(ts), k))
  {
    hide Group, Head, Tail, Solid, After, Before;
    GroupAt(ts, k);
    SolidHead(After(ts, k));
    SolidCuts(ts, k);
  }

  lemma {:induction false} AfterPlus(ts: seq<Token>, a: nat, b: nat)
    ensures After(ts, a + b) == After(After(ts, a), b)
    decreases a
  {
    hide Tail;
    if a > 0 {
      AfterPlus(Tail(ts), a - 1, b);
      assert After(ts, a + b) == After(Tail(ts), (a - 1) + b);
    }
  }

  lemma {:induction false} DelimitersBefore(ts: seq<Token>, k: nat)
    requires Closes(ts, k)
    ensures DelimiterCount(Before(ts, k)) == k
    decreases k
  {
    hide Head, Tail, DelimiterCount, EndsWithDelimiter, Before;
    CutStep(ts, k);
    if k > 0 {
      DelimitersBefore(Tail(ts), k - 1);
      HeadDelimiters(ts);
      DelimitersAppend(Head(ts), Before(Tail(ts), k - 1));
    } else {
      NoneDelimited();
    }
  }

  lemma NoneDelimited()
    ensures DelimiterCount([]) == 0
  {}

  /** What follows a closed region does not change its sentences. */
  lemma {:induction false} HeadWithin(region: seq<Token>, rest: seq<Token>, i: nat)
    requires i < DelimiterCount(region) || rest == []
    ensures Head(After(region + rest, i)) == Head(After(region, i))
    decreases i
  {
    hide DelimiterCount, HeadLength, Head, Tail, EndsWithDelimiter, Before;
    if rest == [] {
      assert region + rest == region;
    } else {
      FirstWithin(region, rest);
      CutHead(region, rest);
      if i > 0 { HeadWithin(Tail(region), rest, i - 1); }
    }
  }

  lemma FirstWithin(region: seq<Token>, rest: seq<Token>)
    requires DelimiterCount(region) > 0
    ensures Head(region + rest) == Head(region) && Tail(region + rest) == Tail(region) + rest
  {
    hide DelimiterCount, HeadLength;
    HeadOfClosed(region, rest);
  }

  /** The number of sentences that the commit puts in place of one. */
  lemma PieceCount(v: string, idx: nat, region: seq<Token>, temp: string)
    requires Tracks(v, idx, region, temp)
    ensures 1 + |Parse(temp)| - |Parse(v)|
      == DelimiterCount(region) + if idx + 1 == |Parse(v)| && OpenText(temp) then 1 else 0
  {
    hide Parse, Tokens, Solid, Before, After, DelimiterCount, Closes;
    if idx + 1 < |Parse(v)| {
      RegionExpansion(v, idx, region, temp);
    } else {
      var l := Solid(Tokens(v));
      LastHasNothingAfter(v, idx);
      SolidGroupCloses(v, idx);
      SentenceCount(temp);
      DelimitersBefore(l, idx);
      assert region + [] == region;
      DelimitersAppend(Before(l, idx), region);
    }
  }

  /** They are the sentences of the edited region. */
  lemma SliceSentences(v: string, idx: nat, region: seq<Token>, temp: string)
    requires Tracks(v, idx, region, temp)
    ensures var n, t := |Parse(v)|, Parse(temp);
      SolidAll(Slice(t, idx, 1 + |t| - n)) == Pieces(region, idx + 1 == n && OpenText(temp))
  {
    hide Tokens, Solid, Closes, Group, DelimiterCount, Before, After, Head, OpenText;
    var l, ts, n := Solid(Tokens(v)), Tokens(temp), |Parse(v)|;
    var rest, count := After(l, idx + 1), 1 + |Parse(temp)| - n;
    PieceCount(v, idx, region, temp);
    SolidGroupCloses(v, idx);
    ClosesCut(l, idx, region + rest);
    if idx + 1 == n { LastHasNothingAfter(v, idx); }
    var x := Slice(Parse(temp), idx, count);
    assert |x| == count;
    forall i | 0 <= i < count ensures Solid(x[i]) == Head(After(region, i)) {
      SolidSentence(ts, idx + i);
      AfterPlus(Solid(ts), idx, i);
      HeadWithin(region, rest, i);
    }
  }

  /** A commit, sentence by sentence: one sentence of the file is replaced by those of the region,
      and the others stay, up to spaces. */
  lemma CommitPieces(v: string, idx: nat, region: seq<Token>, temp: string, file: string)
    requires Tracks(v, idx, region, temp) && Parse(file) != []
    requires 0 <= AdjustedIndex(|Parse(file)|, idx, |Parse(v)|)
    ensures var doc := SolidAll(Parse(file));
      var t := AdjustedIndex(|Parse(file)|, idx, |Parse(v)|);
      var file' := ApplyCommit(Some(file), idx, |Parse(v)|, Some(temp));
      var new_ := Pieces(region, idx + 1 == |Parse(v)| && OpenText(temp));
      && new_ != [] && t < |doc| && file'.Some?
      && SolidAll(Parse(file'.value)) == doc[..t] + new_ + doc[t + 1..]
  {
    hide Parse, Print, Tokens, Solid, Group, DelimiterCount, Before, After, Head, OpenText, Document, Slice, Replace, Norm,
      ApplyCommit;
    var e, main := Edit(idx, temp), Parse(file);
    var t := AdjustedIndex(|main|, idx, |Parse(v)|);
    var x := Replacement(Parse(v), e);
    CommitInside(file, idx, |Parse(v)|, temp);
    SliceSentences(v, idx, region, temp);
    ReplacementFits(Parse(v), e);
    ParseIsDocument(file);
    ReplaceAtIsDocument(Parse(v), main, t, x, idx, t);
    ParsePrint(Replace(main, t, x));
    NormSolid(Replace(main, t, x));
    SolidReplace(main, t, x);
  }

  lemma SolidReplace(main: seq<Sentence>, t: nat, x: seq<Sentence>)
    requires t < |main|
    ensures SolidAll(Replace(main, t, x)) == SolidAll(main)[..t] + SolidAll(x) + SolidAll(main)[t + 1..]
  {
    hide Solid;
    var r, doc := SolidAll(Replace(main, t, x)), SolidAll(main)[..t] + SolidAll(x) + SolidAll(main)[t + 1..];
    forall i | 0 <= i < |r| ensures r[i] == doc[i] {
      if i >= t + |x| { assert doc[i] == SolidAll(main)[t + 1..][i - t - |x|]; }
    }
  }

  /** A session on sentence `idx`, with no commit in between, refines splices in that sentence.
      For any number of WRITEs, accepted or not, the committed file has, up to spaces, the
      tokens of the version that was locked, with the locked sentence replaced by the result of
      splicing every accepted WRITE into it at its addressed word; only what the writer left
      after the last delimiter of a non-final sentence is dropped. */
  lemma SessionRefinesSplices(v: string, idx: nat, ops: seq<WriteOp>)
    requires idx < |Parse(v)|
    ensures var l := Solid(Tokens(v));
      var region := EditAll(Head(After(l, idx)), ops);
      var file := ApplyCommit(Some(v), idx, |Parse(v)|, Some(WriteAll(v, idx, ops)));
      && file.Some?
      && Solid(Tokens(file.value))
         == Before(l, idx) + Kept(region, idx + 1 == |Parse(v)|) + After(l, idx + 1)
  {
    hide Tokens, Solid, Group, Print, Tracks, EditAll, WriteAll, Slice, Kept, ApplyCommit, Replace,
      Before, After, Head, SentencesOk, Document;
    var ts, ss, temp := Tokens(v), Parse(v), WriteAll(v, idx, ops);
    var l := Solid(ts);
    var region := EditAll(Head(After(l, idx)), ops);
    TrackStart(v, idx);
    TrackAll(v, idx, Head(After(l, idx)), v, ops);
    SliceOfTemp(v, idx, region, temp);
    var x := Slice(Parse(temp), idx, 1 + |Parse(temp)| - |ss|);
    ParseIsDocument(v);
    ParseIsDocument(temp);
    SliceOk(Parse(temp), idx, 1 + |Parse(temp)| - |ss|);
    ReplaceOk(ss, idx, x);
    PrintKeepsSolid(Replace(ss, idx, x));
    ReplaceSolid(ts, idx, x);
    CommitInside(v, idx, |ss|, temp);
  }

  lemma ReplaceOk(ss: seq<Sentence>, idx: nat, x: seq<Sentence>)
    requires SentencesOk(ss) && SentencesOk(x) && idx < |ss|
    ensures SentencesOk(Replace(ss, idx, x))
  {
    hide TokensOk;
  }

  lemma ReplaceSolid(ts: seq<Token>, idx: nat, x: seq<Sentence>)
    requires idx < |Group(ts)|
    ensures Solid(Flatten(Replace(Group(ts), idx, x)))
      == Before(Solid(ts), idx) + Solid(Flatten(x)) + After(Solid(ts), idx + 1)
  {
    hide Solid, Group, Before, After, Flatten;
    var ss := Group(ts);
    GroupCuts(ts, idx);
    GroupCuts(ts, idx + 1);
    FlattenAround(ss[..idx], x, ss[idx + 1..]);
    SolidAppend(Before(ts, idx) + Flatten(x), After(ts, idx + 1));
    SolidAppend(Before(ts, idx), Flatten(x));
    SolidCuts(ts, idx);
    SolidCuts(ts, idx + 1);
  }

  /** A session's edit is one the queue theorems accept, and what it makes of its sentence is
      the reference's result. */
  lemma SessionEdit(v: string, idx: nat, ops: seq<WriteOp>)
    requires idx < |Parse(v)|
    ensures var e := Edit(idx, WriteAll(v, idx, ops));
      && EditOk(Parse(v), e)
      && Solid(Flatten(Replacement(Parse(v), e)))
         == Kept(EditAll(Head(After(Solid(Tokens(v)), idx)), ops), idx + 1 == |Parse(v)|)
  {
    hide Parse, Tokens, Solid, EditAll, WriteAll, Kept, Head, After, Flatten, Slice;
    var l := Solid(Tokens(v));
    TrackStart(v, idx);
    TrackAll(v, idx, Head(After(l, idx)), v, ops);
    SliceOfTemp(v, idx, EditAll(Head(After(l, idx)), ops), WriteAll(v, idx, ops));
  }

  /** A session on an empty or missing file, where sentence 0 is the only one that can be
      locked, refines splices into nothing: the committed file is exactly what was written. */
  lemma EmptyFileSession(main: Option<string>, ops: seq<WriteOp>)
    requires Sentences(main) == []
    ensures var file := ApplyCommit(main, 0, 0, Some(WriteAll("", 0, ops)));
      file.Some? && Solid(Tokens(file.value)) == EditAll([], ops)
  {
    WriteEmpty("", ops);
    var temp := WriteAll("", 0, ops);
    ParseIsDocument(temp);
    PrintKeepsSolid(Parse(temp));
    FlattenGroup(Tokens(temp));
  }

  lemma {:induction false} WriteEmpty(file: string, ops: seq<WriteOp>)
    ensures Solid(Tokens(WriteAll(file, 0, ops))) == EditAll(Solid(Tokens(file)), ops)
    decreases |ops|
  {
    hide Tokens, WriteText, SpliceHead, Solid;
    if ops == [] {
    } else {
      AnyFirstSentence(file, ops[0].content);
      WriteRefinesSplice(file, 0, ops[0].word, ops[0].content);
      var r := WriteText(Some(file), 0, ops[0].word, ops[0].content);
      WriteEmpty(if r.Some? then r.value else file, ops[1..]);
      assert SpliceAt(Solid(Tokens(file)), 0, ops[0].word, Solid(Tokens(ops[0].content)))
          == SpliceHead(Solid(Tokens(file)), ops[0].word, Solid(Tokens(ops[0].content)));
    }
  }

  lemma AnyFirstSentence(file: string, content: string)
    ensures Addressable(file, 0, content)
  {
    LoadedParse(Some(file));
  }

  lemma SliceOk(ss: seq<Sentence>, idx: nat, count: int)
    requires SentencesOk(ss)
    ensures SentencesOk(Slice(ss, idx, count))
  {}

  /** Content that is not closed goes behind the final delimiter of the region. */
  predicate OpensEnd(region: seq<Token>, w: int, parts: seq<Token>) {
    Head(region) == region && w == RealWords(region) + 1 && parts != [] && !EndsWithDelimiter(parts)
  }

  /** No WRITE of the session does that. */
  predicate NeverOpens(region: seq<Token>, ops: seq<WriteOp>)
    decreases |ops|
  {
    ops == [] ||
    var parts := Solid(Tokens(ops[0].content));
    !OpensEnd(region, ops[0].word, parts) && NeverOpens(SpliceHead(region, ops[0].word, parts), ops[1..])
  }

  /** Nothing is lost if and only if the locked sentence ends the file, or no WRITE of the session
      puts open content behind its final delimiter. */
  lemma NothingLost(v: string, idx: nat, ops: seq<WriteOp>)
    requires idx < |Parse(v)|
    ensures var l := Solid(Tokens(v));
      var locked := Head(After(l, idx));
      var file := ApplyCommit(Some(v), idx, |Parse(v)|, Some(WriteAll(v, idx, ops)));
      && file.Some?
      && (Solid(Tokens(file.value)) == Before(l, idx) + EditAll(locked, ops) + After(l, idx + 1)
          <==> idx + 1 == |Parse(v)| || NeverOpens(locked, ops))
  {
    hide Tokens, Solid, Group, ApplyCommit, WriteAll, LastDelimiterEnd, Before, After, Head, EditAll, NeverOpens;
    SessionRefinesSplices(v, idx, ops);
    var l := Solid(Tokens(v));
    var region := EditAll(Head(After(l, idx)), ops);
    if idx + 1 < |Parse(v)| {
      SolidHeadCloses(v, idx);
      StaysClosed(Head(After(l, idx)), ops);
      KeptWhole(Before(l, idx), region, After(l, idx + 1));
    }
  }

  lemma KeptWhole(p: seq<Token>, region: seq<Token>, q: seq<Token>)
    requires region != []
    ensures p + Kept(region, false) + q == p + region + q <==> EndsWithDelimiter(region)
  {
    var n := LastDelimiterEnd(region);
    assert n == |region| <==> EndsWithDelimiter(region);
    assert |p + region[..n] + q| == |p| + n + |q|;
    if n == |region| { assert region[..n] == region; }
  }

  /** A closed sentence is left closed by a session if and only if no WRITE opens its end: once open,
      nothing closes it again. */
  lemma {:induction false} StaysClosed(region: seq<Token>, ops: seq<WriteOp>)
    requires EndsWithDelimiter(region)
    ensures EditAll(region, ops) != []
    ensures EndsWithDelimiter(EditAll(region, ops)) <==> NeverOpens(region, ops)
    decreases |ops|
  {
    hide SpliceHead, OpensEnd, Tokens, Solid;
    if ops == [] {
    } else {
      var w, parts := ops[0].word, Solid(Tokens(ops[0].content));
      var next := SpliceHead(region, w, parts);
      ClosedAfter(region, w, parts);
      if OpensEnd(region, w, parts) {
        ClosedHasDelimiter(region);
        OpenAfter(region, w, parts);
        StaysOpen(next, ops[1..]);
      } else {
        StaysClosed(next, ops[1..]);
      }
    }
  }

  /** One WRITE. */
  lemma ClosedAfter(region: seq<Token>, w: int, parts: seq<Token>)
    requires EndsWithDelimiter(region)
    ensures EndsWithDelimiter(SpliceHead(region, w, parts)) <==> !OpensEnd(region, w, parts)
  {
    hide RealWords, PastWord;
    var h := Head(region);
    EndIsReal(region);
    if |h| == |region| { assert h == region; }
    if ValidWord(h, w) {
      var p := WordPos(h, w);
      if w != 1 && w <= RealWords(h) { PastWordInside(h, w - 1); }
      SpliceEnd(region, p, parts);
    }
  }

  lemma ClosedHasDelimiter(region: seq<Token>)
    requires EndsWithDelimiter(region)
    ensures DelimiterCount(region) > 0
  {
    hide DelimiterCount;
    if DelimiterCount(region) == 0 { NoDelimiters(region); }
  }

  /** A delimiter stays in the region. */
  lemma OpenAfter(region: seq<Token>, w: int, parts: seq<Token>)
    requires DelimiterCount(region) > 0
    ensures DelimiterCount(SpliceHead(region, w, parts)) > 0
    ensures !EndsWithDelimiter(region) ==> !EndsWithDelimiter(SpliceHead(region, w, parts))
  {
    hide RealWords, PastWord, DelimiterCount;
    SpliceHeadDelimiters(region, w, parts);
    SomeDelimiter(region);
    var h := Head(region);
    if !EndsWithDelimiter(region) && ValidWord(h, w) {
      var p := WordPos(h, w);
      var r := region[..p] + parts + region[p..];
      assert r[|r| - 1] == region[|region| - 1];
    }
  }

  lemma {:induction false} StaysOpen(region: seq<Token>, ops: seq<WriteOp>)
    requires DelimiterCount(region) > 0 && !EndsWithDelimiter(region)
    ensures EditAll(region, ops) != [] && !EndsWithDelimiter(EditAll(region, ops))
    decreases |ops|
  {
    hide SpliceHead, Tokens, Solid;
    if ops == [] {
    } else {
      var parts := Solid(Tokens(ops[0].content));
      OpenAfter(region, ops[0].word, parts);
      StaysOpen(SpliceHead(region, ops[0].word, parts), ops[1..]);
    }
  }

  lemma SpliceEnd(region: seq<Token>, p: nat, parts: seq<Token>)
    requires EndsWithDelimiter(region) && p <= |region|
    ensures EndsWithDelimiter(region[..p] + parts + region[p..]) <==>
      p < |region| || parts == [] || EndsWithDelimiter(parts)
  {
    var r := region[..p] + parts + region[p..];
    if p < |region| {
      assert r[|r| - 1] == region[|region| - 1];
    } else if parts != [] {
      assert r[|r| - 1] == parts[|parts| - 1];
    } else {
      assert r == region;
    }
  }

  lemma {:induction false} PastWordInside(s: seq<Token>, k: nat)
    requires 1 <= k < RealWords(s)
    ensures PastWord(s, k) < |s|
  {
    if IsBlankToken(s[0]) {
      PastWordInside(s[1..], k);
    } else if k > 1 {
      PastWordInside(s[1..], k - 1);
    }
  }

  lemma {:induction false} EndIsReal(ts: seq<Token>)
    requires EndsWithDelimiter(ts)
    ensures RealWords(ts) > 0
  {
    if |ts| > 1 { EndIsReal(ts[1..]); }
  }
}
