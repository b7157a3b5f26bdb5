/** Concrete inputs on which the merge does less than one would hope. */
module Failures {
  import opened Wrappers
  import opened Text
  import opened Printer
  import opened Insertion
  import opened Merge
  import opened Session
  import opened StoreSteps
  import opened Protocol
  import opened Concurrent

  /** A sentence of one letter. */
  function Dot(c: char): Sentence {
    [[c], "."]
  }

  lemma DotTokens(c: char)
    requires ClassOf(c) == Letter
    ensures IsWordToken([c]) && !IsSpaceToken([c]) && !IsBlankToken([c]) && !IsDelimiterToken([c])
    ensures IsDelimiterToken(".") && !IsSpaceToken(".") && !IsBlankToken(".") && !IsWordToken(".")
  {
    TokenKinds([c]);
    TokenKinds(".");
  }

  lemma ParseDot(c: char, s: string)
    requires ClassOf(c) == Letter
    ensures Parse([c, '.'] + s) == [Dot(c)] + Parse(s)
    ensures Tokens([c, '.'] + s) == Dot(c) + Tokens(s)
  {
    hide Tokens, Group, Head, Tail;
    TokensDot(c, s);
    GroupDot(c, Tokens(s));
  }

  lemma TokensDot(c: char, s: string)
    requires ClassOf(c) == Letter
    ensures Tokens([c, '.'] + s) == Dot(c) + Tokens(s)
  {
    var t, u := [c, '.'] + s, "." + s;
    assert t[1..] == u && t[..1] == [c];
    assert Span(t, Letter) == 1;
    DotFirst(s);
    assert Tokens(t) == [[c]] + Tokens(u);
  }

  lemma DotFirst(s: string)
    ensures Tokens("." + s) == ["."] + Tokens(s)
  {
    var u := "." + s;
    assert u[1..] == s && u[..1] == ".";
  }

  lemma GroupDot(c: char, rest: seq<Token>)
    requires ClassOf(c) == Letter
    ensures Group(Dot(c) + rest) == [Dot(c)] + Group(rest)
  {
    var ts := Dot(c) + rest;
    DotTokens(c);
    assert ts[0] == [c] && ts[1..][0] == ".";
    assert HeadLength(ts) == 2;
    assert Head(ts) == Dot(c) && Tail(ts) == rest;
  }

  lemma ParseTwo(a: char, b: char)
    requires ClassOf(a) == ClassOf(b) == Letter
    ensures Parse([a, '.', b, '.']) == [Dot(a), Dot(b)]
    ensures Tokens([a, '.', b, '.']) == [[a], ".", [b], "."]
  {
    assert [a, '.', b, '.'] == [a, '.'] + ([b, '.'] + "");
    ParseDot(b, "");
    ParseDot(a, [b, '.'] + "");
  }

  lemma ParseThree(a: char, b: char, c: char)
    requires ClassOf(a) == ClassOf(b) == ClassOf(c) == Letter
    ensures Parse([a, '.', b, '.', c, '.']) == [Dot(a), Dot(b), Dot(c)]
  {
    assert [a, '.', b, '.', c, '.'] == [a, '.'] + [b, '.', c, '.'];
    ParseTwo(b, c);
    ParseDot(a, [b, '.', c, '.']);
  }

  lemma InnerDot(c: char)
    requires ClassOf(c) == Letter
    ensures Inner(Dot(c)) == Dot(c) && !IsBlankToken(Dot(c)[1]) && !IsBlankToken(Dot(c)[0])
    ensures Concat(Dot(c)) == [c, '.'] && Concat([" "]) == " " && Concat([]) == ""
  {
    var d := Dot(c);
    DotTokens(c);
    assert d[1..] == ["."] && d[1..][1..] == [] && [" "][1..] == [];
    assert Inner(d) == [[c]] + WordGap(d[0], d[1]) + Inner(["."]);
  }

  lemma {:induction false} PrintDots(cs: seq<char>)
    requires forall i | 0 <= i < |cs| :: ClassOf(cs[i]) == Letter
    ensures Print(seq(|cs|, i requires 0 <= i < |cs| => Dot(cs[i]))) == Spaced(cs)
  {
    hide Inner, IsBlankToken;
    var ss := seq(|cs|, i requires 0 <= i < |cs| => Dot(cs[i]));
    if cs != [] {
      var rest := seq(|cs| - 1, i requires 0 <= i < |cs| - 1 => Dot(cs[1..][i]));
      assert ss[1..] == rest;
      PrintDots(cs[1..]);
      var d := Dot(cs[0]);
      InnerDot(cs[0]);
      if |cs| > 1 {
        InnerDot(cs[1]);
        assert rest[0] == Dot(cs[1]);
        assert SentenceGap(d, rest) == [" "];
      } else {
        assert SentenceGap(d, rest) == [];
      }
      assert Expand(ss) == d + SentenceGap(d, rest) + Expand(rest);
      ConcatAppend(d + SentenceGap(d, rest), Expand(rest));
      ConcatAppend(d, SentenceGap(d, rest));
    } else {
      assert ss == [];
    }
  }

  function Spaced(cs: seq<char>): string {
    if cs == [] then "" else [cs[0], '.'] + (if |cs| == 1 then "" else " ") + Spaced(cs[1..])
  }

  lemma PrintThree(a: char, b: char, c: char)
    requires ClassOf(a) == ClassOf(b) == ClassOf(c) == Letter
    ensures Print([Dot(a), Dot(b), Dot(c)]) == [a, '.', ' ', b, '.', ' ', c, '.']
  {
    var cs := [a, b, c];
    PrintDots(cs);
    assert seq(|cs|, i requires 0 <= i < |cs| => Dot(cs[i])) == [Dot(a), Dot(b), Dot(c)];
    assert cs[1..] == [b, c] && [b, c][1..] == [c] && [c][1..] == [];
    assert Spaced([c]) == [c, '.'];
    assert Spaced([b, c]) == [b, '.', ' '] + Spaced([c]);
    assert Spaced(cs) == [a, '.', ' '] + Spaced([b, c]);
  }

  /* ---- Runs of several sessions ---- */

  /** A file of three sentences that was committed to before. */
  const SEEDED := EMPTY.(files := map["f" := "a.b.d."], queues := map["f" := []])

  const FIRST := Key("f", "w", 0)
  const SECOND := Key("f", "u", 1)
  const THIRD := Key("f", "x", 2)

  predicate AllSucceed(s: Store, rs: seq<Request>)
    decreases |rs|
  {
    rs == [] || (Step(s, rs[0]).status == SUCCESS && AllSucceed(Step(s, rs[0]).store, rs[1..]))
  }

  /** The desk is the reference machine's for file `f`, and up to `n` sessions are open. */
  ghost predicate Ready(x: Desk, s: Store, n: nat) {
    Inv(s) && FileOk(x, "f", s) && SessionsOk(x, "f", s) && "f" in s.queues && |s.sessions| <= n
  }

  /** From here the run `rs` succeeds and leaves the sentences `doc`. */
  ghost predicate Ends(x: Desk, s: Store, n: nat, rs: seq<Request>, doc: seq<seq<Token>>) {
    Ready(x, s, n) ==>
      AllSucceed(s, rs) && SolidAll(Sentences(Lookup(Run(s, rs).files, "f"))) == doc
  }

  lemma EndOfRun(x: Desk, s: Store, n: nat)
    ensures Ends(x, s, n, [], x.doc)
  {
    hide Inv, SessionsOk;
    NoRun(s);
  }

  lemma OneRequest(s: Store, r: Request, rs: seq<Request>)
    ensures AllSucceed(s, [r] + rs) <==> Step(s, r).status == SUCCESS && AllSucceed(Step(s, r).store, rs)
    ensures Run(s, [r] + rs) == Run(Step(s, r).store, rs)
  {
    hide Step;
    assert ([r] + rs)[1..] == rs;
  }

  lemma StepReady(x: Desk, s: Store, n: nat, r: Request)
    requires Ready(x, s, n) && Edits(r, "f")
    ensures Ready(DeskStep(x, "f", s, r), Step(s, r).store, if r.Lock? then n + 1 else n)
  {
    hide Inv, FileOk, SessionsOk, Edits, Step, DeskStep;
    StepRefines(x, "f", s, r);
    StepKeepsInv(s, r);
    StepKeepsQueues(s, r);
    SessionsGrow(s, r);
  }

  lemma SessionsGrow(s: Store, r: Request)
    requires Inv(s)
    ensures |Step(s, r).store.sessions| <= |s.sessions| + if r.Lock? then 1 else 0
  {
    hide FindSession, WriteText, CommitSession, LockSentence, UnlockSentence, Inv, Sentences;
    match r
    case Lock(k) =>
      if LockAllowed(Sentences(Lookup(s.files, k.file)), k.idx) {
        LockEffect(s, k.file, k.idx, k.user);
        var l := LockSentence(s, k.file, k.idx, k.user).store;
        UnlockEffect(l, k.file, k.idx, k.user);
      }
    case Unlock(k) =>
      UnlockEffect(CommitSession(s, k).store, k.file, k.idx, k.user);
      CommitFrame(s, k);
    case Cancel(k) =>
      var s1 := if HasSession(s, k)
        then s.(sessions := RemoveSession(s.sessions, k), temps := s.temps - {k}) else s;
      UnlockEffect(s1, k.file, k.idx, k.user);
    case _ =>
  }

  lemma LockNext(x: Desk, s: Store, n: nat, k: Key, rs: seq<Request>, doc: seq<seq<Token>>)
    requires k.file == "f" && 0 <= k.idx < |x.doc| && n < MAX_SESSIONS && forall l | l in x.open :: l.idx != k.idx
    requires var x' := x.(open := x.open[k := Slot(k.idx, 0, x.doc[k.idx], x.doc[k.idx])]);
      Ends(x', Step(s, Lock(k)).store, n + 1, rs, doc)
    ensures Ends(x, s, n, [Lock(k)] + rs, doc)
  {
    hide Inv, FileOk, SessionsOk, Step, Run, AllSucceed;
    OneRequest(s, Lock(k), rs);
    if Ready(x, s, n) {
      LockLooksAtIndex(x, "f", s, k);
      StepReady(x, s, n, Lock(k));
    }
  }

  lemma WriteNext(x: Desk, s: Store, n: nat, k: Key, word: int, content: string, rs: seq<Request>, doc: seq<seq<Token>>)
    requires k in x.open && x.open[k].pos + x.open[k].lag < |x.doc| && ValidWord(Head(x.open[k].region), word)
    requires var region := SpliceHead(x.open[k].region, word, Solid(Tokens(content)));
      Ends(x.(open := x.open[k := x.open[k].(region := region)]), Step(s, Write(k, word, content)).store, n, rs, doc)
    ensures Ends(x, s, n, [Write(k, word, content)] + rs, doc)
  {
    hide Inv, FileOk, SessionsOk, Step, Run, AllSucceed, Tokens, Solid, SpliceHead, Head, ValidWord;
    var r := Write(k, word, content);
    OneRequest(s, r, rs);
    if Ready(x, s, n) {
      WriteAccepted(x, "f", s, k, word, content);
      StepReady(x, s, n, r);
    }
  }

  lemma UnlockNext(x: Desk, s: Store, n: nat, k: Key, rs: seq<Request>, doc: seq<seq<Token>>)
    requires k in x.open && 0 <= x.open[k].pos + x.open[k].lag < |x.doc| - 1
    requires Ends(Put(x, k, false), Step(s, Unlock(k)).store, n, rs, doc)
    ensures Ends(x, s, n, [Unlock(k)] + rs, doc)
  {
    hide Inv, FileOk, SessionsOk, Step, Run, AllSucceed, Pieces, Moved, OpenText, HasSession;
    OneRequest(s, Unlock(k), rs);
    if Ready(x, s, n) {
      OpenIsSession(x, "f", s);
      OwnUnlock(s, k);
      StepReady(x, s, n, Unlock(k));
    }
  }

  lemma OwnUnlock(s: Store, k: Key)
    requires Inv(s) && HasSession(s, k) && k.file in s.queues
    ensures Step(s, Unlock(k)).status == SUCCESS
  {
    hide Inv, HasSession, Step;
    UnlockOutcome(s, k);
  }

  lemma SeededReady()
    ensures Ready(Desk([Dot('a'), Dot('b'), Dot('d')], map[]), SEEDED, 0)
  {
    hide Parse, Solid;
    ParseThree('a', 'b', 'd');
    DotSolid('a');
    DotSolid('b');
    DotSolid('d');
  }

  lemma DotSolid(c: char)
    requires ClassOf(c) == Letter
    ensures Solid(Dot(c)) == Dot(c)
  {
    DotTokens(c);
    assert Dot(c)[1..] == ["."] && ["."][1..] == [];
    assert Solid(["."]) == ["."];
  }

  /** The splices and cuts of the two runs. */
  lemma WriteFront(c: char, d: char)
    requires ClassOf(c) == ClassOf(d) == Letter
    ensures ValidWord(Head(Dot(c)), 1) && SpliceHead(Dot(c), 1, Solid(Tokens([d]))) == [[d]] + Dot(c)
    ensures Pieces([[d]] + Dot(c), false) == [[[d]] + Dot(c)]
  {
    hide Tokens;
    LetterTokens(d);
    DotTokens(c);
    DotTokens(d);
    var r, dot := [[d]] + Dot(c), ["."];
    assert r[1..] == Dot(c) && Dot(c)[1..] == dot && dot[1..] == [];
    assert HeadLength(dot) == 1 && HeadLength(Dot(c)) == 2 && HeadLength(r) == 3;
    assert DelimiterCount(dot) == 1 && DelimiterCount(Dot(c)) == 1 && DelimiterCount(r) == 1;
    assert Head(After(r, 0)) == r;
  }

  lemma LetterTokens(c: char)
    requires ClassOf(c) == Letter
    ensures Solid(Tokens([c])) == [[c]]
  {
    DotTokens(c);
    var n, t, rest := FirstToken([c]);
    assert [c][n..] == "" && t == [c];
    assert [[c]][1..] == [];
  }

  lemma WriteBehind(c: char, d: char)
    requires ClassOf(c) == ClassOf(d) == Letter
    ensures ValidWord(Head(Dot(c)), 3) && SpliceHead(Dot(c), 3, Solid(Tokens([d, '.']))) == Dot(c) + Dot(d)
    ensures Pieces(Dot(c) + Dot(d), false) == [Dot(c), Dot(d)]
  {
    hide Tokens, Solid;
    ParseDot(d, "");
    assert [d, '.'] + "" == [d, '.'];
    NoTokens();
    assert Dot(d) + [] == Dot(d);
    DotSolid(d);
    SpliceBehind(c, Dot(d));
    BehindPieces(c, d);
  }

  lemma SpliceBehind(c: char, parts: seq<Token>)
    requires ClassOf(c) == Letter
    ensures ValidWord(Head(Dot(c)), 3) && SpliceHead(Dot(c), 3, parts) == Dot(c) + parts
  {
    DotTokens(c);
    var r, dot := Dot(c), ["."];
    assert r[1..] == dot && dot[1..] == [];
    assert RealWords(dot) == 1 && RealWords(r) == 2;
    assert HeadLength(dot) == 1 && HeadLength(r) == 2 && Head(r) == r;
    assert WordPos(r, 3) == 2 && r[..2] + parts + r[2..] == r + parts;
  }

  lemma BehindPieces(c: char, d: char)
    requires ClassOf(c) == ClassOf(d) == Letter
    ensures Pieces(Dot(c) + Dot(d), false) == [Dot(c), Dot(d)]
  {
    DotTokens(c);
    DotTokens(d);
    var r, dot := Dot(c) + Dot(d), ["."];
    assert r[1..] == dot + Dot(d) && r[1..][1..] == Dot(d) && Dot(d)[1..] == dot && dot[1..] == [];
    assert DelimiterCount(dot) == 1 && DelimiterCount(Dot(d)) == 1 && DelimiterCount(r[1..]) == 2;
    assert HeadLength(dot) == 1 && HeadLength(Dot(d)) == 2 && HeadLength(r[1..]) == 1 && HeadLength(r) == 2;
    assert Head(r) == Dot(c) && Tail(r) == Dot(d) && Head(Dot(d)) == Dot(d);
    assert After(r, 0) == r && After(r, 1) == After(Dot(d), 0) == Dot(d);
  }

  const RELOCATION := [Lock(SECOND)] + ([Lock(FIRST)] + ([Write(SECOND, 3, "c.")] + ([Write(FIRST, 1, "x")]
    + ([Unlock(SECOND)] + ([Unlock(FIRST)] + [])))))

  /** Relocation: of "a.b.d.", one session makes the second sentence two and commits; then another
      commits an edit of the first.  The second sentence is overwritten, and the first stays as it
      was. */
  lemma RelocationFails()
    ensures Inv(SEEDED) && AllSucceed(SEEDED, RELOCATION)
    ensures SolidAll(Sentences(Lookup(Run(SEEDED, RELOCATION).files, "f")))
      == [["a", "."], ["x", "a", "."], ["c", "."], ["d", "."]]
  {
    hide Inv, FileOk, SessionsOk, Step, Run, AllSucceed, Pieces, SpliceHead, Head, ValidWord, Tokens, Solid, Put, Sentences;
    SeededReady();
    WriteBehind('b', 'c');
    WriteFront('a', 'x');
    var x0 := Desk([Dot('a'), Dot('b'), Dot('d')], map[]);
    RelocationRun(x0, SEEDED, Dot('b') + Dot('c'), [['x']] + Dot('a'), Dot('c'));
    assert [['x']] + Dot('a') == ["x", "a", "."];
  }

  lemma RelocationRun(x0: Desk, s0: Store, b: seq<Token>, a: seq<Token>, c: seq<Token>)
    requires x0.open == map[] && |x0.doc| == 3
    requires ValidWord(Head(x0.doc[1]), 3) && b == SpliceHead(x0.doc[1], 3, Solid(Tokens("c.")))
    requires ValidWord(Head(x0.doc[0]), 1) && a == SpliceHead(x0.doc[0], 1, Solid(Tokens("x")))
    requires Pieces(b, false) == [x0.doc[1], c] && Pieces(a, false) == [a]
    ensures Ends(x0, s0, 0, RELOCATION, [x0.doc[0], a, c, x0.doc[2]])
  {
    hide Ends, Step, Pieces, SpliceHead, Head, ValidWord, Tokens, Solid;
    var s1 := Step(s0, Lock(SECOND)).store;
    var s2 := Step(s1, Lock(FIRST)).store;
    var s3 := Step(s2, Write(SECOND, 3, "c.")).store;
    var s4 := Step(s3, Write(FIRST, 1, "x")).store;
    var s5 := Step(s4, Unlock(SECOND)).store;
    var first, second := Slot(0, 0, x0.doc[0], x0.doc[0]), Slot(1, 0, x0.doc[1], x0.doc[1]);
    var x1 := x0.(open := x0.open[SECOND := second]);
    var x2 := x1.(open := x1.open[FIRST := first]);
    var x3 := x2.(open := x2.open[SECOND := second.(region := b)]);
    var x4 := x3.(open := x3.open[FIRST := first.(region := a)]);
    var x5 := Desk([x0.doc[0], x0.doc[1], c, x0.doc[2]], map[FIRST := Slot(0, 1, x0.doc[0], a)]);
    assert Put(x4, SECOND, false) == x5;
    var x6 := Desk([x0.doc[0], a, c, x0.doc[2]], map[]);
    assert Put(x5, FIRST, false) == x6;
    EndOfRun(x6, Step(s5, Unlock(FIRST)).store, 2);
    UnlockNext(x5, s5, 2, FIRST, [], x6.doc);
    var r5: seq<Request> := [Unlock(FIRST)] + [];
    UnlockNext(x4, s4, 2, SECOND, r5, x6.doc);
    var r4 := [Unlock(SECOND)] + r5;
    WriteNext(x3, s3, 2, FIRST, 1, "x", r4, x6.doc);
    var r3 := [Write(FIRST, 1, "x")] + r4;
    WriteNext(x2, s2, 2, SECOND, 3, "c.", r3, x6.doc);
    var r2 := [Write(SECOND, 3, "c.")] + r3;
    LockNext(x1, s1, 1, FIRST, r2, x6.doc);
    LockNext(x0, s0, 0, SECOND, [Lock(FIRST)] + r2, x6.doc);
  }

  const SHARED := [Lock(SECOND)] + ([Lock(FIRST)] + ([Write(FIRST, 3, "c.")] + ([Unlock(FIRST)] + ([Lock(THIRD)]
    + ([Write(SECOND, 1, "y")] + ([Write(THIRD, 1, "z")] + ([Unlock(SECOND)] + ([Unlock(THIRD)] + []))))))))

  /** Two users on one sentence: while the second sentence of "a.b.d." is locked, a commit of the first
      adds a sentence; the locked one can now be locked again, as the third.  Both users commit, both
      are answered success, and the "y" of the first is gone. */
  lemma LockedTwice()
    ensures Inv(SEEDED) && AllSucceed(SEEDED, SHARED)
    ensures SolidAll(Sentences(Lookup(Run(SEEDED, SHARED).files, "f")))
      == [["a", "."], ["c", "."], ["z", "b", "."], ["d", "."]]
  {
    hide Inv, FileOk, SessionsOk, Step, Run, AllSucceed, Pieces, SpliceHead, Head, ValidWord, Tokens, Solid, Put, Sentences;
    SeededReady();
    WriteBehind('a', 'c');
    WriteFront('b', 'y');
    WriteFront('b', 'z');
    var x0 := Desk([Dot('a'), Dot('b'), Dot('d')], map[]);
    SharedRun(x0, SEEDED, Dot('a') + Dot('c'), [['y']] + Dot('b'), [['z']] + Dot('b'), Dot('c'));
    assert [['z']] + Dot('b') == ["z", "b", "."];
  }

  lemma SharedRun(x0: Desk, s0: Store, a: seq<Token>, y: seq<Token>, z: seq<Token>, c: seq<Token>)
    requires x0.open == map[] && |x0.doc| == 3
    requires ValidWord(Head(x0.doc[0]), 3) && a == SpliceHead(x0.doc[0], 3, Solid(Tokens("c.")))
    requires ValidWord(Head(x0.doc[1]), 1) && y == SpliceHead(x0.doc[1], 1, Solid(Tokens("y")))
    requires z == SpliceHead(x0.doc[1], 1, Solid(Tokens("z")))
    requires Pieces(a, false) == [x0.doc[0], c] && Pieces(y, false) == [y] && Pieces(z, false) == [z]
    ensures Ends(x0, s0, 0, SHARED, [x0.doc[0], c, z, x0.doc[2]])
  {
    hide Ends, Step, Pieces, SpliceHead, Head, ValidWord, Tokens, Solid, Put;
    var s1 := Step(s0, Lock(SECOND)).store;
    var s2 := Step(s1, Lock(FIRST)).store;
    var s3 := Step(s2, Write(FIRST, 3, "c.")).store;
    var s4 := Step(s3, Unlock(FIRST)).store;
    var first, second := Slot(0, 0, x0.doc[0], x0.doc[0]), Slot(1, 0, x0.doc[1], x0.doc[1]);
    var x1 := x0.(open := x0.open[SECOND := second]);
    var x2 := x1.(open := x1.open[FIRST := first]);
    var x3 := x2.(open := x2.open[FIRST := first.(region := a)]);
    var x4 := Desk([x0.doc[0], c, x0.doc[1], x0.doc[2]], map[SECOND := second.(pos := 2)]);
    FirstPut(x0, x3, a, c);
    var r4 := [Lock(THIRD)] + ([Write(SECOND, 1, "y")] + ([Write(THIRD, 1, "z")] + ([Unlock(SECOND)] + ([Unlock(THIRD)] + []))));
    SharedEnd(x4, s4, y, z);
    UnlockNext(x3, s3, 2, FIRST, r4, [x0.doc[0], c, z, x0.doc[2]]);
    var r3 := [Unlock(FIRST)] + r4;
    WriteNext(x2, s2, 2, FIRST, 3, "c.", r3, [x0.doc[0], c, z, x0.doc[2]]);
    var r2 := [Write(FIRST, 3, "c.")] + r3;
    LockNext(x1, s1, 1, FIRST, r2, [x0.doc[0], c, z, x0.doc[2]]);
    LockNext(x0, s0, 0, SECOND, [Lock(FIRST)] + r2, [x0.doc[0], c, z, x0.doc[2]]);
  }

  lemma FirstPut(x0: Desk, x3: Desk, a: seq<Token>, c: seq<Token>)
    requires |x0.doc| == 3 && Pieces(a, false) == [x0.doc[0], c]
    requires x3 == Desk(x0.doc, map[SECOND := Slot(1, 0, x0.doc[1], x0.doc[1]), FIRST := Slot(0, 0, x0.doc[0], a)])
    ensures Put(x3, FIRST, false)
      == Desk([x0.doc[0], c, x0.doc[1], x0.doc[2]], map[SECOND := Slot(2, 0, x0.doc[1], x0.doc[1])])
  {
    hide Pieces;
  }

  lemma SharedEnd(x4: Desk, s4: Store, y: seq<Token>, z: seq<Token>)
    requires |x4.doc| == 4 && x4.open == map[SECOND := Slot(2, 0, x4.doc[2], x4.doc[2])]
    requires ValidWord(Head(x4.doc[2]), 1)
    requires y == SpliceHead(x4.doc[2], 1, Solid(Tokens("y"))) && z == SpliceHead(x4.doc[2], 1, Solid(Tokens("z")))
    requires Pieces(y, false) == [y] && Pieces(z, false) == [z]
    ensures Ends(x4, s4, 2, [Lock(THIRD)] + ([Write(SECOND, 1, "y")] + ([Write(THIRD, 1, "z")]
                   + ([Unlock(SECOND)] + ([Unlock(THIRD)] + [])))), [x4.doc[0], x4.doc[1], z, x4.doc[3]])
  {
    hide Ends, Step, Pieces, SpliceHead, Head, ValidWord, Tokens, Solid;
    var s5 := Step(s4, Lock(THIRD)).store;
    var s6 := Step(s5, Write(SECOND, 1, "y")).store;
    var s7 := Step(s6, Write(THIRD, 1, "z")).store;
    var s8 := Step(s7, Unlock(SECOND)).store;
    var slot := Slot(2, 0, x4.doc[2], x4.doc[2]);
    var x5 := x4.(open := x4.open[THIRD := slot]);
    var x6 := x5.(open := x5.open[SECOND := slot.(region := y)]);
    var x7 := x6.(open := x6.open[THIRD := slot.(region := z)]);
    var x8 := Desk([x4.doc[0], x4.doc[1], y, x4.doc[3]], map[THIRD := slot.(region := z)]);
    assert Put(x7, SECOND, false) == x8;
    var x9 := Desk([x4.doc[0], x4.doc[1], z, x4.doc[3]], map[]);
    assert Put(x8, THIRD, false) == x9;
    EndOfRun(x9, Step(s8, Unlock(THIRD)).store, 3);
    UnlockNext(x8, s8, 3, THIRD, [], x9.doc);
    var r8: seq<Request> := [Unlock(THIRD)] + [];
    UnlockNext(x7, s7, 3, SECOND, r8, x9.doc);
    var r7 := [Unlock(SECOND)] + r8;
    WriteNext(x6, s6, 3, THIRD, 1, "z", r7, x9.doc);
    var r6 := [Write(THIRD, 1, "z")] + r7;
    WriteNext(x5, s5, 3, SECOND, 1, "y", r6, x9.doc);
    LockNext(x4, s4, 2, THIRD, [Write(SECOND, 1, "y")] + r6, x9.doc);
  }

  /** Open text: "c" written behind the closing delimiter of the first sentence of "a.b." is lost. */
  lemma OpenTextIsLost()
    ensures var ops := [WriteOp(3, "c")];
      var file := ApplyCommit(Some("a.b."), 0, 2, Some(WriteAll("a.b.", 0, ops)));
      && EditAll(["a", "."], ops) == ["a", ".", "c"]
      && file.Some? && Solid(Tokens(file.value)) == ["a", ".", "b", "."]
  {
    hide ApplyCommit, WriteAll, Parse, Tokens, Solid, EditAll, Before, After, Head, Kept;
    ParseTwo('a', 'b');
    SessionRefinesSplices("a.b.", 0, [WriteOp(3, "c")]);
    LettersAreSolid();
    WrittenBehind([WriteOp(3, "c")]);
    CutLetters();
  }

  lemma CutLetters()
    ensures var l := ["a", ".", "b", "."];
      && Before(l, 0) == [] && Head(After(l, 0)) == ["a", "."] && After(l, 1) == ["b", "."]
      && Kept(["a", ".", "c"], false) == ["a", "."]
      && [] + ["a", "."] + ["b", "."] == l
  {
    var l := ["a", ".", "b", "."];
    DotTokens('a');
    DotTokens('c');
    assert l[1..] == [".", "b", "."] && l[..2] == ["a", "."] && l[2..] == ["b", "."];
    assert HeadLength(l[1..]) == 1 && HeadLength(l) == 2;
    assert After(l, 1) == After(Tail(l), 0);
    LastDelimiterUnique(["a", ".", "c"], 2);
    assert ["a", ".", "c"][..2] == ["a", "."];
  }

  lemma OneLetter()
    ensures Solid(Tokens("c")) == ["c"]
  {
    DotTokens('c');
    var n, t, rest := FirstToken("c");
    assert "c"[n..] == "" && t == "c";
    assert ["c"][1..] == [];
  }

  lemma LettersAreSolid()
    ensures Solid(["a", ".", "b", "."]) == ["a", ".", "b", "."]
  {
    var l := ["a", ".", "b", "."];
    DotTokens('a');
    DotTokens('b');
    assert l[1..] == [".", "b", "."] && l[1..][1..] == ["b", "."] && l[1..][1..][1..] == ["."];
    assert ["."][1..] == [];
    assert Solid(["."]) == ["."] && Solid(["b", "."]) == ["b", "."] && Solid([".", "b", "."]) == [".", "b", "."];
  }

  lemma WrittenBehind(ops: seq<WriteOp>)
    requires ops == [WriteOp(3, "c")]
    ensures EditAll(["a", "."], ops) == ["a", ".", "c"]
  {
    hide Tokens;
    var r := ["a", "."];
    DotTokens('a');
    OneLetter();
    assert r[1..] == ["."] && ["."][1..] == [];
    assert HeadLength(["."]) == 1 && HeadLength(r) == 2 && Head(r) == r;
    assert RealWords(["."]) == 1 && RealWords(r) == 2;
    assert WordPos(r, 3) == 2;
    assert r[..2] + ["c"] + r[2..] == ["a", ".", "c"];
    assert ops[1..] == [];
    assert EditAll(r, ops) == EditAll(SpliceHead(r, 3, ["c"]), ops[1..]);
  }

  const K := Key("f", "u", 0)

  /** A two-sentence file with a three-sentence checkpoint. */
  const BEFORE_REVERT := EMPTY.(files := map["f" := "a.b."], checkpoints := map[("f", "t") := "c.d.e."])

  /** REVERT between LOCK and UNLOCK: with no commit in between and nothing written, the first
      sentence of the old version lands on the second of the new one. */
  lemma RevertMisplaces()
    ensures Inv(BEFORE_REVERT) && Step(BEFORE_REVERT, Lock(K)).status == SUCCESS
    ensures var s := Run(Step(BEFORE_REVERT, Lock(K)).store, [Revert("f", "t")]);
      && Lookup(s.files, "f") == Some("c.d.e.")
      && Lookup(Step(s, Unlock(K)).store.files, "f") == Some("c. a. e.")
  {
    hide Parse, Print, Step, Run, Inv, WriteAll, Replace, Replacement, Slice;
    ParseTwo('a', 'b');
    FreshInv();
    LockGranted(BEFORE_REVERT, K);
    PlacedSecond();
    RevertLands(BEFORE_REVERT, "a.b.", "c.d.e.");
  }

  lemma RevertLands(s0: Store, v: string, w: string)
    requires Inv(s0) && Step(s0, Lock(K)).status == SUCCESS && s0.queues == map[]
    requires Lookup(s0.files, "f") == Some(v) && Lookup(s0.checkpoints, ("f", "t")) == Some(w)
    requires |Parse(v)| == 2 && |Parse(w)| == 3
    ensures var s := Run(Step(s0, Lock(K)).store, [Revert("f", "t")]);
      && Lookup(s.files, "f") == Some(w) && EditOk(Parse(v), Edit(0, v))
      && Lookup(Step(s, Unlock(K)).store.files, "f")
         == Some(Print(Replace(Parse(w), 1, Replacement(Parse(v), Edit(0, v)))))
  {
    hide Parse, Print, Step, Run, Inv, WriteAll, Replace, Replacement, Slice, OpsOf;
    var s1 := Step(s0, Lock(K)).store;
    StepKeepsInv(s0, Lock(K));
    StepKeepsCheckpoints(s0, Lock(K), ("f", "t"));
    OnlyRevert(s1);
    LockKeepsQueues(s0);
    LockedEditShifts(s0, K, [Revert("f", "t")]);
    NothingWritten(v);
  }

  lemma FreshInv()
    ensures Inv(BEFORE_REVERT)
    ensures !HasSession(BEFORE_REVERT, K) && forall u :: !HeldBy(BEFORE_REVERT, "f", 0, u)
  {}

  lemma OnlyRevert(s: Store)
    requires Inv(s) && ("f", "t") in s.checkpoints
    ensures var s' := Run(s, [Revert("f", "t")]);
      "f" in s'.files && s'.files["f"] == s.checkpoints[("f", "t")] && s'.queues == s.queues
  {
    hide Inv;
    assert [Revert("f", "t")][1..] == [];
    BackupFrame(s, "f");
    assert Run(s, [Revert("f", "t")]) == Run(Step(s, Revert("f", "t")).store, []);
  }

  lemma LockKeepsQueues(s: Store)
    ensures Step(s, Lock(K)).store.queues == s.queues
  {
    hide Sentences, FindSession, GrownLocks;
    LockEffect(s, "f", 0, "u");
    var l := LockSentence(s, "f", 0, "u").store;
    StartFrame(l, K);
    UnlockEffect(l, "f", 0, "u");
  }

  lemma NothingWritten(v: string)
    ensures WriteAll(v, 0, OpsOf([Revert("f", "t")], K)) == v
  {
    assert [Revert("f", "t")][1..] == [];
  }

  lemma PlacedSecond()
    ensures var ss, e := Parse("a.b."), Edit(0, "a.b.");
      && EditOk(ss, e) && |Parse("c.d.e.")| == 3 && |ss| == 2
      && Print(Replace(Parse("c.d.e."), 1, Replacement(ss, e))) == "c. a. e."
  {
    hide Print, Parse, Replace, Replacement, EditOk;
    ParseTwo('a', 'b');
    ParseThree('c', 'd', 'e');
    PrintThree('c', 'a', 'e');
    Placed(Parse("a.b."), Parse("c.d.e."), Edit(0, "a.b."));
  }

  lemma Placed(ss: seq<Sentence>, main: seq<Sentence>, e: Edit)
    requires ss == [Dot('a'), Dot('b')] == Parse(e.temp) && e.idx == 0 && main == [Dot('c'), Dot('d'), Dot('e')]
    ensures EditOk(ss, e) && Replace(main, 1, Replacement(ss, e)) == [Dot('c'), Dot('a'), Dot('e')]
  {
    hide Parse;
    assert Replacement(ss, e) == [Dot('a')];
  }
}
