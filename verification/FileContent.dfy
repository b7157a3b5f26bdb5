/** `file_ops.c` as it is written: scanners with word buffers, and a sentence array edited in
    place.  Each method is proved against the functions of Text, Printer and Insertion. */
module FileContents {
  import opened Wrappers
  import opened Text
  import opened Printer
  import opened Insertion

  /* ---- Lexical steps of the loops ---- */

  /** The characters collected for a word so far. */
  predicate WordBuffer(word: string) {
    |word| < MAX_WORD && forall k | 0 <= k < |word| :: ClassOf(word[k]) == Letter
  }

  lemma {:induction false} SpanIs(s: string, k: CharClass, n: nat)
    requires n <= |s| && (forall i | 0 <= i < n :: ClassOf(s[i]) == k)
    requires n == |s| || ClassOf(s[n]) != k
    ensures Span(s, k) == n
  {
    SpanAtLeast(s, k, n);
  }

  /** A word ends where something else begins. */
  lemma FlushWord(word: string, rest: string)
    requires WordBuffer(word) && word != ""
    requires rest == "" || ClassOf(rest[0]) != Letter
    ensures Tokens(word + rest) == [word] + Tokens(rest) && IsWordToken(word) && !IsDelimiterToken(word)
  {
    TokenKinds(word);
    ReadFirst(word, rest);
  }

  /** A word that fills the buffer ends there. */
  lemma FullWord(word: string, rest: string)
    requires WordBuffer(word) && |word| == MAX_WORD - 1
    ensures Tokens(word + rest) == [word] + Tokens(rest) && !IsDelimiterToken(word)
  {
    TokenKinds(word);
    SpanAtLeast(word + rest, Letter, |word|);
    var n, t, more := FirstToken(word + rest);
    assert (word + rest)[..n] == word && (word + rest)[n..] == rest;
  }

  lemma SingleToken(c: char, rest: string)
    requires ClassOf(c) == Newline || ClassOf(c) == Delimiter
    ensures Tokens([c] + rest) == [[c]] + Tokens(rest)
    ensures IsDelimiterToken([c]) <==> ClassOf(c) == Delimiter
  {
    TokenKinds([c]);
    ReadFirst([c], rest);
  }

  /** Read a run of spaces starting at `start`; keep what fits the token buffer. */
  method CollectSpaces(text: string, start: nat) returns (token: Token, next: nat)
    requires start < |text| && ClassOf(text[start]) == Space
    ensures start < next <= |text|
    ensures Tokens(text[start..]) == [token] + Tokens(text[next..])
    ensures IsSpaceToken(token)
  {
    token, next := [text[start]], start + 1;
    while next < |text| && ClassOf(text[next]) == Space
      invariant start < next <= |text|
      invariant forall k | start <= k < next :: ClassOf(text[k]) == Space
      invariant token == text[start..start + Min(next - start, MAX_WORD - 1)]
    {
      if |token| < MAX_WORD - 1 {
        token := token + [text[next]];
      }
      next := next + 1;
    }
    SpacesToken(text, start, next);
  }

  lemma SpacesToken(text: string, start: nat, next: nat)
    requires start < next <= |text| && (next < |text| ==> ClassOf(text[next]) != Space)
    requires forall k | start <= k < next :: ClassOf(text[k]) == Space
    ensures var token := text[start..start + Min(next - start, MAX_WORD - 1)];
      Tokens(text[start..]) == [token] + Tokens(text[next..]) && IsSpaceToken(token)
  {
    var s := text[start..];
    SpanIs(s, Space, next - start);
    var n, t, rest := FirstToken(s);
    assert s[n..] == text[next..];
    assert s[..Min(n, MAX_WORD - 1)] == text[start..start + Min(next - start, MAX_WORD - 1)];
  }

  lemma WordFits(content: string, start: nat, end: nat)
    requires start < end <= |content| && RunsFit(content, Letter)
    requires forall k | start <= k < end :: ClassOf(content[k]) == Letter
    ensures end - start < MAX_WORD
  {
    SpanAtLeast(content[start..], Letter, end - start);
  }

  /** What is left to be read completes the parts found so far to `goal`. */
  predicate Splitting(goal: seq<Token>, parts: seq<Token>, word: string, rest: string) {
    WordBuffer(word) && goal == parts + Tokens(word + rest)
  }

  lemma SplitLetter(goal: seq<Token>, parts: seq<Token>, word: string, c: char, rest: string)
    requires Splitting(goal, parts, word, [c] + rest) && ClassOf(c) == Letter && |word| + 1 < MAX_WORD
    ensures Splitting(goal, parts, word + [c], rest)
  {
    assert word + ([c] + rest) == (word + [c]) + rest;
  }

  lemma SplitWord(goal: seq<Token>, parts: seq<Token>, word: string, rest: string)
    requires Splitting(goal, parts, word, rest)
    requires rest == "" || ClassOf(rest[0]) != Letter
    ensures Splitting(goal, if word == "" then parts else parts + [word], "", rest)
  {
    hide Tokens;
    assert "" + rest == rest;
    if word != "" {
      FlushWord(word, rest);
      Shift(parts, word, Tokens(rest));
    }
  }

  lemma SplitToken(goal: seq<Token>, parts: seq<Token>, t: Token, rest: string, left: string)
    requires Splitting(goal, parts, "", rest) && Tokens(rest) == [t] + Tokens(left)
    ensures Splitting(goal, parts + [t], "", left)
  {
    hide Tokens;
    assert "" + rest == rest && "" + left == left;
    Shift(parts, t, Tokens(left));
  }

  lemma SplitEnds(content: string, parts: seq<Token>)
    ensures content[0..] == content && Splitting(Tokens(content), [], "", content)
    ensures Splitting(Tokens(content), parts, "", "") ==> parts == Tokens(content)
  {
    NoTokens();
    assert "" + content == content && [] + Tokens(content) == Tokens(content);
  }

  /** `split_by_delimiters`: the tokens of a WRITE's content.  The word buffer is not bounded in
      the source, so a caller must keep words below its size. */
  method SplitByDelimiters(content: string) returns (parts: seq<Token>)
    requires RunsFit(content, Letter)
    ensures parts == Tokens(content)
  {
    hide Tokens, Splitting, RunsFit;
    parts := [];
    var word, i := "", 0;
    SplitEnds(content, parts);
    while i < |content|
      invariant i <= |content| && |word| <= i && word == content[i - |word|..i]
      invariant forall k | i - |word| <= k < i :: ClassOf(content[k]) == Letter
      invariant Splitting(Tokens(content), parts, word, content[i..])
    {
      var c := content[i];
      assert content[i..] == [c] + content[i + 1..];
      if ClassOf(c) == Letter {
        WordFits(content, i - |word|, i + 1);
        SplitLetter(Tokens(content), parts, word, c, content[i + 1..]);
        word, i := word + [c], i + 1;
      } else {
        SplitWord(Tokens(content), parts, word, content[i..]);
        if word != "" {
          parts, word := parts + [word], "";
        }
        if ClassOf(c) == Space {
          var token, next := CollectSpaces(content, i);
          SplitToken(Tokens(content), parts, token, content[i..], content[next..]);
          parts, i := parts + [token], next;
        } else {
          SingleToken(c, content[i + 1..]);
          SplitToken(Tokens(content), parts, [c], content[i..], content[i + 1..]);
          parts, i := parts + [[c]], i + 1;
        }
      }
    }
    SplitWord(Tokens(content), parts, word, content[i..]);
    if word != "" {
      parts := parts + [word];
    }
    SplitEnds(content, parts);
  }

  lemma Shift(done: seq<Token>, t: Token, rest: seq<Token>)
    ensures done + ([t] + rest) == (done + [t]) + rest
  {}

  /* ---- Word statistics ---- */

  /** The number of maximal runs of word characters. */
  function WordRuns(s: string): nat
    decreases |s|
  {
    if s == "" then 0
    else if ClassOf(s[0]) == Letter then 1 + WordRuns(s[Span(s, Letter)..])
    else WordRuns(s[1..])
  }

  /** `get_file_stats` */
  method GetFileStats(text: string) returns (wordCount: nat, charCount: nat)
    ensures charCount == |text|
    ensures wordCount == WordRuns(text)
  {
    wordCount, charCount := 0, 0;
    var inWord := false;
    assert text[0..] == text;
    for i := 0 to |text|
      invariant charCount == i
      invariant WordRuns(text) == wordCount +
        if inWord then 1 + WordRuns(text[i..][Span(text[i..], Letter)..]) else WordRuns(text[i..])
    {
      ghost var s := text[i..];
      assert s[1..] == text[i + 1..];
      charCount := charCount + 1;
      var c := text[i];
      if ClassOf(c) != Letter {
        assert s[0..] == s;
        if inWord {
          wordCount := wordCount + 1;
          inWord := false;
        }
      } else {
        assert s[Span(s, Letter)..] == s[1..][Span(s[1..], Letter)..];
        inWord := true;
      }
    }
    assert text[|text|..] == "";
    if inWord {
      wordCount := wordCount + 1;
    }
  }

  function WordTokens(ts: seq<Token>): nat {
    if ts == [] then 0 else (if IsWordToken(ts[0]) then 1 else 0) + WordTokens(ts[1..])
  }

  /** The three scanners agree: with words that fit a token, the statistics count exactly the
      word tokens of the parsed file. */
  lemma {:induction false} StatsCountWords(s: string)
    requires RunsFit(s, Letter)
    ensures WordRuns(s) == WordTokens(Flatten(Parse(s)))
    decreases |s|
  {
    FlattenGroup(Tokens(s));
    RunsAreWords(s);
  }

  lemma {:induction false} RunsAreWords(s: string)
    requires RunsFit(s, Letter)
    ensures WordRuns(s) == WordTokens(Tokens(s))
    decreases |s|
  {
    if s == "" {
    } else {
      var n, t, rest := FirstToken(s);
      assert s[0..] == s;
      RunsFitSuffix(s, Letter, n);
      RunsAreWords(s[n..]);
      TokensAreOk(s);
      TokenKinds(t);
      assert t[0] == s[0];
      if ClassOf(s[0]) == Space { SkipSpaces(s, n); }
    }
  }

  lemma {:induction false} SkipSpaces(s: string, n: nat)
    requires n <= |s| && forall i | 0 <= i < n :: ClassOf(s[i]) == Space
    ensures WordRuns(s) == WordRuns(s[n..])
    decreases n
  {
    if n > 0 {
      SkipSpaces(s[1..], n - 1);
      assert s[1..][n - 1..] == s[n..];
    } else {
      assert s[0..] == s;
    }
  }

  lemma CloseSentence(cur: Sentence, t: Token, rest: seq<Token>)
    requires IsDelimiterToken(t) && forall i | 0 <= i < |cur| :: !IsDelimiterToken(cur[i])
    ensures Group(cur + ([t] + rest)) == [cur + [t]] + Group(rest)
  {
    var h := cur + [t];
    Shift(cur, t, rest);
    GroupHead(h, rest);
  }

  lemma NoGroups()
    ensures Group([]) == []
  {}

  lemma GroupHead(h: Sentence, rest: seq<Token>)
    requires h != [] && forall i | 0 <= i < |h| - 1 :: !IsDelimiterToken(h[i])
    requires EndsWithDelimiter(h) || rest == []
    ensures Group(h + rest) == [h] + Group(rest)
  {
    HeadOf(h, rest);
    assert Head(h + rest) == h && Tail(h + rest) == rest;
  }

  /* ---- Invariant of the parser's main loop ---- */

  /** What is still to be read completes the sentences read so far to `goal`. */
  predicate Scanning(goal: seq<Sentence>, ss: seq<Sentence>, current: nat, word: string, rest: string) {
    && |ss| == current + 1
    && WordBuffer(word)
    && (forall k | 0 <= k < |ss[current]| :: !IsDelimiterToken(ss[current][k]))
    && goal == ss[..current] + Group(ss[current] + Tokens(word + rest))
  }

  lemma ScanStart(text: string)
    ensures Scanning(Parse(text), [[]], 0, "", text)
  {
    assert "" + text == text;
    assert [] + Tokens(text) == Tokens(text);
    assert [] + Group(Tokens(text)) == Group(Tokens(text));
  }

  lemma ScanLetter(goal: seq<Sentence>, ss: seq<Sentence>, current: nat, word: string, c: char, rest: string)
    requires Scanning(goal, ss, current, word, [c] + rest)
    requires ClassOf(c) == Letter && |word| < MAX_WORD - 1
    ensures Scanning(goal, ss, current, word + [c], rest)
  {
    assert word + ([c] + rest) == (word + [c]) + rest;
  }

  /** Move the first token of what is left to the current sentence. */
  lemma ScanToken(goal: seq<Sentence>, ss: seq<Sentence>, current: nat, word: string, rest: string, t: Token, left: string)
    requires Scanning(goal, ss, current, word, rest)
    requires Tokens(word + rest) == [t] + Tokens(left) && !IsDelimiterToken(t)
    ensures Scanning(goal, ss[current := ss[current] + [t]], current, "", left)
  {
    assert "" + left == left;
    Shift(ss[current], t, Tokens(left));
    assert ss[current := ss[current] + [t]][..current] == ss[..current];
  }

  lemma ScanFull(goal: seq<Sentence>, ss: seq<Sentence>, current: nat, word: string, rest: string)
    requires Scanning(goal, ss, current, word, rest) && |word| == MAX_WORD - 1
    ensures Scanning(goal, ss[current := ss[current] + [word]], current, "", rest)
  {
    FullWord(word, rest);
    ScanToken(goal, ss, current, word, rest, word, rest);
  }

  lemma ScanWord(goal: seq<Sentence>, ss: seq<Sentence>, current: nat, word: string, rest: string)
    requires Scanning(goal, ss, current, word, rest) && word != ""
    requires rest == "" || ClassOf(rest[0]) != Letter
    ensures Scanning(goal, ss[current := ss[current] + [word]], current, "", rest)
  {
    FlushWord(word, rest);
    ScanToken(goal, ss, current, word, rest, word, rest);
  }

  lemma ScanBlank(goal: seq<Sentence>, ss: seq<Sentence>, current: nat, t: Token, rest: string, left: string)
    requires Scanning(goal, ss, current, "", rest)
    requires Tokens(rest) == [t] + Tokens(left) && !IsDelimiterToken(t)
    ensures Scanning(goal, ss[current := ss[current] + [t]], current, "", left)
  {
    assert "" + rest == rest;
    ScanToken(goal, ss, current, "", rest, t, left);
  }

  lemma ScanDelimiter(goal: seq<Sentence>, ss: seq<Sentence>, current: nat, t: Token, rest: string, left: string)
    requires Scanning(goal, ss, current, "", rest)
    requires Tokens(rest) == [t] + Tokens(left) && IsDelimiterToken(t)
    ensures Scanning(goal, ss[current := ss[current] + [t]] + [[]], current + 1, "", left)
  {
    hide Tokens, Group;
    assert "" + rest == rest && "" + left == left;
    CloseSentence(ss[current], t, Tokens(left));
    var ss' := ss[current := ss[current] + [t]] + [[]];
    assert ss'[..current + 1] == ss[..current] + [ss[current] + [t]];
    assert ss'[current + 1] + Tokens(left) == Tokens(left);
  }

  lemma ScanEnd(goal: seq<Sentence>, ss: seq<Sentence>, current: nat, word: string, rest: string)
    requires Scanning(goal, ss, current, word, rest) && rest == ""
    ensures |ss| == current + 1
    ensures var cur := if word != "" then ss[current] + [word] else ss[current];
      goal == ss[..current] + if cur == [] then [] else [cur]
  {
    hide Tokens, Group;
    NoTokens();
    NoGroups();
    var cur := if word != "" then ss[current] + [word] else ss[current];
    assert cur + [] == cur;
    if word != "" {
      ScanWord(goal, ss, current, word, rest);
      assert "" + rest == "";
      assert ss[current := cur][..current] == ss[..current];
    } else {
      assert word + rest == "";
    }
    if cur != [] { GroupHead(cur, []); }
  }

  class FileContent {
    /** The sentence slots; those from `sentenceCount` on are allocated but not counted. */
    var sentences: seq<Sentence>
    var sentenceCount: nat

    predicate Valid()
      reads this
    {
      sentenceCount <= |sentences|
    }

    function Contents(): seq<Sentence>
      requires Valid()
      reads this
    {
      sentences[..sentenceCount]
    }

    constructor ()
      ensures Valid() && Contents() == []
    {
      sentences, sentenceCount := [], 0;
    }

    /** Append a token to the sentence being read. */
    method AddToken(current: nat, t: Token)
      requires current < |sentences|
      modifies this`sentences
      ensures sentences == old(sentences)[current := old(sentences[current]) + [t]]
    {
      sentences := sentences[current := sentences[current] + [t]];
    }

    /** Append a delimiter and start the next sentence. */
    method EndSentence(current: nat, t: Token)
      requires |sentences| == current + 1
      modifies this
      ensures sentences == old(sentences)[current := old(sentences[current]) + [t]] + [[]]
      ensures sentenceCount == current + 2
    {
      AddToken(current, t);
      sentenceCount := current + 2;
      sentences := sentences + [[]];
    }

    /** `parse_file` */
    method ParseFile(file: Option<string>) returns (status: int)
      requires Valid()
      modifies this
      ensures Valid()
      ensures status == if file.Some? then 0 else -1
      ensures Contents() == if file.Some? then Parse(file.value) else old(Contents())
    {
      hide Scanning, Parse, Tokens, Group, Span;
      if file.None? {
        return -1;
      }
      var text := file.value;
      sentences, sentenceCount := [[]], 0;
      var current, word, i := 0, "", 0;
      ScanStart(text);
      assert text[0..] == text;
      while i < |text|
        invariant i <= |text|
        invariant |sentences| == current + 1 && sentenceCount == if current == 0 then 0 else current + 1
        invariant |word| < MAX_WORD - 1 && Scanning(Parse(text), sentences, current, word, text[i..])
      {
        var c := text[i];
        assert text[i..] == [c] + text[i + 1..];
        if ClassOf(c) == Letter {
          ScanLetter(Parse(text), sentences, current, word, c, text[i + 1..]);
          word, i := word + [c], i + 1;
          if |word| >= MAX_WORD - 1 {
            ScanFull(Parse(text), sentences, current, word, text[i..]);
            AddToken(current, word);
            word := "";
          }
        } else {
          if word != "" {
            ScanWord(Parse(text), sentences, current, word, text[i..]);
            AddToken(current, word);
            word := "";
          }
          if ClassOf(c) == Space {
            var token, next := CollectSpaces(text, i);
            ScanBlank(Parse(text), sentences, current, token, text[i..], text[next..]);
            i := next;
            AddToken(current, token);
          } else if ClassOf(c) == Newline {
            SingleToken(c, text[i + 1..]);
            ScanBlank(Parse(text), sentences, current, [c], text[i..], text[i + 1..]);
            i := i + 1;
            AddToken(current, [c]);
          } else {
            SingleToken(c, text[i + 1..]);
            ScanDelimiter(Parse(text), sentences, current, [c], text[i..], text[i + 1..]);
            i := i + 1;
            EndSentence(current, [c]);
            current := current + 1;
          }
        }
      }
      ScanEnd(Parse(text), sentences, current, word, text[i..]);
      if word != "" {
        AddToken(current, word);
      }
      TrimLast(current);
      return 0;
    }

    /** Drop the sentence after the last delimiter when it is empty, and count it otherwise. */
    method TrimLast(current: nat)
      requires |sentences| == current + 1 && sentenceCount == if current == 0 then 0 else current + 1
      modifies this`sentenceCount
      ensures Valid()
      ensures Contents() == sentences[..current] + if sentences[current] == [] then [] else [sentences[current]]
    {
      if sentenceCount > 0 && sentences[sentenceCount - 1] == [] {
        sentenceCount := sentenceCount - 1;
      }
      if sentences[current] != [] {
        sentenceCount := current + 1;
      }
    }

    /** `write_file_content` */
    method WriteFileContent() returns (text: string)
      requires Valid()
      ensures text == Print(Contents())
    {
      hide Print, Concat, Expand, Inner, SentenceGap;
      text := "";
      ghost var ss := Contents();
      assert ss[0..] == ss;
      PrintIs(ss);
      var i := 0;
      while i < sentenceCount
        invariant i <= sentenceCount
        invariant text + Concat(Expand(ss[i..])) == Print(ss)
      {
        var s := sentences[i];
        PrintStep(ss, i);
        text := WriteSentence(text, s);
        var space := SpaceAfter(i);
        text := text + space;
        i := i + 1;
      }
      PrintStep(ss, i);
    }

    static lemma PrintIs(ss: seq<Sentence>)
      ensures Print(ss) == Concat(Expand(ss))
    {}

    /** The space the printer puts between sentence `i` and the next. */
    method SpaceAfter(i: nat) returns (space: string)
      requires Valid() && i < sentenceCount
      ensures space == Concat(SentenceGap(sentences[i], Contents()[i + 1..]))
    {
      hide IsSpaceToken, IsNewlineToken, Concat;
      ghost var rest := Contents()[i + 1..];
      space := "";
      if i < sentenceCount - 1 && sentences[i] != [] {
        var last := sentences[i][|sentences[i]| - 1];
        if !IsNewlineToken(last) && !IsSpaceToken(last) {
          assert rest[0] == sentences[i + 1];
          if sentences[i + 1] != [] {
            var first := sentences[i + 1][0];
            if !IsSpaceToken(first) && !IsNewlineToken(first) {
              space := " ";
            }
          } else {
            space := " ";
          }
        }
      }
      GapText(SentenceGap(sentences[i], rest), space);
    }

    /** One sentence off the front of what remains to be printed. */
    static lemma PrintStep(ss: seq<Sentence>, i: nat)
      requires i <= |ss|
      ensures i == |ss| ==> Concat(Expand(ss[i..])) == ""
      ensures i < |ss| ==>
        Concat(Expand(ss[i..])) == Concat(Inner(ss[i])) + Concat(SentenceGap(ss[i], ss[i + 1..])) + Concat(Expand(ss[i + 1..]))
    {
      if i < |ss| {
        var r := ss[i..];
        assert r[0] == ss[i] && r[1..] == ss[i + 1..];
        var a, g, e := Inner(ss[i]), SentenceGap(ss[i], ss[i + 1..]), Expand(ss[i + 1..]);
        assert Expand(r) == a + g + e;
        ConcatAppend(a + g, e);
        ConcatAppend(a, g);
      }
    }

    static lemma GapText(gap: seq<Token>, space: string)
      requires gap == if space == "" then [] else [" "]
      requires space == "" || space == " "
      ensures Concat(gap) == space
    {
      if gap != [] { OneSpace(); }
    }

    static lemma OneSpace()
      ensures Concat([" "]) == " "
    {
      assert [" "][1..] == [];
    }

    /** The words of one sentence, with a space between two regular words. */
    static method WriteSentence(start: string, s: Sentence) returns (text: string)
      ensures text == start + Concat(Inner(s))
    {
      hide Concat, Inner, WordGap, IsSpaceToken, IsNewlineToken, IsDelimiterToken;
      text := start;
      var j := 0;
      assert s[0..] == s;
      while j < |s|
        invariant j <= |s|
        invariant text + Concat(Inner(s[j..])) == start + Concat(Inner(s))
      {
        WordStep(s, j);
        text := text + s[j];
        if j < |s| - 1 {
          var cur, next := s[j], s[j + 1];
          if !(IsSpaceToken(cur) || IsSpaceToken(next) || IsNewlineToken(cur) || IsNewlineToken(next))
            && !(IsDelimiterToken(cur) || IsDelimiterToken(next)) {
            text := text + " ";
          }
        }
        j := j + 1;
      }
      WordStep(s, j);
    }

    /** One word off the front of what remains of a sentence. */
    static lemma WordStep(s: Sentence, j: nat)
      requires j <= |s|
      ensures j == |s| ==> Concat(Inner(s[j..])) == ""
      ensures j + 1 == |s| ==> Concat(Inner(s[j..])) == s[j] && Concat(Inner(s[j + 1..])) == ""
      ensures j + 1 < |s| ==>
        Concat(Inner(s[j..]))
        == s[j] + (if IsWordToken(s[j]) && IsWordToken(s[j + 1]) then " " else "") + Concat(Inner(s[j + 1..]))
    {
      hide IsWordToken;
      var r := s[j..];
      if j + 1 < |s| {
        assert r[0] == s[j] && r[1] == s[j + 1] && r[1..] == s[j + 1..];
        var g := WordGap(s[j], s[j + 1]);
        InnerStep(r);
        ConcatAppend([s[j]] + g, Inner(r[1..]));
        ConcatAppend([s[j]], g);
        assert [s[j]][1..] == [];
        OneSpace();
      } else if j < |s| {
        assert r == [s[j]] && r[1..] == [] && s[j + 1..] == [];
      }
    }

    /** `insert_word_in_sentence`.  A rejected call may still have appended the empty sentence
        it was to write to. */
    method InsertWordInSentence(idx: int, w: int, content: string) returns (created: int)
      requires Valid() && RunsFit(content, Letter)
      modifies this
      ensures Valid()
      ensures var r := Insert(old(Contents()), idx, w, content);
        && (r.Invalid? ==> created == -1)
        && (r.Inserted? ==> created == r.created && Contents() == r.sentences)
      ensures created == -1 ==>
        Contents() == if 0 <= idx <= |old(Contents())|
                      then Slots(old(Contents()), idx)[..Counted(old(Contents()), idx)]
                      else old(Contents())
    {
      hide Tokens, WordPos, Spliced, Splits, RunsFit;
      if idx < 0 || idx > sentenceCount {
        return -1;
      }
      ghost var ss := Contents();
      if idx == sentenceCount {
        AppendSlot();
      }
      ghost var slots := Slots(ss, idx);
      assert sentences[..|slots|] == slots;
      var sent := sentences[idx];
      var actual := FindPosition(sent, w);
      if actual < 0 {
        return -1;
      }
      var parts := SplitByDelimiters(content);
      if |parts| == 0 {
        assert sentences[..sentenceCount] == slots[..sentenceCount];
        return 0;
      }
      created := InsertParts(idx, actual, parts, slots);
    }

    /** Add an empty sentence behind the counted ones.  It is counted, unless the file was one
        empty sentence. */
    method AppendSlot()
      requires Valid()
      modifies this
      ensures Valid() && |sentences| == old(sentenceCount) + 1
      ensures sentences[..old(sentenceCount) + 1] == Slots(old(Contents()), old(sentenceCount))
      ensures sentenceCount == Counted(old(Contents()), old(sentenceCount))
    {
      sentences := sentences[..sentenceCount] + [[]];
      if !(sentenceCount == 1 && sentences[0] == []) {
        sentenceCount := sentenceCount + 1;
      }
    }

    /** The token index for a 1-based word position, or -1 when there is no such word. */
    static method FindPosition(s: Sentence, w: int) returns (actual: int)
      ensures if ValidWord(s, w) then actual == WordPos(s, w) else actual == -1
    {
      var words, i := 0, 0;
      assert s[0..] == s;
      while i < |s|
        invariant i <= |s| && words + RealWords(s[i..]) == RealWords(s)
      {
        assert s[i..][0] == s[i] && s[i..][1..] == s[i + 1..];
        if !IsBlankToken(s[i]) {
          words := words + 1;
        }
        i := i + 1;
      }
      assert s[i..] == [];
      if w < 1 || w > words + 1 {
        return -1;
      }
      actual := 0;
      if w > 1 {
        var seen := 0;
        i := 0;
        while i < |s|
          invariant i <= |s| && 0 <= seen <= w - 1
          invariant seen + RealWords(s[i..]) == words
          invariant seen < w - 1 <= words ==> i + PastWord(s[i..], w - 1 - seen) == PastWord(s, w - 1)
          invariant seen < w - 1 && actual == 0
        {
          ghost var r := s[i..];
          assert r[0] == s[i] && r[1..] == s[i + 1..];
          if !IsBlankToken(s[i]) {
            seen := seen + 1;
            if seen == w - 1 {
              actual := i + 1;
              break;
            }
          }
          i := i + 1;
        }
        EndOfWords(s, i);
        if seen == words && w == words + 1 {
          actual := |s|;
        }
      }
    }

    static lemma EndOfWords(s: Sentence, i: nat)
      ensures i == |s| ==> RealWords(s[i..]) == 0
    {}

    /** Move the sentences behind `idx` down by `n` slots and clear the slots in between. */
    method MakeRoom(idx: nat, n: nat)
      requires Valid() && idx < |sentences| && sentenceCount <= idx + |sentences|
      requires sentenceCount > idx || |sentences| == idx + 1
      modifies this`sentences
      ensures Opened(old(sentences), sentenceCount, idx, n, sentences)
    {
      sentences := sentences + Empties(n);
      var i: int := sentenceCount - 1;
      while i > idx
        invariant i < sentenceCount && |sentences| == old(|sentences|) + n
        invariant i >= idx || i == sentenceCount - 1
        invariant forall k | 0 <= k <= i && k < old(|sentences|) :: sentences[k] == old(sentences[k])
        invariant forall k | 0 <= k <= idx :: sentences[k] == old(sentences[k])
        invariant forall k | i < k < sentenceCount && idx < k :: sentences[k + n] == old(sentences[k])
      {
        sentences := sentences[i + n := sentences[i]];
        i := i - 1;
      }
      i := 1;
      while i <= n
        invariant 1 <= i <= n + 1 && |sentences| == old(|sentences|) + n
        invariant forall k | 0 <= k <= idx :: sentences[k] == old(sentences[k])
        invariant forall k | idx < k < sentenceCount :: sentences[k + n] == old(sentences[k])
        invariant forall k | idx < k < idx + i :: sentences[k] == []
      {
        sentences := sentences[idx + i := []];
        i := i + 1;
      }
    }

    /** Shift the words behind `at` up by one and put `part` in the gap. */
    static method InsertAt(words: seq<Token>, at: nat, part: Token) returns (r: seq<Token>)
      requires at <= |words|
      ensures r == words[..at] + [part] + words[at..]
    {
      r := words + [part];
      var j := |words|;
      while j > at
        invariant at <= j <= |words| && |r| == |words| + 1
        invariant r[..j] == words[..j] && r[j + 1..] == words[j..]
      {
        r := r[j := r[j - 1]];
        j := j - 1;
      }
      r := r[at := part];
    }

    /** The number of sentences the parts add, and the index of their last delimiter. */
    static method CountNew(parts: seq<Token>) returns (created: nat, last: int)
      ensures created == Created(parts) && last + 1 == LastDelimiterEnd(parts)
    {
      last := -1;
      for i := 0 to |parts|
        invariant -1 <= last < i && (last >= 0 ==> IsDelimiterToken(parts[last]))
        invariant forall k | last < k < i :: !IsDelimiterToken(parts[k])
      {
        if IsDelimiterToken(parts[i]) {
          last := i;
        }
      }
      LastDelimiterUnique(parts, last + 1);
      created := 0;
      if 0 <= last < |parts| - 1 {
        created := 1;
      }
      ghost var extra := created;
      assert parts[0..] == parts;
      for i := 0 to |parts|
        invariant created + DelimiterCount(parts[i..]) == extra + DelimiterCount(parts)
      {
        assert parts[i..][0] == parts[i] && parts[i..][1..] == parts[i + 1..];
        if IsDelimiterToken(parts[i]) {
          created := created + 1;
        }
      }
    }

    /** Insert the parts one after the other, moving on to the next sentence after the last
        delimiter when something follows it. */
    method InsertParts(idx: nat, at: nat, parts: seq<Token>, ghost slots: seq<Sentence>) returns (created: nat)
      requires Valid() && parts != []
      requires idx < |slots| <= |sentences| && sentences[..|slots|] == slots
      requires sentenceCount == |slots| || (sentenceCount == idx && |slots| == idx + 1 == |sentences|)
      requires at <= |slots[idx]|
      modifies this
      ensures Valid() && created == Created(parts)
      ensures sentenceCount == old(sentenceCount) + created
      ensures Contents() == (slots[..idx] + Spliced(slots[idx], at, parts) + slots[idx + 1..])[..sentenceCount]
    {
      hide Created, Splits, LastDelimiterEnd, Spliced, Opened, Filled;
      var last: int;
      created, last := CountNew(parts);
      SplitsCreate(parts);
      MakeRoom(idx, created);
      ghost var m := sentences;
      RoomMade(slots, idx, created, old(sentences), old(sentenceCount), m);
      PlaceParts(idx, at, parts, last);
      sentenceCount := sentenceCount + created;
      InsertedSlots(slots, idx, at, parts, old(sentences), old(sentenceCount), m, sentences);
    }

    /** The insertion loop: part by part, switching to the next slot after the part `last`. */
    method PlaceParts(idx: nat, at: nat, parts: seq<Token>, last: int)
      requires idx < |sentences| && at <= |sentences[idx]|
      requires last + 1 == LastDelimiterEnd(parts)
      requires Splits(parts) ==> idx + 1 < |sentences| && sentences[idx + 1] == []
      modifies this`sentences
      ensures Filled(old(sentences), idx, at, parts, sentences)
    {
      hide LastDelimiterEnd;
      ghost var s, n, m := sentences[idx], last + 1, sentences;
      var cur, pos, inNew := idx, at, false;
      assert s[..at] + parts[..0] + s[at..] == s;
      for i := 0 to |parts|
        invariant !inNew ==> (i < n || !Splits(parts)) && cur == idx && pos == at + i
        invariant !inNew ==> sentences == m[idx := s[..at] + parts[..i] + s[at..]]
        invariant inNew ==> Splits(parts) && n <= i && cur == idx + 1 && pos == i - n
        invariant inNew ==> sentences == m[idx := s[..at] + parts[..n]][idx + 1 := parts[n..i] + s[at..]]
      {
        var split := i == last && last < |parts| - 1;
        if inNew {
          MoreWords([], parts, n, i, s[at..]);
          assert [] + parts[n..i] == parts[n..i] && [] + parts[n..i + 1] == parts[n..i + 1];
        } else {
          MoreWords(s[..at], parts, 0, i, s[at..]);
        }
        var words := InsertAt(sentences[cur], pos, parts[i]);
        sentences, pos := sentences[cur := words], pos + 1;
        if !inNew && split {
          CutWords(s[..at] + parts[..n], s[at..]);
          assert parts[n..n] + s[at..] == s[at..];
          sentences := sentences[cur + 1 := sentences[cur][pos..]][cur := sentences[cur][..pos]];
          cur, pos, inNew := cur + 1, 0, true;
        }
      }
      assert parts[..|parts|] == parts && parts[n..|parts|] == parts[n..];
    }

    static lemma MoreWords(a: seq<Token>, parts: seq<Token>, n: nat, i: nat, b: seq<Token>)
      requires n <= i < |parts|
      ensures var words := a + parts[n..i] + b;
        words[..|a| + i - n] + [parts[i]] + words[|a| + i - n..] == a + parts[n..i + 1] + b
    {
      assert parts[n..i + 1] == parts[n..i] + [parts[i]];
    }

    static lemma CutWords(a: seq<Token>, b: seq<Token>)
      ensures (a + b)[..|a|] == a && (a + b)[|a|..] == b
    {}

    /** The counted slots after the insertion. */
    /** `n` empty slots after slot `idx`, and the sentences behind it moved there. */
    static ghost predicate Opened(before: seq<Sentence>, count: nat, idx: nat, n: nat, m: seq<Sentence>)
      requires idx < |before| && count <= |before|
    {
      && |m| >= idx + 1 + n && count + n <= |m|
      && m[..idx + 1] == before[..idx + 1]
      && m[idx + 1..idx + 1 + n] == Empties(n)
      && forall k | idx < k < count :: m[k + n] == before[k]
    }

    /** The parts up to the last delimiter go to slot `idx`, the others to the next. */
    static ghost predicate Filled(m: seq<Sentence>, idx: nat, at: nat, parts: seq<Token>, after: seq<Sentence>)
      requires idx < |m| && at <= |m[idx]| && (Splits(parts) ==> idx + 1 < |m|)
    {
      var s, n := m[idx], LastDelimiterEnd(parts);
      after == if Splits(parts)
               then m[idx := s[..at] + parts[..n]][idx + 1 := parts[n..] + s[at..]]
               else m[idx := s[..at] + parts + s[at..]]
    }

    static lemma RoomMade(slots: seq<Sentence>, idx: nat, n: nat, before: seq<Sentence>, count: nat, m: seq<Sentence>)
      requires idx < |slots| <= |before| && before[..|slots|] == slots && count <= |before|
      requires Opened(before, count, idx, n, m)
      ensures |m| >= idx + 1 + n && m[idx] == slots[idx] && (n > 0 ==> m[idx + 1] == [])
    {
      assert m[idx] == m[..idx + 1][idx] == before[..idx + 1][idx] == slots[idx];
      if n > 0 { assert m[idx + 1] == m[idx + 1..idx + 1 + n][0]; }
    }

    static lemma InsertedSlots(slots: seq<Sentence>, idx: nat, at: nat, parts: seq<Token>,
        before: seq<Sentence>, count: nat, m: seq<Sentence>, after: seq<Sentence>)
      requires idx < |slots| <= |before| && before[..|slots|] == slots && at <= |slots[idx]| && count <= |before|
      requires count == |slots| || (count == idx && |slots| == idx + 1)
      requires Opened(before, count, idx, Created(parts), m)
      requires (Splits(parts) ==> Created(parts) > 0) && m[idx] == slots[idx] && Filled(m, idx, at, parts, after)
      ensures count + Created(parts) <= |after|
      ensures after[..count + Created(parts)]
        == (slots[..idx] + Spliced(slots[idx], at, parts) + slots[idx + 1..])[..count + Created(parts)]
    {
      hide LastDelimiterEnd, Created, Spliced, Splits;
      var n := Created(parts);
      var mid := Spliced(slots[idx], at, parts);
      var goal := slots[..idx] + mid + slots[idx + 1..];
      forall k | 0 <= k < count + n ensures after[k] == goal[k] {
        if k < idx {
          assert m[k] == m[..idx + 1][k] == before[..idx + 1][k] == slots[k];
        } else if k <= idx + n {
          assert goal[k] == mid[k - idx];
          SplicedAt(slots[idx], at, parts, k - idx);
          if k > idx { assert m[k] == m[idx + 1..idx + 1 + n][k - idx - 1]; }
        } else {
          assert m[k] == before[k - n] == before[..|slots|][k - n] == slots[k - n];
          assert goal[k] == slots[idx + 1..][k - idx - n - 1] == slots[k - n];
        }
      }
    }

    static lemma SplicedAt(s: Sentence, p: nat, parts: seq<Token>, j: nat)
      requires p <= |s| && j <= Created(parts)
      ensures var n := LastDelimiterEnd(parts);
        Spliced(s, p, parts)[j] ==
          if j == 0 then (if Splits(parts) then s[..p] + parts[..n] else s[..p] + parts + s[p..])
          else if j == 1 && Splits(parts) then parts[n..] + s[p..]
          else []
    {}
  }
}
