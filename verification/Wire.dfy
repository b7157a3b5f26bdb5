/** Messages on the wire (`common.c`): fifteen fields separated by `|`, of which the last takes
    whatever follows.  Strings hold no NUL character. */
module Wire {
  import opened Wrappers

  const MAX_FILENAME := 256
  const MAX_USERNAME := 64
  const MAX_PATH := 512
  const MAX_BUFFER := 8192
  const FIELDS := 15
  const MSG_ACK := 16
  const SUCCESS := 200

  datatype Message = Message(
    kind: int,
    status: int,
    sender: string,
    filename: string,
    foldername: string,
    targetPath: string,
    sentenceIndex: int,
    wordIndex: int,
    ssId: int,
    clientPort: int,
    nmPort: int,
    access: int,
    targetUser: string,
    checkpointTag: string,
    data: string
  )

  /** `init_message` */
  const INIT := Message(MSG_ACK, SUCCESS, "", "", "", "", -1, -1, -1, 0, 0, 0, "", "", "")

  predicate Int32(n: int) {
    -0x8000_0000 <= n < 0x8000_0000
  }

  /** The strings fit the arrays of the structure, and the numbers are C integers. */
  predicate Fits(m: Message) {
    && |m.sender| < MAX_USERNAME && |m.filename| < MAX_FILENAME && |m.foldername| < MAX_FILENAME
    && |m.targetPath| < MAX_PATH && |m.targetUser| < MAX_USERNAME && |m.checkpointTag| < MAX_USERNAME
    && |m.data| < MAX_BUFFER
    && Int32(m.kind) && Int32(m.status) && Int32(m.sentenceIndex) && Int32(m.wordIndex) && Int32(m.ssId)
    && Int32(m.clientPort) && Int32(m.nmPort) && Int32(m.access)
  }

  /* ---- Numbers ---- */

  function Digit(d: nat): char
    requires d < 10
  {
    '0' + d as char
  }

  predicate IsDigit(c: char) {
    '0' <= c <= '9'
  }

  function Digits(n: nat): (s: string)
    ensures s != [] && forall i | 0 <= i < |s| :: IsDigit(s[i])
  {
    if n < 10 then [Digit(n)] else Digits(n / 10) + [Digit(n % 10)]
  }

  /** The `%d` conversion. */
  function Itoa(n: int): string {
    if n < 0 then "-" + Digits(-n) else Digits(n)
  }

  predicate IsSpace(c: char) {
    c == ' ' || '\t' <= c <= '\r'
  }

  /** The digits at the start of `s`, read after a number `acc`. */
  function ReadDigits(s: string, acc: nat): nat {
    if s == "" || !IsDigit(s[0]) then acc
    else ReadDigits(s[1..], 10 * acc + (s[0] - '0') as nat)
  }

  /** `atoi`: leading white space, a sign, and digits up to anything else. */
  function Atoi(s: string): int
    decreases |s|
  {
    if s == "" then 0
    else if IsSpace(s[0]) then Atoi(s[1..])
    else if s[0] == '-' then 0 - ReadDigits(s[1..], 0)
    else if s[0] == '+' then ReadDigits(s[1..], 0)
    else ReadDigits(s, 0)
  }

  lemma {:induction false} ReadDigitsAppend(s: string, d: nat, acc: nat)
    requires d < 10 && forall i | 0 <= i < |s| :: IsDigit(s[i])
    ensures ReadDigits(s + [Digit(d)], acc) == 10 * ReadDigits(s, acc) + d
  {
    if s == "" {
      assert s + [Digit(d)] == [Digit(d)];
      assert [Digit(d)][1..] == "";
    } else {
      assert (s + [Digit(d)])[1..] == s[1..] + [Digit(d)];
      ReadDigitsAppend(s[1..], d, 10 * acc + (s[0] - '0') as nat);
    }
  }

  lemma {:induction false} DigitsRead(n: nat)
    ensures ReadDigits(Digits(n), 0) == n
  {
    if n >= 10 {
      DigitsRead(n / 10);
      ReadDigitsAppend(Digits(n / 10), n % 10, 0);
    } else {
      assert [Digit(n)][1..] == "";
    }
  }

  /** Printing and reading a number. */
  lemma NumberRoundTrip(n: int)
    ensures Atoi(Itoa(n)) == n
  {
    if n < 0 {
      DigitsRead(-n);
      assert ("-" + Digits(-n))[1..] == Digits(-n);
    } else {
      DigitsRead(n);
    }
  }

  function Power10(k: nat): nat {
    if k == 0 then 1 else 10 * Power10(k - 1)
  }

  lemma {:induction false} DigitsLength(n: nat, k: nat)
    requires k > 0 && n < Power10(k)
    ensures |Digits(n)| <= k
  {
    if n >= 10 {
      assert k > 1 by { assert Power10(1) == 10 * Power10(0); }
      DigitsLength(n / 10, k - 1);
    }
  }

  lemma Int32Length(n: int)
    requires Int32(n)
    ensures 0 < |Itoa(n)| <= 11
  {
    assert Power10(5) == 100000;
    assert Power10(10) == 100000 * Power10(5);
    DigitsLength(if n < 0 then -n else n, 10);
  }

  /* ---- Fields ---- */

  /** The first separator, or the length (`strchr`). */
  function Bar(s: string): (n: nat)
    ensures n <= |s| && (n < |s| ==> s[n] == '|')
    ensures forall i | 0 <= i < n :: s[i] != '|'
  {
    if s == "" || s[0] == '|' then 0 else 1 + Bar(s[1..])
  }

  function Join(fields: seq<string>): string
    requires fields != []
  {
    if |fields| == 1 then fields[0] else fields[0] + "|" + Join(fields[1..])
  }

  /** At most `n` tokens; the last one is not split. */
  function Tokens(s: string, n: nat): (ts: seq<string>)
    requires n > 0
    ensures 0 < |ts| <= n
  {
    var b := Bar(s);
    if n == 1 || b == |s| then [s] else [s[..b]] + Tokens(s[b + 1..], n - 1)
  }

  function Texts(m: Message): (ts: seq<string>)
    ensures |ts| == FIELDS
  {
    [Itoa(m.kind), Itoa(m.status), m.sender, m.filename, m.foldername, m.targetPath, Itoa(m.sentenceIndex),
     Itoa(m.wordIndex), Itoa(m.ssId), Itoa(m.clientPort), Itoa(m.nmPort), Itoa(m.access), m.targetUser,
     m.checkpointTag, m.data]
  }

  /** `serialize_message` */
  function Encode(m: Message): string {
    Join(Texts(m))
  }

  function Clip(s: string, n: nat): (t: string)
    ensures t <= s && |t| <= n && (|s| <= n ==> t == s)
  {
    if |s| <= n then s else s[..n]
  }

  /** A token as the switch of `deserialize_message` sees it: missing ones count as empty. */
  function At(ts: seq<string>, field: nat): string {
    if field < |ts| then Clip(ts[field], MAX_BUFFER - 1) else ""
  }

  function Number(token: string, default: int): int {
    if token == "" then default else Atoi(token)
  }

  /** The message that a list of tokens stands for. */
  function FromTokens(ts: seq<string>): Message {
    Message(
      Number(At(ts, 0), INIT.kind), Number(At(ts, 1), INIT.status), Clip(At(ts, 2), MAX_USERNAME - 1),
      Clip(At(ts, 3), MAX_FILENAME - 1), Clip(At(ts, 4), MAX_FILENAME - 1), Clip(At(ts, 5), MAX_FILENAME - 1),
      Number(At(ts, 6), INIT.sentenceIndex), Number(At(ts, 7), INIT.wordIndex), Number(At(ts, 8), INIT.ssId),
      Number(At(ts, 9), INIT.clientPort), Number(At(ts, 10), INIT.nmPort), Number(At(ts, 11), INIT.access),
      Clip(At(ts, 12), MAX_USERNAME - 1), Clip(At(ts, 13), MAX_USERNAME - 1), At(ts, 14))
  }

  function Decode(buffer: string): Message {
    FromTokens(Tokens(buffer, FIELDS))
  }

  /** One turn of the switch. */
  function SetField(m: Message, field: nat, token: string): Message
    requires field < FIELDS && token != ""
  {
    match field
    case 0 => m.(kind := Atoi(token))
    case 1 => m.(status := Atoi(token))
    case 2 => m.(sender := Clip(token, MAX_USERNAME - 1))
    case 3 => m.(filename := Clip(token, MAX_FILENAME - 1))
    case 4 => m.(foldername := Clip(token, MAX_FILENAME - 1))
    case 5 => m.(targetPath := Clip(token, MAX_FILENAME - 1))
    case 6 => m.(sentenceIndex := Atoi(token))
    case 7 => m.(wordIndex := Atoi(token))
    case 8 => m.(ssId := Atoi(token))
    case 9 => m.(clientPort := Atoi(token))
    case 10 => m.(nmPort := Atoi(token))
    case 11 => m.(access := Atoi(token))
    case 12 => m.(targetUser := Clip(token, MAX_USERNAME - 1))
    case 13 => m.(checkpointTag := Clip(token, MAX_USERNAME - 1))
    case _ => m.(data := token)
  }

  lemma OneField(ts: seq<string>, token: string)
    requires |ts| < FIELDS
    ensures FromTokens(ts + [token]) ==
      var t := Clip(token, MAX_BUFFER - 1);
      if t == "" then FromTokens(ts) else SetField(FromTokens(ts), |ts|, t)
  {
    hide Atoi;
    var k, us := |ts|, ts + [token];
    assert forall j: nat :: j != k ==> At(us, j) == At(ts, j);
    assert At(us, k) == Clip(token, MAX_BUFFER - 1) && At(ts, k) == "";
  }

  /** One turn of the loop: the token at the pointer and its field. */
  method ReadField(m: Message, field: nat, rest: string, ghost seen: seq<string>) returns (m': Message, len: nat)
    requires field < FIELDS && |seen| == field && m == FromTokens(seen)
    ensures len == if field == FIELDS - 1 then |rest| else Bar(rest)
    ensures len <= |rest| && m' == FromTokens(seen + [rest[..len]])
  {
    hide FromTokens, SetField, Clip;
    len := if field == FIELDS - 1 then |rest| else Bar(rest);
    var token := Clip(rest[..len], MAX_BUFFER - 1);
    OneField(seen, rest[..len]);
    m' := m;
    if token != "" {
      m' := SetField(m, field, token);
    }
  }

  /** `deserialize_message`; the pointer into the buffer is the rest of the text it points to. */
  method Deserialize(buffer: string) returns (m: Message)
    ensures m == Decode(buffer)
  {
    hide FromTokens, Tokens, Bar;
    m := INIT;
    NoTokens();
    var rest, field, more := buffer, 0, true;
    ghost var seen: seq<string> := [];
    assert seen + Tokens(buffer, FIELDS) == Tokens(buffer, FIELDS);
    while field < FIELDS && more
      invariant field <= FIELDS && |seen| == field && m == FromTokens(seen) && (field == FIELDS ==> !more)
      invariant more ==> Tokens(buffer, FIELDS) == seen + Tokens(rest, FIELDS - field)
      invariant !more ==> Tokens(buffer, FIELDS) == seen
      decreases FIELDS - field
    {
      var len;
      m, len := ReadField(m, field, rest, seen);
      NextToken(seen, rest, FIELDS - field, len);
      seen := seen + [rest[..len]];
      more := len < |rest|;
      if more {
        rest := rest[len + 1..];
      }
      field := field + 1;
    }
  }

  lemma NoTokens()
    ensures FromTokens([]) == INIT
  {}

  lemma NextToken(seen: seq<string>, rest: string, n: nat, len: nat)
    requires n > 0 && len == (if n == 1 then |rest| else Bar(rest))
    ensures seen + Tokens(rest, n) ==
      if len < |rest| then seen + [rest[..len]] + Tokens(rest[len + 1..], n - 1) else seen + [rest[..len]]
  {
    assert len == |rest| ==> rest[..len] == rest;
  }

  /* ---- Round trip ---- */

  predicate NoBar(s: string) {
    forall i | 0 <= i < |s| :: s[i] != '|'
  }

  /** Reading joined fields gives them back up to the first that holds a separator, which is cut. */
  lemma {:induction false} TokensOfJoin(fields: seq<string>, k: nat)
    requires k < |fields| && forall i | 0 <= i < k :: NoBar(fields[i])
    ensures var ts := Tokens(Join(fields), |fields|);
      && |ts| > k && ts[..k] == fields[..k]
      && ts[k] == if k == |fields| - 1 then fields[k] else fields[k][..Bar(fields[k])]
  {
    hide Tokens, Join, Bar, NoBar;
    TokensStep(fields);
    if k == 0 {
    } else {
      var rest := fields[1..];
      assert forall i | 0 <= i < k - 1 :: rest[i] == fields[i + 1];
      TokensOfJoin(rest, k - 1);
      PrefixStep(fields, Tokens(Join(rest), |rest|), k);
    }
  }

  lemma PrefixStep(fields: seq<string>, ts: seq<string>, k: nat)
    requires 0 < k < |fields| && k <= |ts| && ts[..k - 1] == fields[1..][..k - 1]
    ensures ([fields[0]] + ts)[..k] == fields[..k]
  {
    assert ([fields[0]] + ts)[..k] == [fields[0]] + ts[..k - 1];
    assert fields[..k] == [fields[0]] + fields[1..][..k - 1];
  }

  lemma TokensStep(fields: seq<string>)
    requires fields != []
    ensures var ts := Tokens(Join(fields), |fields|);
      && ts[0] == (if |fields| == 1 then fields[0] else fields[0][..Bar(fields[0])])
      && (|fields| > 1 && NoBar(fields[0]) ==> ts == [fields[0]] + Tokens(Join(fields[1..]), |fields| - 1))
  {
    hide NoBar;
    if |fields| > 1 {
      BarOfJoin(fields[0], Join(fields[1..]));
      BarOfNone(fields[0]);
      assert NoBar(fields[0]) ==> fields[0][..Bar(fields[0])] == fields[0];
    }
  }

  lemma {:induction false} BarOfJoin(first: string, rest: string)
    ensures var s := first + "|" + rest;
      && Bar(s) == Bar(first) < |s| && s[..Bar(s)] == first[..Bar(first)]
      && (Bar(first) == |first| ==> s[Bar(s) + 1..] == rest)
  {
    var s := first + "|" + rest;
    if first != "" && first[0] != '|' {
      assert s[1..] == first[1..] + "|" + rest;
      BarOfJoin(first[1..], rest);
    }
  }

  lemma BarOfNone(s: string)
    ensures NoBar(s) <==> Bar(s) == |s|
    ensures NoBar(s[..Bar(s)])
  {}

  lemma NumberNoBar(n: int)
    ensures NoBar(Itoa(n)) && Itoa(n) != ""
  {}

  /** No field before the last holds a separator. */
  predicate Clean(m: Message) {
    && NoBar(m.sender) && NoBar(m.filename) && NoBar(m.foldername) && NoBar(m.targetPath)
    && NoBar(m.targetUser) && NoBar(m.checkpointTag)
  }

  lemma CleanTexts(m: Message)
    ensures Clean(m) <==> forall i | 0 <= i < FIELDS - 1 :: NoBar(Texts(m)[i])
  {
    hide NoBar, Itoa;
    NumberNoBar(m.kind);
    NumberNoBar(m.status);
    NumberNoBar(m.sentenceIndex);
    NumberNoBar(m.wordIndex);
    NumberNoBar(m.ssId);
    NumberNoBar(m.clientPort);
    NumberNoBar(m.nmPort);
    NumberNoBar(m.access);
    var ts := Texts(m);
    assert ts[2] == m.sender && ts[3] == m.filename && ts[4] == m.foldername && ts[5] == m.targetPath;
    assert ts[12] == m.targetUser && ts[13] == m.checkpointTag;
  }

  /** The copy limit of the target path is shorter than its array. */
  lemma FromOwnTexts(m: Message)
    requires Fits(m)
    ensures FromTokens(Texts(m)) == m.(targetPath := Clip(m.targetPath, MAX_FILENAME - 1))
  {
    hide Itoa, Atoi;
    ShortNumber(m.kind);
    ShortNumber(m.status);
    ShortNumber(m.sentenceIndex);
    ShortNumber(m.wordIndex);
    ShortNumber(m.ssId);
    ShortNumber(m.clientPort);
    ShortNumber(m.nmPort);
    ShortNumber(m.access);
  }

  lemma ShortNumber(n: int)
    requires Int32(n)
    ensures 0 < |Itoa(n)| <= 11 && Atoi(Itoa(n)) == n
  {
    Int32Length(n);
    NumberRoundTrip(n);
  }

  predicate IsNumber(k: nat) {
    k < 2 || 6 <= k < 12
  }

  /** What is read from a token without separators is printed without. */
  lemma FieldNoBar(ts: seq<string>, k: nat)
    requires k < FIELDS - 1 && k < |ts| && NoBar(ts[k])
    ensures NoBar(Texts(FromTokens(ts))[k])
  {
    hide Itoa, Atoi, FromTokens, NoBar, Texts;
    if IsNumber(k) {
      NumberText(FromTokens(ts), k);
    } else {
      var n := StringText(ts, k);
      ClipNoBar(ts[k], MAX_BUFFER - 1);
      ClipNoBar(At(ts, k), n);
    }
  }

  lemma NumberText(m: Message, k: nat)
    requires k < FIELDS && IsNumber(k)
    ensures NoBar(Texts(m)[k])
  {
    hide Itoa, NoBar;
    var numbers := [m.kind, m.status, 0, 0, 0, 0, m.sentenceIndex, m.wordIndex, m.ssId, m.clientPort, m.nmPort, m.access];
    assert Texts(m)[k] == Itoa(numbers[k]);
    NumberNoBar(numbers[k]);
  }

  /** A string field is its token, cut to the field's limit. */
  lemma StringText(ts: seq<string>, k: nat) returns (n: nat)
    requires k < FIELDS - 1 && !IsNumber(k)
    ensures Texts(FromTokens(ts))[k] == Clip(At(ts, k), n)
  {
    hide Itoa, Atoi, At, Clip;
    n := if k == 2 || k > 11 then MAX_USERNAME - 1 else MAX_FILENAME - 1;
  }

  lemma ClipNoBar(s: string, n: nat)
    requires NoBar(s)
    ensures NoBar(Clip(s, n))
  {}

  /** A message that fits its structure survives the wire if and only if none of its strings before
      `data` holds a separator and its target path is within the copy limit. */
  lemma RoundTrip(m: Message)
    requires Fits(m)
    ensures Decode(Encode(m)) == m <==> Clean(m) && |m.targetPath| < MAX_FILENAME
  {
    hide Fits, Clean, Texts, FromTokens, Tokens, Join, NoBar, Bar;
    CleanTexts(m);
    var fields := Texts(m);
    if Clean(m) {
      TokensOfJoin(fields, FIELDS - 1);
      var ts := Tokens(Join(fields), FIELDS);
      assert ts == ts[..FIELDS - 1] + [ts[FIELDS - 1]];
      assert fields == fields[..FIELDS - 1] + [fields[FIELDS - 1]];
      FromOwnTexts(m);
    } else {
      var k := FirstBar(fields, FIELDS - 1);
      TokensOfJoin(fields, k);
      var ts := Tokens(Join(fields), FIELDS);
      BarOfNone(fields[k]);
      FieldNoBar(ts, k);
    }
  }

  /** The first of the fields before `n` that holds a separator. */
  function FirstBar(fields: seq<string>, n: nat): (k: nat)
    requires n <= |fields| && exists i | 0 <= i < n :: !NoBar(fields[i])
    ensures k < n && !NoBar(fields[k]) && forall i | 0 <= i < k :: NoBar(fields[i])
  {
    if exists i | 0 <= i < n - 1 :: !NoBar(fields[i]) then FirstBar(fields, n - 1) else n - 1
  }

  /** The frame of a message, written out. */
  lemma FrameIs(m: Message)
    ensures Encode(m) ==
      Itoa(m.kind) + "|" + Itoa(m.status) + "|" + m.sender + "|" + m.filename + "|" + m.foldername + "|" + m.targetPath
      + "|" + Itoa(m.sentenceIndex) + "|" + Itoa(m.wordIndex) + "|" + Itoa(m.ssId) + "|" + Itoa(m.clientPort)
      + "|" + Itoa(m.nmPort) + "|" + Itoa(m.access) + "|" + m.targetUser + "|" + m.checkpointTag + "|" + m.data
  {
    hide Itoa, Join;
    var t := Texts(m);
    JoinPrefix(t, 14);
    assert t[14..] == [m.data];
    JoinOne(m.data);
    UpTo(t);
  }

  /** The first `k` fields, each with its separator. */
  function Prefix(fields: seq<string>, k: nat): string
    requires k <= |fields|
  {
    if k == 0 then "" else Prefix(fields, k - 1) + fields[k - 1] + "|"
  }

  lemma {:induction false} JoinPrefix(fields: seq<string>, k: nat)
    requires k < |fields|
    ensures Join(fields) == Prefix(fields, k) + Join(fields[k..])
  {
    if k == 0 {
      assert fields[0..] == fields;
    } else {
      JoinPrefix(fields, k - 1);
      assert fields[k - 1..][1..] == fields[k..];
    }
  }

  lemma JoinOne(s: string)
    ensures Join([s]) == s
  {}

  lemma UpTo(t: seq<string>)
    requires |t| == FIELDS
    ensures Prefix(t, 14) ==
      t[0] + "|" + t[1] + "|" + t[2] + "|" + t[3] + "|" + t[4] + "|" + t[5] + "|" + t[6] + "|" + t[7] + "|" + t[8] + "|"
      + t[9] + "|" + t[10] + "|" + t[11] + "|" + t[12] + "|" + t[13] + "|"
  {
    hide Prefix;
    Two(t, 0);
    assert Prefix(t, 2) == t[0] + "|" + t[1] + "|";
    Two(t, 2);
    Two(t, 4);
    Two(t, 6);
    Two(t, 8);
    Two(t, 10);
    Two(t, 12);
  }

  lemma Two(t: seq<string>, k: nat)
    requires k + 2 <= |t|
    ensures Prefix(t, k + 2) == Prefix(t, k) + t[k] + "|" + t[k + 1] + "|"
    ensures Prefix(t, 0) == ""
  {
    assert Prefix(t, k + 1) == Prefix(t, k) + t[k] + "|";
  }

  /** Whatever arrives, what is stored stays within the arrays; and an empty frame is the default
      message. */
  lemma DecodeFits(buffer: string)
    ensures var m := Decode(buffer);
      && |m.sender| < 64 && |m.filename| < 256 && |m.foldername| < 256 && |m.targetPath| < 256
      && |m.targetUser| < 64 && |m.checkpointTag| < 64 && |m.data| < 8192
    ensures Decode("") == Message(16, 200, "", "", "", "", -1, -1, -1, 0, 0, 0, "", "", "")
  {
    hide Atoi, Bar;
    assert Bar("") == 0;
    assert Tokens("", FIELDS) == [""];
  }

  /** A number is read over white space in front, a plus sign, and whatever is no digit behind. */
  lemma {:induction false} AtoiReads(pad: string, n: int, rest: string)
    requires forall i | 0 <= i < |pad| :: pad[i] in {' ', '\t', '\n', 11 as char, 12 as char, '\r'}
    requires rest == "" || rest[0] < '0' || rest[0] > '9'
    ensures Atoi(pad + (Itoa(n) + rest)) == n
    ensures n >= 0 ==> Atoi(pad + ("+" + (Itoa(n) + rest))) == n
    decreases |pad|
  {
    hide Itoa, ReadDigits;
    if pad == "" {
      SignedRead(n, rest);
      assert pad + (Itoa(n) + rest) == Itoa(n) + rest;
      assert pad + ("+" + (Itoa(n) + rest)) == "+" + (Itoa(n) + rest);
    } else {
      AtoiReads(pad[1..], n, rest);
      SkipOne(pad, Itoa(n) + rest);
      SkipOne(pad, "+" + (Itoa(n) + rest));
    }
  }

  lemma SkipOne(pad: string, s: string)
    requires pad != "" && pad[0] in {' ', '\t', '\n', 11 as char, 12 as char, '\r'}
    ensures Atoi(pad + s) == Atoi(pad[1..] + s)
  {
    assert (pad + s)[1..] == pad[1..] + s;
  }

  lemma SignedRead(n: int, rest: string)
    requires rest == "" || rest[0] < '0' || rest[0] > '9'
    ensures Atoi(Itoa(n) + rest) == n
    ensures n >= 0 ==> Atoi("+" + (Itoa(n) + rest)) == n
  {
    hide ReadDigits, Digits, Atoi;
    var d := Digits(if n < 0 then -n else n);
    DigitsReadOn(if n < 0 then -n else n, rest);
    Signs(d + rest);
    if n < 0 {
      assert Itoa(n) + rest == "-" + (d + rest);
    } else {
      StartsWithDigit(d, rest);
    }
  }

  lemma Signs(s: string)
    ensures Atoi("-" + s) == 0 - ReadDigits(s, 0) && Atoi("+" + s) == ReadDigits(s, 0)
  {
    hide ReadDigits;
    assert ("-" + s)[1..] == s && ("+" + s)[1..] == s;
  }

  lemma StartsWithDigit(d: string, rest: string)
    requires d != "" && IsDigit(d[0])
    ensures Atoi(d + rest) == ReadDigits(d + rest, 0)
  {
    hide ReadDigits;
    assert (d + rest)[0] == d[0];
  }

  lemma DigitsReadOn(n: nat, rest: string)
    requires rest == "" || rest[0] < '0' || rest[0] > '9'
    ensures ReadDigits(Digits(n) + rest, 0) == n
  {
    DigitsRead(n);
    ReadPrefix(Digits(n), rest, 0);
  }

  lemma {:induction false} ReadPrefix(s: string, rest: string, acc: nat)
    requires (forall i | 0 <= i < |s| :: IsDigit(s[i])) && (rest == "" || !IsDigit(rest[0]))
    ensures ReadDigits(s + rest, acc) == ReadDigits(s, acc)
  {
    if s == "" {
      assert s + rest == rest;
    } else {
      assert (s + rest)[1..] == s[1..] + rest;
      ReadPrefix(s[1..], rest, 10 * acc + (s[0] - '0') as nat);
    }
  }

  /* ---- The frame ---- */

  lemma {:induction false} JoinLength(fields: seq<string>)
    requires fields != []
    ensures |Join(fields)| == Total(fields) + |fields| - 1
  {
    if |fields| > 1 { JoinLength(fields[1..]); }
  }

  function Total(fields: seq<string>): nat {
    if fields == [] then 0 else |fields[0]| + Total(fields[1..])
  }

  lemma {:induction false} TotalJoin(a: seq<string>, b: seq<string>)
    ensures Total(a + b) == Total(a) + Total(b)
  {
    if a == [] {
      assert a + b == b;
    } else {
      assert (a + b)[1..] == a[1..] + b;
      TotalJoin(a[1..], b);
    }
  }

  /** Every message that fits its structure makes a frame that the receiver accepts. */
  lemma FrameFits(m: Message)
    requires Fits(m)
    ensures 0 < |Encode(m)| < 2 * MAX_BUFFER
  {
    hide Itoa, Atoi;
    ShortNumber(m.kind);
    ShortNumber(m.status);
    ShortNumber(m.sentenceIndex);
    ShortNumber(m.wordIndex);
    ShortNumber(m.ssId);
    ShortNumber(m.clientPort);
    ShortNumber(m.nmPort);
    ShortNumber(m.access);
    JoinLength(Texts(m));
    TotalOf(Texts(m));
  }

  lemma TotalOf(ts: seq<string>)
    requires |ts| == FIELDS
    ensures Total(ts) == |ts[0]| + |ts[1]| + |ts[2]| + |ts[3]| + |ts[4]| + |ts[5]| + |ts[6]| + |ts[7]| + |ts[8]|
      + |ts[9]| + |ts[10]| + |ts[11]| + |ts[12]| + |ts[13]| + |ts[14]|
  {
    ThreeOf(ts, 0);
    ThreeOf(ts, 3);
    ThreeOf(ts, 6);
    ThreeOf(ts, 9);
    ThreeOf(ts, 12);
    assert ts[0..] == ts && ts[15..] == [];
  }

  lemma ThreeOf(ts: seq<string>, i: nat)
    requires i + 3 <= |ts|
    ensures Total(ts[i..]) == |ts[i]| + |ts[i + 1]| + |ts[i + 2]| + Total(ts[i + 3..])
  {
    assert ts[i..] == [ts[i], ts[i + 1], ts[i + 2]] + ts[i + 3..];
    TotalJoin([ts[i], ts[i + 1], ts[i + 2]], ts[i + 3..]);
    assert [ts[i], ts[i + 1], ts[i + 2]] == [ts[i]] + [ts[i + 1]] + [ts[i + 2]];
    TotalJoin([ts[i]] + [ts[i + 1]], [ts[i + 2]]);
    TotalJoin([ts[i]], [ts[i + 1]]);
    Single(ts[i]);
    Single(ts[i + 1]);
    Single(ts[i + 2]);
  }

  lemma Single(s: string)
    ensures Total([s]) == |s|
  {
    assert [s][1..] == [];
  }

  /** `recv_message`: a frame of an unacceptable length is refused unread. */
  method Receive(frame: string) returns (m: Option<Message>)
    ensures m == if 0 < |frame| < 2 * MAX_BUFFER then Some(Decode(frame)) else None
  {
    if |frame| >= 2 * MAX_BUFFER || |frame| == 0 {
      return None;
    }
    var decoded := Deserialize(frame);
    m := Some(decoded);
  }
}
