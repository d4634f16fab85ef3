/** The text messages between clients and the metadata manager: how they are built and taken apart. */
module Wire {
  import opened Intervals

  // ------------------------------------------------------------------ tokens

  ghost predicate NoSpace(s: string) {
    ' ' !in s
  }

  function SpaceAt(s: string): (i: nat)
    ensures i <= |s| && NoSpace(s[..i]) && (i < |s| ==> s[i] == ' ')
  {
    if s == "" || s[0] == ' ' then 0
    else
      var i := SpaceAt(s[1..]);
      assert s[..i + 1] == [s[0]] + s[1..][..i];
      i + 1
  }

  /** The text before the first space, and the text after it. */
  function Split(s: string): (string, string) {
    var i := SpaceAt(s);
    if i < |s| then (s[..i], s[i + 1..]) else (s, "")
  }

  /** The same without the place of the space. */
  ghost predicate IsFirstToken(str: string, token: string, rest: string) {
    && ' ' !in token
    && if ' ' in str then str == token + " " + rest else token == str && rest == ""
  }

  /** `nextToken`, which consumes its argument: `rest` is what the argument becomes. */
  method NextToken(str: string) returns (token: string, rest: string)
    ensures (token, rest) == Split(str)
    ensures IsFirstToken(str, token, rest)
  {
    var found := 0;
    while found < |str| && str[found] != ' '
      invariant found <= |str| && NoSpace(str[..found])
      invariant SpaceAt(str) >= found
    {
      found := found + 1;
    }
    if found < |str| {
      token := str[..found];
      rest := str[|token| + 1..];
    } else {
      token := str;
      rest := "";
    }
  }

  /** The first `n` tokens; past the end of the text they are empty. */
  function Fields(s: string, n: nat): (f: seq<string>)
    ensures |f| == n
    decreases n
  {
    if n == 0 then [] else [Split(s).0] + Fields(Split(s).1, n - 1)
  }

  function Join(tokens: seq<string>): string {
    if tokens == [] then "" else if |tokens| == 1 then tokens[0] else tokens[0] + " " + Join(tokens[1..])
  }

  lemma {:induction false} SpaceAfter(t: string, rest: string)
    requires NoSpace(t) && (rest == "" || rest[0] == ' ')
    ensures SpaceAt(t + rest) == |t|
  {
    if t != "" {
      assert (t + rest)[0] == t[0] && (t + rest)[1..] == t[1..] + rest;
      SpaceAfter(t[1..], rest);
    } else {
      assert t + rest == rest;
    }
  }

  lemma SplitAtSpace(t: string, rest: string)
    requires NoSpace(t)
    ensures Split(t + " " + rest) == (t, rest) && Split(t) == (t, "")
  {
    var s := t + " " + rest;
    SpaceAfter(t, " " + rest);
    assert s == t + (" " + rest) && s[..|t|] == t && s[|t| + 1..] == rest;
    SpaceAfter(t, "");
    assert t + "" == t;
  }

  /** Taking the tokens of a joined text gives them back. */
  lemma {:induction false} FieldsOfJoin(tokens: seq<string>)
    requires forall i :: 0 <= i < |tokens| ==> NoSpace(tokens[i])
    ensures Fields(Join(tokens), |tokens|) == tokens
  {
    if tokens != [] {
      SplitAtSpace(tokens[0], Join(tokens[1..]));
      FieldsOfJoin(tokens[1..]);
      if |tokens| == 1 {
        assert Fields("", 0) == [] && tokens == [tokens[0]];
      } else {
        assert Join(tokens) == tokens[0] + " " + Join(tokens[1..]);
        assert tokens == [tokens[0]] + tokens[1..];
      }
    }
  }

  /** Asking for one token more gives an empty one. */
  lemma {:induction false} OneFieldTooMany(tokens: seq<string>)
    requires tokens != [] && forall i :: 0 <= i < |tokens| ==> NoSpace(tokens[i])
    ensures Fields(Join(tokens), |tokens| + 1) == tokens + [""]
  {
    FieldAfterField(Join(tokens), |tokens| + 1);
    SplitAtSpace(tokens[0], Join(tokens[1..]));
    hide Split, Fields;
    if |tokens| == 1 {
      EmptyField();
    } else {
      OneFieldTooMany(tokens[1..]);
      assert tokens == [tokens[0]] + tokens[1..];
    }
  }

  lemma FieldAfterField(s: string, n: nat)
    requires n > 0
    ensures Fields(s, n) == [Split(s).0] + Fields(Split(s).1, n - 1)
  {
  }

  lemma {:induction false} JoinOneMore(tokens: seq<string>, t: string)
    requires tokens != []
    ensures Join(tokens + [t]) == Join(tokens) + " " + t
  {
    assert (tokens + [t])[1..] == tokens[1..] + [t];
    if |tokens| > 1 {
      JoinOneMore(tokens[1..], t);
    } else {
      assert tokens[1..] + [t] == [t];
    }
  }

  lemma SpacesAfter(s: string, i: nat)
    requires i < |s| && s[i] == ' '
    ensures multiset(s[i + 1..])[' '] < multiset(s)[' ']
  {
    assert s == s[..i] + [' '] + s[i + 1..];
  }

  /** A text with fewer than `n` spaces has no token number `n`. */
  lemma {:induction false} NoFieldPastSpaces(s: string, n: nat)
    requires multiset(s)[' '] < n
    ensures Fields(s, n + 1)[n] == ""
    decreases n
  {
    FieldAfterField(s, n + 1);
    var i := SpaceAt(s);
    if i < |s| {
      SpacesAfter(s, i);
    }
    assert multiset(Split(s).1)[' '] < n - 1 || Split(s).1 == "";
    hide SpaceAt, Fields, Split;
    if n > 1 {
      NoFieldPastSpaces(Split(s).1, n - 1);
    } else {
      assert Split(s).1 == "";
      EmptyField();
    }
  }

  lemma EmptyField()
    ensures Fields("", 1) == [""]
  {
    assert Fields("", 1) == [Split("").0] + Fields(Split("").1, 0);
  }

  // ------------------------------------------------------------------ white space, case, numbers

  predicate IsSpace(c: char) {
    c == ' ' || '\t' <= c <= '\r'
  }

  function TrimLeft(s: string): string {
    if s != "" && IsSpace(s[0]) then TrimLeft(s[1..]) else s
  }

  function TrimRight(s: string): string {
    if s != "" && IsSpace(s[|s| - 1]) then TrimRight(s[..|s| - 1]) else s
  }

  function Trim(s: string): string {
    TrimLeft(TrimRight(s))
  }

  /** The six characters that `isspace` accepts. */
  ghost predicate IsBlank(c: char) {
    c as int == 32 || 9 <= c as int <= 13
  }

  lemma {:induction false} TrimmedLeft(s: string) returns (i: nat)
    ensures i <= |s| && TrimLeft(s) == s[i..] && (forall k :: 0 <= k < i ==> IsBlank(s[k]))
    ensures i < |s| ==> !IsBlank(s[i])
  {
    if s != "" && IsSpace(s[0]) {
      var j := TrimmedLeft(s[1..]);
      i := j + 1;
    } else {
      i := 0;
    }
  }

  lemma {:induction false} TrimmedRight(s: string) returns (i: nat)
    ensures i <= |s| && TrimRight(s) == s[..i] && (forall k :: i <= k < |s| ==> IsBlank(s[k]))
    ensures i > 0 ==> !IsBlank(s[i - 1])
  {
    if s != "" && IsSpace(s[|s| - 1]) {
      i := TrimmedRight(s[..|s| - 1]);
    } else {
      i := |s|;
    }
  }

  /** Trimming takes off the white space on both ends and nothing else. */
  lemma TrimmedText(s: string) returns (i: nat, j: nat)
    ensures i <= j <= |s| && Trim(s) == s[i..j]
    ensures forall k :: 0 <= k < i || j <= k < |s| ==> IsBlank(s[k])
    ensures i < j ==> !IsBlank(s[i]) && !IsBlank(s[j - 1])
  {
    j := TrimmedRight(s);
    i := TrimmedLeft(s[..j]);
  }

  lemma TrimKeepsWords(s: string)
    requires s != "" ==> !IsSpace(s[0]) && !IsSpace(s[|s| - 1])
    ensures Trim(s) == s
  {
  }

  function LowerChar(c: char): char {
    if 'A' <= c <= 'Z' then c - 'A' + 'a' else c
  }

  method ToLower(str: string) returns (lower: string)
    ensures |lower| == |str| && forall i :: 0 <= i < |str| ==> lower[i] == LowerChar(str[i])
    ensures forall i :: 0 <= i < |str| ==> !('A' <= lower[i] <= 'Z')
    ensures forall i :: 0 <= i < |str| ==>
              lower[i] as int == str[i] as int + if 'A' <= str[i] <= 'Z' then 32 else 0
  {
    lower := "";
    for i := 0 to |str|
      invariant |lower| == i && forall j :: 0 <= j < i ==> lower[j] == LowerChar(str[j])
      invariant forall j :: 0 <= j < i ==>
        !('A' <= lower[j] <= 'Z') && lower[j] as int == str[j] as int + if 'A' <= str[j] <= 'Z' then 32 else 0
    {
      lower := lower + [LowerChar(str[i])];
    }
  }

  predicate IsDigit(c: char) {
    '0' <= c <= '9'
  }

  predicate AreDigits(s: string) {
    forall i :: 0 <= i < |s| ==> IsDigit(s[i])
  }

  function DigitOf(c: char): (d: nat)
    requires IsDigit(c)
    ensures d < 10
  {
    c as int - '0' as int
  }

  function DigitChar(d: nat): (c: char)
    requires d < 10
    ensures IsDigit(c) && DigitOf(c) == d
  {
    '0' + d as char
  }

  function Value(digits: string): nat
    requires AreDigits(digits)
  {
    if digits == "" then 0
    else Value(digits[..|digits| - 1]) * 10 + DigitOf(digits[|digits| - 1])
  }

  function LeadingDigits(s: string): (d: string)
    ensures AreDigits(d)
  {
    if s != "" && IsDigit(s[0]) then [s[0]] + LeadingDigits(s[1..]) else ""
  }

  /** `atoi`: white space, a sign, digits; anything else counts as 0. */
  function Atoi(s: string): int {
    var t := TrimLeft(s);
    if t != "" && t[0] == '-' then 0 - Value(LeadingDigits(t[1..]))
    else if t != "" && t[0] == '+' then Value(LeadingDigits(t[1..]))
    else Value(LeadingDigits(t))
  }

  function Decimal(n: nat): (s: string)
    ensures s != "" && AreDigits(s)
  {
    if n < 10 then [DigitChar(n)] else Decimal(n / 10) + [DigitChar(n % 10)]
  }

  /** How a stream prints an integer. */
  function Printed(n: int): string {
    if n < 0 then "-" + Decimal(-n) else Decimal(n)
  }

  lemma {:induction false} ValueOfDecimal(n: nat)
    ensures Value(Decimal(n)) == n
  {
    if n >= 10 {
      ValueOfDecimal(n / 10);
      assert Decimal(n)[..|Decimal(n)| - 1] == Decimal(n / 10);
    } else {
      assert Decimal(n)[..0] == "";
    }
  }

  lemma {:induction false} DigitsUpTo(d: string, rest: string)
    requires AreDigits(d) && (rest != "" ==> !IsDigit(rest[0]))
    ensures LeadingDigits(d + rest) == d
  {
    if d == "" {
      assert d + rest == rest;
    } else {
      DigitsUpTo(d[1..], rest);
      assert (d + rest)[1..] == d[1..] + rest;
    }
  }

  lemma {:induction false} BlanksAreSkipped(w: string, s: string)
    requires (forall k :: 0 <= k < |w| ==> IsBlank(w[k])) && (s != "" ==> !IsBlank(s[0]))
    ensures TrimLeft(w + s) == s
  {
    if w == "" {
      assert w + s == s;
    } else {
      BlanksAreSkipped(w[1..], s);
      assert (w + s)[1..] == w[1..] + s;
    }
  }

  /** What `atoi` reads: white space, a sign or none, a printed number, and whatever follows that is no digit. */
  lemma AtoiReads(w: string, n: nat, rest: string)
    requires forall k :: 0 <= k < |w| ==> IsBlank(w[k])
    requires rest != "" ==> !('0' <= rest[0] <= '9')
    ensures Atoi(w + (Printed(n) + rest)) == n
    ensures Atoi(w + ("+" + (Printed(n) + rest))) == n
    ensures Atoi(w + ("-" + (Printed(n) + rest))) == 0 - n
  {
    var d := Printed(n);
    assert AreDigits(d) && d != "";
    ValueOfDecimal(n);
    DigitsUpTo(d, rest);
    var plus, minus := "+" + (d + rest), "-" + (d + rest);
    assert plus[1..] == d + rest && minus[1..] == d + rest && IsDigit((d + rest)[0]);
    BlanksAreSkipped(w, d + rest);
    BlanksAreSkipped(w, plus);
    BlanksAreSkipped(w, minus);
    hide LeadingDigits, TrimLeft, Printed, Value;
  }

  /** Text that is no number counts as 0. */
  lemma AtoiOfText(w: string, rest: string)
    requires forall k :: 0 <= k < |w| ==> IsBlank(w[k])
    requires rest != "" ==> !('0' <= rest[0] <= '9') && rest[0] != '+' && rest[0] != '-' && !IsBlank(rest[0])
    ensures Atoi(w + rest) == 0
  {
    BlanksAreSkipped(w, rest);
    DigitsUpTo("", rest);
    assert "" + rest == rest;
  }

  lemma {:induction false} DigitsLead(s: string)
    requires AreDigits(s)
    ensures LeadingDigits(s) == s
  {
    if s != "" {
      DigitsLead(s[1..]);
    }
  }

  lemma DigitsAreWords(s: string)
    requires AreDigits(s)
    ensures NoSpace(s) && Trim(s) == s && Atoi(s) == Value(s)
  {
    DigitsLead(s);
    if s != "" {
      assert IsDigit(s[0]) && IsDigit(s[|s| - 1]);
      TrimKeepsWords(s);
    }
  }

  lemma NegativesAreWords(d: string)
    requires AreDigits(d) && d != ""
    ensures NoSpace("-" + d) && Trim("-" + d) == "-" + d && Atoi("-" + d) == 0 - Value(d)
  {
    DigitsLead(d);
    var s := "-" + d;
    assert s[1..] == d && s[|s| - 1] == d[|d| - 1];
    assert forall i :: 0 < i < |s| ==> s[i] == d[i - 1];
    hide Value, LeadingDigits;
    TrimKeepsWords(s);
  }

  /** Printing and parsing are inverse on all integers. */
  lemma AtoiOfPrinted(n: int)
    ensures NoSpace(Printed(n)) && Trim(Printed(n)) == Printed(n) && Atoi(Printed(n)) == n
  {
    var size := if n < 0 then -n else n;
    ValueOfDecimal(size);
    if n < 0 {
      NegativesAreWords(Decimal(size));
    } else {
      DigitsAreWords(Decimal(size));
    }
    hide Decimal, Value, Atoi, Trim;
  }

  /** Part of a positive number's digits, cut off at the end, is a smaller number. */
  lemma {:induction false} CutDecimalIsLess(n: nat, j: nat)
    requires n > 0 && j < |Decimal(n)|
    ensures NoSpace(Decimal(n)[..j]) && Trim(Decimal(n)[..j]) == Decimal(n)[..j]
    ensures 0 <= Atoi(Decimal(n)[..j]) < n
  {
    var cut := Decimal(n)[..j];
    DigitsAreWords(cut);
    if n < 10 {
      assert cut == "";
    } else {
      var shorter := Decimal(n / 10);
      if j < |shorter| {
        assert cut == shorter[..j];
        CutDecimalIsLess(n / 10, j);
      } else {
        assert cut == shorter;
        ValueOfDecimal(n / 10);
      }
    }
  }

  // ------------------------------------------------------------------ a token request

  /** The size of the arrays into which the server and a client's revoker receive. */
  const SERVER_BUFFER: nat := 64
  const CLIENT_BUFFER: nat := 32

  /** One receive of a message: what does not fit is never read. */
  function Received(message: string, buffer: nat): string {
    if |message| <= buffer then message else message[..buffer]
  }

  /** What a receiver makes of a message.  The terminating zero is stored behind the last byte received, so
      a message that fills the array is stored past its end, and what follows is undefined. */
  datatype Heard<T> = Undefined | NoSuchCommand | Understood(call: T)

  datatype TokenRequest = TokenRequest(file: string, start: int, end: int, mode: char, port: int, address: string)

  function Arguments(file: string, start: int, end: int, mode: char): string {
    file + " " + Printed(start) + " " + Printed(end) + " " + [mode]
  }

  /** What `requestToken` sends. */
  function RequestMessage(file: string, start: int, end: int, mode: char, port: int): string {
    "request_token " + Arguments(file, start, end, mode) + " " + Printed(port)
  }

  /** The first character; of an empty string, the terminating zero. */
  function FirstChar(s: string): char {
    if s == "" then '\0' else s[0]
  }

  function Parsed(arguments: string): TokenRequest {
    var f := Fields(arguments, 6);
    TokenRequest(f[0], Atoi(Trim(f[1])), Atoi(Trim(f[2])), FirstChar(Trim(f[3])), Atoi(Trim(f[4])), Trim(f[5]))
  }

  /** The server's side: take the command off, put the sender's address behind the rest, take that apart. */
  ghost function HeardRequest(message: string, address: string): Heard<TokenRequest> {
    var (command, rest) := Split(message);
    if |message| >= SERVER_BUFFER then Undefined
    else if IsWord(command, "request_token") then Understood(Parsed(rest + " " + address))
    else NoSuchCommand
  }

  method TakeApart(text: string) returns (r: TokenRequest)
    ensures r == Parsed(text)
  {
    hide IsFirstToken;
    var arguments := text;
    var file, start, end, mode, port, client;
    file, arguments := NextToken(arguments);
    start, arguments := NextToken(arguments);
    end, arguments := NextToken(arguments);
    mode, arguments := NextToken(arguments);
    port, arguments := NextToken(arguments);
    client, arguments := NextToken(arguments);
    SixFields(text);
    hide Split, Fields, Atoi, Trim;
    r := TokenRequest(file, Atoi(Trim(start)), Atoi(Trim(end)), FirstChar(Trim(mode)), Atoi(Trim(port)), Trim(client));
  }

  method ReceiveRequest(message: string, address: string) returns (r: Heard<TokenRequest>)
    ensures r == HeardRequest(message, address)
  {
    hide IsFirstToken;
    var recvCommand := Received(message, SERVER_BUFFER);
    if |recvCommand| == SERVER_BUFFER {
      return Undefined;
    }
    var command;
    command, recvCommand := NextToken(recvCommand);
    ghost var sent := command;
    command := ToLower(command);
    hide Split, Parsed, Received;
    assert IsWord(sent, "request_token") <==> command == "request_token";
    if command == "request_token" {
      var call := TakeApart(recvCommand + " " + address);
      r := Understood(call);
    } else {
      r := NoSuchCommand;
    }
  }

  /** The text is the word, up to the case of its letters. */
  ghost predicate IsWord(s: string, word: string) {
    |s| == |word| && forall i :: 0 <= i < |s| ==> LowerChar(s[i]) == word[i]
  }

  lemma SixFields(s: string)
    ensures var (a, s1) := Split(s); var (b, s2) := Split(s1); var (c, s3) := Split(s2);
            var (d, s4) := Split(s3); var (e, s5) := Split(s4);
            Fields(s, 6) == [a, b, c, d, e, Split(s5).0]
  {
    hide Split;
  }

  /** An address as the socket reports it. */
  ghost predicate IsAddress(a: string) {
    a != "" && forall i :: 0 <= i < |a| ==> !IsSpace(a[i])
  }

  lemma ParsedFields(file: string, start: int, end: int, mode: char, port: string, address: string, arguments: string)
    requires NoSpace(file) && NoSpace(port) && !IsSpace(mode) && IsAddress(address)
    requires arguments == Join([file, Printed(start), Printed(end), [mode], port]) + " " + address
    ensures Parsed(arguments) == TokenRequest(file, start, end, mode, Atoi(Trim(port)), address)
  {
    AtoiOfPrinted(start);
    AtoiOfPrinted(end);
    TrimKeepsWords([mode]);
    TrimKeepsWords(address);
    hide Printed, Atoi, Split, Trim, Fields, Join;
    FieldsOfArguments([file, Printed(start), Printed(end), [mode], port], address);
  }

  lemma FieldsOfArguments(tail: seq<string>, address: string)
    requires tail != [] && NoSpace(address) && forall i :: 0 <= i < |tail| ==> NoSpace(tail[i])
    ensures Fields(Join(tail) + " " + address, |tail| + 1) == tail + [address]
  {
    JoinOneMore(tail, address);
    FieldsOfJoin(tail + [address]);
  }

  lemma ArgumentsAreJoin(file: string, start: int, end: int, mode: char, port: string)
    ensures Arguments(file, start, end, mode) + " " + port == Join([file, Printed(start), Printed(end), [mode], port])
  {
    var three := [file, Printed(start), Printed(end)];
    assert Arguments(file, start, end, mode) == file + " " + Printed(start) + " " + Printed(end) + " " + [mode];
    hide *;
    JoinThree(file, Printed(start), Printed(end));
    JoinOneMore(three, [mode]);
    assert three + [[mode]] == [file, Printed(start), Printed(end), [mode]];
    JoinOneMore(three + [[mode]], port);
    assert three + [[mode]] + [port] == [file, Printed(start), Printed(end), [mode], port];
  }

  /** The round trip: the server recovers the file, the range, the mode, the port and the address exactly
      when the message leaves room for its terminator and the file's name has no space in it. */
  lemma RequestRoundTripIff(file: string, start: int, end: int, mode: char, port: nat, address: string)
    requires !IsSpace(mode) && IsAddress(address)
    ensures var message := RequestMessage(file, start, end, mode, port);
            HeardRequest(message, address) == Understood(TokenRequest(file, start, end, mode, port, address))
            <==> |message| < SERVER_BUFFER && NoSpace(file)
  {
    var message := "request_token " + Arguments(file, start, end, mode) + " " + Printed(port);
    AtoiOfPrinted(port);
    assert message == RequestMessage(file, start, end, mode, port);
    HeardFileHasNoSpace(message, address);
    hide *;
    if NoSpace(file) {
      ReadAsSent(file, start, end, mode, Printed(port), address);
      RequestIsHeard(message, address);
    }
  }

  lemma HeardFileHasNoSpace(message: string, address: string)
    ensures HeardRequest(message, address).Understood? ==> NoSpace(HeardRequest(message, address).call.file)
  {
    var text := Split(message).1 + " " + address;
    assert Parsed(text).file == Fields(text, 6)[0] == Split(text).0;
    hide Fields;
  }

  /** Of a name with a space the server reads the part before it. */
  lemma SpacedNameIsCut(a: string, b: string, start: int, end: int, mode: char, port: nat, address: string)
    requires NoSpace(a) && |RequestMessage(a + " " + b, start, end, mode, port)| < SERVER_BUFFER
    ensures var heard := HeardRequest(RequestMessage(a + " " + b, start, end, mode, port), address);
            heard.Understood? && heard.call.file == a
  {
    var message := RequestMessage(a + " " + b, start, end, mode, port);
    hide *;
    Spaced(a, b, start, end, mode, port);
    var tail := b + " " + Printed(start) + " " + Printed(end) + " " + [mode] + " " + Printed(port);
    FileBeforeSpace(a, tail, message, address);
  }

  lemma FileBeforeSpace(a: string, tail: string, message: string, address: string)
    requires NoSpace(a) && message == "request_token" + " " + (a + " " + tail) && |message| < SERVER_BUFFER
    ensures HeardRequest(message, address).Understood? && HeardRequest(message, address).call.file == a
  {
    hide *;
    SplitAtSpace("request_token", a + " " + tail) by { CommandIsWord(); }
    assert (a + " " + tail) + " " + address == a + " " + (tail + " " + address);
    SplitAtSpace(a, tail + " " + address);
    RequestIsHeard(message, address);
    FirstField(a + " " + (tail + " " + address));
  }

  lemma CommandIsWord()
    ensures NoSpace("request_token")
  {
  }

  lemma Spaced(a: string, b: string, start: int, end: int, mode: char, port: nat)
    ensures RequestMessage(a + " " + b, start, end, mode, port) == "request_token" + " " +
              (a + " " + (b + " " + Printed(start) + " " + Printed(end) + " " + [mode] + " " + Printed(port)))
  {
    hide Printed;
    var rest := " " + Printed(start) + " " + Printed(end) + " " + [mode];
    assert Arguments(a + " " + b, start, end, mode) == a + " " + (b + rest);
    assert b + " " + Printed(start) + " " + Printed(end) + " " + [mode] == b + rest;
  }

  lemma FirstField(text: string)
    ensures Parsed(text).file == Split(text).0
  {
    assert Fields(text, 6) == [Split(text).0] + Fields(Split(text).1, 5);
    hide Fields, Split;
  }

  /** A request of just 64 bytes, by a client on port 1110 for block 0 of a file with a name of 39. */
  lemma FullRequest(address: string)
    ensures var file := seq(39, _ => 'f');
            var message := RequestMessage(file, 0, 0, 'r', 1110);
            |message| == SERVER_BUFFER && HeardRequest(message, address) == Undefined
  {
    assert Decimal(11) == Decimal(1) + [DigitChar(1)] && Decimal(111) == Decimal(11) + [DigitChar(1)];
    assert |Printed(0)| == 1 && |Printed(1110)| == 4;
    hide Printed;
  }

  lemma RequestIsHeard(message: string, address: string)
    requires Split(message).0 == "request_token" || |message| >= SERVER_BUFFER
    ensures HeardRequest(message, address) ==
            if |message| < SERVER_BUFFER then Understood(Parsed(Split(message).1 + " " + address)) else Undefined
  {
    hide Split, Parsed;
  }

  /** A request that is cut off at the buffer's end is lost even if the stray terminator does no harm: the
      server then reads another port or no address. */
  lemma CutRequestIsMisread(file: string, start: int, end: int, mode: char, port: nat, address: string)
    requires NoSpace(file) && !IsSpace(mode) && IsAddress(address) && port > 0
    requires |RequestMessage(file, start, end, mode, port)| > SERVER_BUFFER
    ensures var (command, rest) := Split(Received(RequestMessage(file, start, end, mode, port), SERVER_BUFFER));
            && command == "request_token"
            && Parsed(rest + " " + address) != TokenRequest(file, start, end, mode, port, address)
  {
    var message, body := RequestMessage(file, start, end, mode, port), Arguments(file, start, end, mode);
    var head, digits := "request_token " + body + " ", Printed(port);
    AtoiOfPrinted(port);
    assert message == head + digits && digits == Decimal(port);
    hide *;
    WhatIsReceived(head, digits);
    if SERVER_BUFFER >= |head| {
      CutDecimalIsLess(port, SERVER_BUFFER - |head|);
      ReadAsSent(file, start, end, mode, digits[..SERVER_BUFFER - |head|], address);
    } else {
      ThreeSpaces(file, start, end, mode);
      CutEarly(body, head, address);
    }
  }

  lemma WhatIsReceived(head: string, digits: string)
    ensures |head| <= SERVER_BUFFER < |head + digits| ==>
              Received(head + digits, SERVER_BUFFER) == head + digits[..SERVER_BUFFER - |head|]
    ensures SERVER_BUFFER < |head| ==> Received(head + digits, SERVER_BUFFER) == head[..SERVER_BUFFER]
  {
  }

  /** `part` stands where the port should. */
  lemma ReadAsSent(file: string, start: int, end: int, mode: char, part: string, address: string)
    requires NoSpace(file) && NoSpace(part) && !IsSpace(mode) && IsAddress(address)
    ensures var message := "request_token " + Arguments(file, start, end, mode) + " " + part;
            && Split(message).0 == "request_token"
            && Parsed(Split(message).1 + " " + address) ==
               TokenRequest(file, start, end, mode, Atoi(Trim(part)), address)
  {
    var arguments := Arguments(file, start, end, mode) + " " + part;
    hide *;
    assert "request_token " + Arguments(file, start, end, mode) + " " + part == "request_token" + " " + arguments;
    SplitAtSpace("request_token", arguments) by { CommandIsWord(); }
    ArgumentsAreJoin(file, start, end, mode, part);
    ParsedFields(file, start, end, mode, part, address, arguments + " " + address);
  }

  /** A message cut off before the port loses the address. */
  lemma CutEarly(body: string, head: string, address: string)
    requires multiset(body)[' '] <= 3 && IsAddress(address)
    requires head == "request_token " + body + " " && SERVER_BUFFER < |head|
    ensures Split(head[..SERVER_BUFFER]).0 == "request_token"
    ensures Parsed(Split(head[..SERVER_BUFFER]).1 + " " + address).address == ""
  {
    var kept := body[..SERVER_BUFFER - 14];
    assert body == kept + body[SERVER_BUFFER - 14..];
    assert head[..SERVER_BUFFER] == "request_token" + " " + kept;
    hide Parsed, Split, Fields;
    SplitAtSpace("request_token", kept);
    OneMoreSpace(kept, address, 3);
    NoFieldPastSpaces(kept + " " + address, 5);
    assert Trim("") == "" by { TrimKeepsWords(""); }
    AddressField(kept + " " + address);
  }

  lemma AddressField(arguments: string)
    ensures Parsed(arguments).address == Trim(Fields(arguments, 6)[5])
  {
  }

  lemma OneMoreSpace(s: string, t: string, n: nat)
    requires multiset(s)[' '] <= n && NoSpace(t)
    ensures multiset(s + " " + t)[' '] <= n + 1
  {
  }

  lemma ThreeSpaces(file: string, start: int, end: int, mode: char)
    requires NoSpace(file) && !IsSpace(mode)
    ensures multiset(Arguments(file, start, end, mode))[' '] == 3
  {
    AtoiOfPrinted(start);
    AtoiOfPrinted(end);
    hide Printed, Atoi, Trim;
  }

  // ------------------------------------------------------------------ a revoke

  datatype RevokeCall = RevokeCall(file: string, start: int, end: int, mode: char)

  /** The revoke that the server sends on behalf of a reader. */
  function RevokeForReader(file: string, start: int, end: int, mode: char): string {
    "revoke " + Arguments(file, start, end, mode)
  }

  /** The revoke that it sends on behalf of a writer. */
  function RevokeForWriter(start: int, end: int, mode: char): string {
    "revoke " + FilelessArguments(start, end, mode)
  }

  function FilelessArguments(start: int, end: int, mode: char): string {
    Printed(start) + " " + Printed(end) + " " + [mode]
  }

  function ParsedRevoke(arguments: string): RevokeCall {
    var f := Fields(arguments, 4);
    RevokeCall(f[0], Atoi(Trim(f[1])), Atoi(Trim(f[2])), FirstChar(Trim(f[3])))
  }

  /** `HandleRevoker`: the holder takes the message apart. */
  ghost function HeardRevoke(message: string): Heard<RevokeCall> {
    var (command, rest) := Split(message);
    if |message| >= CLIENT_BUFFER then Undefined
    else if IsWord(command, "revoke") then Understood(ParsedRevoke(rest))
    else NoSuchCommand
  }

  method TakeRevokeApart(text: string) returns (r: RevokeCall)
    ensures r == ParsedRevoke(text)
  {
    hide IsFirstToken;
    var arguments := text;
    var file, start, end, mode;
    file, arguments := NextToken(arguments);
    start, arguments := NextToken(arguments);
    end, arguments := NextToken(arguments);
    mode, arguments := NextToken(arguments);
    FourFields(text);
    hide Split, Fields, Atoi, Trim;
    r := RevokeCall(file, Atoi(Trim(start)), Atoi(Trim(end)), FirstChar(Trim(mode)));
  }

  method ReceiveRevoke(message: string) returns (r: Heard<RevokeCall>)
    ensures r == HeardRevoke(message)
  {
    hide IsFirstToken;
    var recvCommand := Received(message, CLIENT_BUFFER);
    if |recvCommand| == CLIENT_BUFFER {
      return Undefined;
    }
    var command;
    command, recvCommand := NextToken(recvCommand);
    ghost var sent := command;
    command := ToLower(command);
    assert IsWord(sent, "revoke") <==> command == "revoke";
    if command == "revoke" {
      hide *;
      var call := TakeRevokeApart(recvCommand);
      r := Understood(call);
    } else {
      r := NoSuchCommand;
    }
  }

  lemma FourFields(s: string)
    ensures var (a, s1) := Split(s); var (b, s2) := Split(s1); var (c, s3) := Split(s2);
            Fields(s, 4) == [a, b, c, Split(s3).0]
  {
    hide *;
    var s1 := Split(s).1;
    var s2 := Split(s1).1;
    FieldAfterField(s, 4);
    FieldAfterField(s1, 3);
    FieldAfterField(s2, 2);
    FieldAfterField(Split(s2).1, 1);
  }

  lemma FieldsOfFour(a: string, b: string, c: string, d: string)
    requires NoSpace(a) && NoSpace(b) && NoSpace(c) && NoSpace(d)
    ensures Fields(a + " " + b + " " + c + " " + d, 4) == [a, b, c, d]
  {
    JoinThree(a, b, c);
    JoinOneMore([a, b, c], d);
    FieldsOfJoin([a, b, c, d]);
    assert [a, b, c] + [d] == [a, b, c, d];
  }

  lemma FieldsOfThree(a: string, b: string, c: string)
    requires NoSpace(a) && NoSpace(b) && NoSpace(c)
    ensures Fields(a + " " + b + " " + c, 4) == [a, b, c, ""]
  {
    JoinThree(a, b, c);
    OneFieldTooMany([a, b, c]);
    assert [a, b, c] + [""] == [a, b, c, ""];
  }

  lemma JoinThree(a: string, b: string, c: string)
    ensures Join([a, b, c]) == a + " " + b + " " + c
  {
    assert Join([a]) == a;
    JoinOneMore([a], b);
    assert [a] + [b] == [a, b];
    JoinOneMore([a, b], c);
    assert [a, b] + [c] == [a, b, c];
    hide Join;
  }

  lemma FieldsOfRead(file: string, start: int, end: int, mode: char)
    requires NoSpace(file) && !IsSpace(mode)
    ensures ParsedRevoke(Arguments(file, start, end, mode)) == RevokeCall(file, start, end, mode)
  {
    AtoiOfPrinted(start);
    AtoiOfPrinted(end);
    TrimKeepsWords([mode]);
    hide Printed, Atoi, Trim, Fields;
    FieldsOfFour(file, Printed(start), Printed(end), [mode]);
  }

  lemma FieldsOfWrite(start: int, end: int)
    ensures ParsedRevoke(FilelessArguments(start, end, 'w')) == RevokeCall(Printed(start), end, 0, '\0')
  {
    AtoiOfPrinted(start);
    AtoiOfPrinted(end);
    TrimKeepsWords(['w']);
    TrimKeepsWords("");
    assert LeadingDigits(['w']) == "" && Atoi(['w']) == 0;
    hide Printed, Atoi, Trim, Fields;
    FieldsOfThree(Printed(start), Printed(end), ['w']);
  }

  lemma AfterCommand(body: string)
    ensures Split("revoke " + body) == ("revoke", body) && IsWord("revoke", "revoke")
  {
    assert "revoke " + body == "revoke" + " " + body;
    SplitAtSpace("revoke", body);
    hide Split;
  }

  /** The round trip of a reader's revoke: everything is recovered exactly when the message leaves room for
      its terminator. */
  lemma ReaderRevokeRoundTripIff(file: string, start: int, end: int, mode: char)
    requires NoSpace(file) && !IsSpace(mode)
    ensures var message := RevokeForReader(file, start, end, mode);
            HeardRevoke(message) == Understood(RevokeCall(file, start, end, mode)) <==> |message| < CLIENT_BUFFER
  {
    AfterCommand(Arguments(file, start, end, mode));
    FieldsOfRead(file, start, end, mode);
    hide Split, ParsedRevoke, Arguments, IsWord;
  }

  /** A reader's revoke of just 32 bytes, for block 0 of a file with a name of 19. */
  lemma FullRevoke()
    ensures var file := seq(19, _ => 'f');
            var message := RevokeForReader(file, 0, 0, 'r');
            |message| == CLIENT_BUFFER && HeardRevoke(message) == Undefined
  {
    assert |Printed(0)| == 1;
    hide Printed;
  }

  /** A reader's revoke that is cut off is not recovered either, even if the stray terminator does no harm. */
  lemma CutRevokeIsMisread(file: string, start: int, end: int, mode: char)
    requires NoSpace(file) && mode != '\0' && |RevokeForReader(file, start, end, mode)| > CLIENT_BUFFER
    ensures var (command, rest) := Split(Received(RevokeForReader(file, start, end, mode), CLIENT_BUFFER));
            command == "revoke" && ParsedRevoke(rest) != RevokeCall(file, start, end, mode)
  {
    var body := Arguments(file, start, end, mode);
    var kept := body[..CLIENT_BUFFER - 7];
    assert Received("revoke " + body, CLIENT_BUFFER) == "revoke " + kept;
    AfterCommand(kept);
    CutArguments(file, start, end, mode, CLIENT_BUFFER - 7);
    hide *;
  }

  lemma CutArguments(file: string, start: int, end: int, mode: char, n: nat)
    requires NoSpace(file) && n < |Arguments(file, start, end, mode)|
    ensures ParsedRevoke(Arguments(file, start, end, mode)[..n]).mode == '\0'
  {
    AtoiOfPrinted(start);
    AtoiOfPrinted(end);
    hide ParsedRevoke, Printed, Atoi;
    CutModeIsLost(file, Printed(start), Printed(end), n);
    var front := file + " " + Printed(start) + " " + Printed(end) + " ";
    assert Arguments(file, start, end, mode)[..n] == front[..n];
  }

  lemma CutModeIsLost(a: string, b: string, c: string, n: nat)
    requires NoSpace(a) && NoSpace(b) && NoSpace(c) && n <= |a + " " + b + " " + c + " "|
    ensures ParsedRevoke((a + " " + b + " " + c + " ")[..n]).mode == '\0'
  {
    var front := a + " " + b + " " + c;
    var kept := (front + " ")[..n];
    hide Split, Fields;
    if n == |front| + 1 {
      FieldsOfFour(a, b, c, "");
      assert kept == front + " " + "";
    } else {
      assert kept == front[..n];
      FewSpaces(a, b, c, n);
      NoFieldPastSpaces(kept, 3);
    }
    TrimKeepsWords("");
  }

  lemma FewSpaces(a: string, b: string, c: string, n: nat)
    requires NoSpace(a) && NoSpace(b) && NoSpace(c) && n <= |a + " " + b + " " + c|
    ensures multiset((a + " " + b + " " + c)[..n])[' '] <= 2
  {
    var front := a + " " + b + " " + c;
    assert multiset(front)[' '] == 2;
    assert front == front[..n] + front[n..];
  }

  /** A writer's revoke leaves the file out, and every field is read one place off.  What the holder then
      does is what was meant only for block 0 of a file called "0". */
  lemma WriterRevokeIsMisread(file: string, start: int, end: int)
    requires |RevokeForWriter(start, end, 'w')| < CLIENT_BUFFER
    ensures HeardRevoke(RevokeForWriter(start, end, 'w')) == Understood(RevokeCall(Printed(start), end, 0, '\0'))
    ensures var r := HeardRevoke(RevokeForWriter(start, end, 'w')).call;
            r.file == file && r.start == start && r.end == end <==> file == "0" && start == 0 && end == 0
  {
    AfterCommand(FilelessArguments(start, end, 'w'));
    FieldsOfWrite(start, end);
    AtoiOfPrinted(start);
    assert Printed(0) == "0";
    hide Split, ParsedRevoke, FilelessArguments, Printed, Atoi, Trim, IsWord;
  }

  function PowerOfTen(d: nat): nat {
    if d == 0 then 1 else 10 * PowerOfTen(d - 1)
  }

  lemma {:induction false} DecimalIsShort(n: nat, d: nat)
    requires d > 0 && n < PowerOfTen(d)
    ensures |Decimal(n)| <= d
  {
    if n >= 10 {
      DecimalIsShort(n / 10, d - 1);
    }
  }

  lemma BlockIsShort(n: nat)
    requires n <= MAX_BLOCK
    ensures |Printed(n)| <= 10
  {
    assert PowerOfTen(3) == 1000;
    assert PowerOfTen(6) == 1000 * 1000;
    assert PowerOfTen(9) == 1000 * 1000 * 1000;
    DecimalIsShort(n, 10);
  }

  /** A writer's revoke always fits. */
  lemma WriterRevokeFits(start: nat, end: nat)
    requires start <= MAX_BLOCK && end <= MAX_BLOCK
    ensures |RevokeForWriter(start, end, 'w')| < CLIENT_BUFFER
  {
    BlockIsShort(start);
    BlockIsShort(end);
    hide Printed;
  }

  // ------------------------------------------------------------------ a reply

  function GrantMessage(start: int, end: int): string {
    Printed(start) + " " + Printed(end)
  }

  lemma GrantIsNoRefusal(start: int, end: int)
    ensures GrantMessage(start, end) != "nack"
  {
    assert GrantMessage(start, end)[|Printed(start)|] == ' ';
    assert ' ' !in "nack";
  }

  /** The client adds whatever two numbers it reads, unless the reply is one of two words. */
  method ReceiveReply(message: string) returns (granted: Option<(int, int)>)
    ensures granted == if IsWord(Received(message, CLIENT_BUFFER), "locking_failed") ||
                          IsWord(Received(message, CLIENT_BUFFER), "failed") then None
                       else Some(NumbersOf(Received(message, CLIENT_BUFFER)))
  {
    hide IsFirstToken;
    var token := Received(message, CLIENT_BUFFER);
    ghost var sent := token;
    var lower := ToLower(token);
    assert IsWord(sent, "locking_failed") <==> lower == "locking_failed";
    assert IsWord(sent, "failed") <==> lower == "failed";
    if lower == "locking_failed" || lower == "failed" {
      return None;
    }
    var tokStart, tokEnd;
    tokStart, token := NextToken(token);
    tokEnd, token := NextToken(token);
    return Some((Atoi(Trim(tokStart)), Atoi(Trim(tokEnd))));
  }

  function NumbersOf(token: string): (int, int) {
    var (a, rest) := Split(token);
    (Atoi(Trim(a)), Atoi(Trim(Split(rest).0)))
  }

  lemma GrantNumbers(start: nat, end: nat)
    requires start <= MAX_BLOCK && end <= MAX_BLOCK
    ensures NumbersOf(GrantMessage(start, end)) == (start, end)
  {
    AtoiOfPrinted(start);
    AtoiOfPrinted(end);
    SplitAtSpace(Printed(start), Printed(end));
    hide Split, Printed;
  }

  /** A grant is read as it was sent; the refusal "nack" is read as a grant of block 0. */
  lemma GrantRoundTrip(start: nat, end: nat)
    requires start <= MAX_BLOCK && end <= MAX_BLOCK
    ensures var token := Received(GrantMessage(start, end), CLIENT_BUFFER);
            !IsWord(token, "locking_failed") && !IsWord(token, "failed") && NumbersOf(token) == (start, end)
    ensures !IsWord("nack", "locking_failed") && !IsWord("nack", "failed") && NumbersOf("nack") == (0, 0)
  {
    AtoiOfPrinted(start);
    AtoiOfPrinted(end);
    BlockIsShort(start);
    BlockIsShort(end);
    SplitAtSpace(Printed(start), Printed(end));
    var token := GrantMessage(start, end);
    assert token[|Printed(start)|] == ' ';
    SplitAtSpace("nack", "");
    SplitAtSpace("", "");
    TrimKeepsWords("nack");
    TrimKeepsWords("");
    assert LeadingDigits("nack") == "" && LeadingDigits("") == "";
    assert LowerChar(' ') == ' ' && ' ' !in "locking_failed" && ' ' !in "failed";
    hide Split, Printed;
  }

  /** Numbers as they are printed, digit by digit. */
  lemma PrintedDigits(n: nat)
    ensures n < 10 ==> |Printed(n)| == 1 && Printed(n)[0] as int == 48 + n
    ensures n >= 10 ==> |Printed(n)| == |Printed(n / 10)| + 1
    ensures n >= 10 ==> Printed(n) == Printed(n / 10) + [Printed(n)[|Printed(n)| - 1]]
    ensures n >= 10 ==> Printed(n)[|Printed(n)| - 1] as int == 48 + n % 10
    ensures n > 0 ==> Printed(0 - (n as int)) == "-" + Printed(n)
  {
  }

  /** The messages as they look on the wire. */
  lemma MessageTexts()
    ensures RequestMessage("f", 0, 5, 'r', 17) == "request_token f 0 5 r 17"
    ensures RevokeForReader("f", 0, 5, 'r') == "revoke f 0 5 r" && RevokeForWriter(0, 5, 'w') == "revoke 0 5 w"
    ensures GrantMessage(0, 5) == "0 5"
  {
    PrintedDigits(0);
    PrintedDigits(5);
    PrintedDigits(1);
    PrintedDigits(17);
    hide Printed;
    assert Printed(0) == "0" && Printed(5) == "5" && Printed(17) == "17";
  }
}
