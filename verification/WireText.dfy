/** The text on the wire: JSON objects with Go's escaping, numbers in decimal, padded base64. The
    encodings lose nothing, and the sizes the model computes are the lengths of these texts. */
module WireText {
  import opened Basics
  import opened AuthProto
  import opened PacketSize

  type Byte = x: int | 0 <= x < 0x100

  // ----- UTF-8 (RFC 3629 section 3) -----

  function Utf8Rune(c: char): seq<Byte> {
    var n := c as int;
    if n < 0x80 then [n]
    else if n < 0x800 then [0xC0 + n / 0x40, 0x80 + n % 0x40]
    else if n < 0x1_0000 then [0xE0 + n / 0x1000, 0x80 + n / 0x40 % 0x40, 0x80 + n % 0x40]
    else [0xF0 + n / 0x4_0000, 0x80 + n / 0x1000 % 0x40, 0x80 + n / 0x40 % 0x40, 0x80 + n % 0x40]
  }

  function Utf8(s: string): seq<Byte> {
    if s == "" then [] else Utf8(s[..|s| - 1]) + Utf8Rune(s[|s| - 1])
  }

  /** The byte length of a string is the length of its UTF-8 text. */
  lemma {:induction false} ByteLenIsLength(s: string)
    ensures |Utf8(s)| == ByteLen(s)
  {
    if s == "" {
      AsciiByteLen("");
    } else {
      ByteLenIsLength(s[..|s| - 1]);
      ByteLenLast(s);
    }
  }

  function CodePoints(s: string): seq<nat> { seq(|s|, i requires 0 <= i < |s| => s[i] as int) }

  /** How many bytes a code point takes that begins with this byte. */
  function Utf8Width(lead: int): nat {
    if lead < 0xC0 then 1 else if lead < 0xE0 then 2 else if lead < 0xF0 then 3 else 4
  }

  function Utf8Value(b: seq<int>): int
    requires 1 <= |b| <= 4
  {
    if |b| == 1 then b[0]
    else if |b| == 2 then 0x40 * (b[0] - 0xC0) + (b[1] - 0x80)
    else if |b| == 3 then 0x1000 * (b[0] - 0xE0) + 0x40 * (b[1] - 0x80) + (b[2] - 0x80)
    else 0x4_0000 * (b[0] - 0xF0) + 0x1000 * (b[1] - 0x80) + 0x40 * (b[2] - 0x80) + (b[3] - 0x80)
  }

  function Utf8Decoded(b: seq<int>): seq<int>
    decreases |b|
  {
    if b == [] || Utf8Width(b[0]) > |b| then []
    else [Utf8Value(b[..Utf8Width(b[0])])] + Utf8Decoded(b[Utf8Width(b[0])..])
  }

  lemma Utf8RuneRoundTrip(c: char)
    ensures |Utf8Rune(c)| == Utf8Width(Utf8Rune(c)[0]) == RuneBytes(c)
    ensures Utf8Value(Utf8Rune(c)) == c as int
  {
    var n := c as int;
    assert n == 0x40 * (n / 0x40) + n % 0x40;
    assert n / 0x40 == 0x40 * (n / 0x1000) + n / 0x40 % 0x40;
    assert n / 0x1000 == 0x40 * (n / 0x4_0000) + n / 0x1000 % 0x40;
  }

  lemma Utf8DecodedRune(c: char, rest: seq<int>)
    ensures Utf8Decoded(Utf8Rune(c) + rest) == [c as int] + Utf8Decoded(rest)
  {
    Utf8RuneRoundTrip(c);
    var b := Utf8Rune(c) + rest;
    assert b[..|Utf8Rune(c)|] == Utf8Rune(c) && b[|Utf8Rune(c)|..] == rest;
  }

  lemma LastCodePoint(s: string, rest: seq<int>)
    requires s != ""
    ensures CodePoints(s) + rest == CodePoints(s[..|s| - 1]) + ([s[|s| - 1] as int] + rest)
  {
  }

  lemma {:induction false} Utf8DecodedPrefix(s: string, rest: seq<int>)
    ensures Utf8Decoded(Utf8(s) + rest) == CodePoints(s) + Utf8Decoded(rest)
  {
    if s == "" {
      assert Utf8(s) + rest == rest;
    } else {
      var n := |s| - 1;
      var front, tail := Utf8(s[..n]), Utf8Rune(s[n]) + rest;
      assert Utf8(s) + rest == front + tail;
      Utf8DecodedPrefix(s[..n], tail);
      Utf8DecodedRune(s[n], rest);
      LastCodePoint(s, Utf8Decoded(rest));
    }
  }

  /** UTF-8 loses nothing. */
  lemma Utf8RoundTrip(s: string)
    ensures Utf8Decoded(Utf8(s)) == CodePoints(s)
  {
    Utf8DecodedPrefix(s, []);
    assert Utf8(s) + [] == Utf8(s);
  }

  // ----- strings (RFC 8259 section 7) -----

  function HexDigit(n: nat): (c: char)
    requires n < 16
    ensures '0' <= c <= '9' || 'a' <= c <= 'f'
  {
    "0123456789abcdef"[n]
  }

  function Hex4(n: nat): string
    requires n < 0x1_0000
  {
    [HexDigit(n / 0x1000), HexDigit(n / 0x100 % 16), HexDigit(n / 16 % 16), HexDigit(n % 16)]
  }

  predicate EscapedByNumber(c: char) {
    c as int < 0x20 || c in {'<', '>', '&'} || c as int == 0x2028 || c as int == 0x2029
  }

  function EscapedRune(c: char): string {
    if c == '\"' || c == '\\' then ['\\', c]
    else if c == '\n' then ['\\', 'n']
    else if c == '\r' then ['\\', 'r']
    else if c == '\t' then ['\\', 't']
    else if EscapedByNumber(c) then ['\\', 'u'] + Hex4(c as int)
    else [c]
  }

  function Escaped(s: string): string {
    if s == "" then "" else Escaped(s[..|s| - 1]) + EscapedRune(s[|s| - 1])
  }

  function JsonString(s: string): string { "\"" + Escaped(s) + "\"" }

  lemma Hex4Ascii(n: nat)
    requires n < 0x1_0000
    ensures forall i | 0 <= i < 4 :: Hex4(n)[i] as int < 0x80
  {
  }

  lemma EscapedRuneSize(c: char)
    ensures ByteLen(EscapedRune(c)) == EscapedBytes(c)
  {
    if EscapedRune(c) == [c] {
      assert [c][..0] == "";
      AsciiByteLen("");
      ByteLenLast([c]);
    } else {
      if |EscapedRune(c)| > 2 { Hex4Ascii(c as int); }
      AsciiByteLen(EscapedRune(c));
    }
  }

  lemma {:induction false} EscapedSize(s: string)
    ensures ByteLen(Escaped(s)) == EscapedLen(s)
  {
    if s == "" {
      AsciiByteLen("");
    } else {
      EscapedSize(s[..|s| - 1]);
      EscapedRuneSize(s[|s| - 1]);
      ByteLenAppend(Escaped(s[..|s| - 1]), EscapedRune(s[|s| - 1]));
    }
  }

  /** The size of a JSON string is the length of its text, quotes included. */
  lemma StringSizeIsLength(s: string)
    ensures ByteLen(JsonString(s)) == StringSize(s)
  {
    EscapedSize(s);
    AsciiByteLen("\"");
    ByteLenAppend("\"", Escaped(s));
    ByteLenAppend("\"" + Escaped(s), "\"");
  }

  // ----- reading a string back -----

  function HexValue(c: char): nat {
    if '0' <= c <= '9' then c as int - '0' as int
    else if 'a' <= c <= 'f' then c as int - 'a' as int + 10
    else 0
  }

  /** The code point at the head of escaped text, and how many characters it takes. */
  function FirstRune(t: string): (nat, nat)
    requires t != ""
  {
    if t[0] != '\\' || |t| < 2 then (t[0] as int, 1)
    else if t[1] == 'n' then ('\n' as int, 2)
    else if t[1] == 'r' then ('\r' as int, 2)
    else if t[1] == 't' then ('\t' as int, 2)
    else if t[1] == 'u' && |t| >= 6 then
      (Hex4Value(t[2..6]), 6)
    else (t[1] as int, 2)
  }

  function Unescaped(t: string): seq<int>
    decreases |t|
  {
    if t == "" then []
    else
      var (c, n) := FirstRune(t);
      if n <= |t| then [c] + Unescaped(t[n..]) else []
  }

  lemma HexRoundTrip(n: nat)
    requires n < 16
    ensures HexValue(HexDigit(n)) == n
  {
  }

  lemma HexDigitsOf(n: nat, a: nat, b: nat, c: nat, d: nat)
    requires a == n / 0x1000 && b == n / 0x100 % 16 && c == n / 16 % 16 && d == n % 16
    ensures 0x1000 * a + 0x100 * b + 16 * c + d == n
  {
    assert n / 0x100 == 16 * a + b;
    assert n / 16 == 16 * (n / 0x100) + c;
    assert n == 16 * (n / 16) + d;
  }

  function Hex4Value(h: string): nat
    requires |h| == 4
  {
    0x1000 * HexValue(h[0]) + 0x100 * HexValue(h[1]) + 16 * HexValue(h[2]) + HexValue(h[3])
  }

  lemma Hex4RoundTrip(n: nat)
    requires n < 0x1_0000
    ensures Hex4Value(Hex4(n)) == n
  {
    var a, b, c, d := n / 0x1000, n / 0x100 % 16, n / 16 % 16, n % 16;
    HexDigitsOf(n, a, b, c, d);
    HexRoundTrip(a);
    HexRoundTrip(b);
    HexRoundTrip(c);
    HexRoundTrip(d);
  }

  lemma FirstRuneOfEscaped(c: char, rest: string)
    ensures FirstRune(EscapedRune(c) + rest) == (c as int, |EscapedRune(c)|)
    ensures (EscapedRune(c) + rest)[|EscapedRune(c)|..] == rest
  {
    if |EscapedRune(c)| == 6 {
      Hex4RoundTrip(c as int);
      var t := EscapedRune(c) + rest;
      assert t[2..6] == Hex4(c as int);
    }
  }

  lemma UnescapedRune(c: char, rest: string)
    ensures Unescaped(EscapedRune(c) + rest) == [c as int] + Unescaped(rest)
  {
    FirstRuneOfEscaped(c, rest);
  }

  lemma EscapedLast(s: string, rest: string)
    requires s != ""
    ensures var n := |s| - 1; Escaped(s) + rest == Escaped(s[..n]) + (EscapedRune(s[n]) + rest)
  {
    Regroup(Escaped(s[..|s| - 1]), EscapedRune(s[|s| - 1]), rest);
  }

  lemma Regroup(a: string, b: string, c: string)
    ensures (a + b) + c == a + (b + c)
  {
  }

  lemma {:induction false} UnescapedPrefix(s: string, rest: string)
    ensures Unescaped(Escaped(s) + rest) == CodePoints(s) + Unescaped(rest)
  {
    if s == "" {
      assert Escaped(s) + rest == rest;
    } else {
      var n := |s| - 1;
      var front, tail := s[..n], EscapedRune(s[n]) + rest;
      EscapedLast(s, rest);
      UnescapedPrefix(front, tail);
      UnescapedRune(s[n], rest);
      LastCodePoint(s, Unescaped(rest));
    }
  }

  /** Escaping loses nothing. */
  lemma EscapeRoundTrip(s: string)
    ensures Unescaped(Escaped(s)) == CodePoints(s)
  {
    UnescapedPrefix(s, "");
    assert Escaped(s) + "" == Escaped(s);
  }

  // ----- numbers and objects -----

  function Number(n: int): string { if n < 0 then "-" + Decimal(-n) else Decimal(n) }

  lemma NumberSizeIsLength(n: int)
    ensures ByteLen(Number(n)) == NumberSize(n)
  {
    var digits := Decimal(if n < 0 then -n else n);
    assert forall i | 0 <= i < |digits| :: digits[i] in digits;
    AsciiByteLen(Number(n));
  }

  /** The text so far, a piece of the frame, and a value. */
  function Then(before: string, frame: string, value: string): string { before + frame + value }

  lemma ThenSize(before: string, frame: string, value: string)
    requires forall i | 0 <= i < |frame| :: frame[i] as int < 0x80
    ensures ByteLen(Then(before, frame, value)) == ByteLen(before) + |frame| + ByteLen(value)
  {
    AsciiByteLen(frame);
    ByteLenAppend(before, frame);
    ByteLenAppend(before + frame, value);
  }

  const TYPE := "{\"type\":"
  const SERVER_ID := ",\"server_id\":"
  const CLIENT_ID := ",\"client_id\":"
  const PORT := ",\"port\":"
  const CLIENT_NONCE := ",\"client_nonce\":"
  const SERVER_NONCE := ",\"server_nonce\":"
  const TOKEN := ",\"token\":"
  const TIMESTAMP := ",\"timestamp\":"
  const EXPIRES_AT := ",\"expires_at\":"

  /** The members all three messages begin with, and the rest of each, from the texts of the values. */
  function Opening(msgType: string, serverID: string, clientID: string, port: string, clientNonce: string): string {
    Then(Then(Then(Then(Then("", TYPE, msgType), SERVER_ID, serverID), CLIENT_ID, clientID), PORT, port), CLIENT_NONCE, clientNonce)
  }

  function RequestMembers(opening: string, timestamp: string): string {
    Then(Then(opening, TIMESTAMP, timestamp), "}", "")
  }

  function ChallengeMembers(opening: string, serverNonce: string, expiresAt: string): string {
    Then(Then(Then(opening, SERVER_NONCE, serverNonce), EXPIRES_AT, expiresAt), "}", "")
  }

  function ResponseMembers(opening: string, serverNonce: string, token: string, timestamp: string): string {
    Then(Then(Then(Then(opening, SERVER_NONCE, serverNonce), TOKEN, token), TIMESTAMP, timestamp), "}", "")
  }

  lemma IDsLength(msgType: string, serverID: string, clientID: string)
    ensures ByteLen(Then(Then(Then("", TYPE, msgType), SERVER_ID, serverID), CLIENT_ID, clientID))
            == 34 + ByteLen(msgType) + ByteLen(serverID) + ByteLen(clientID)
  {
    AsciiByteLen("");
    var t1 := Then("", TYPE, msgType);
    var t2 := Then(t1, SERVER_ID, serverID);
    ThenSize("", TYPE, msgType);
    ThenSize(t1, SERVER_ID, serverID);
    ThenSize(t2, CLIENT_ID, clientID);
    assert |TYPE| == 8 && |SERVER_ID| == 13 && |CLIENT_ID| == 13;
  }

  lemma PortAndNonceLength(ids: string, port: string, clientNonce: string)
    ensures ByteLen(Then(Then(ids, PORT, port), CLIENT_NONCE, clientNonce)) == ByteLen(ids) + 24 + ByteLen(port) + ByteLen(clientNonce)
  {
    ThenSize(ids, PORT, port);
    ThenSize(Then(ids, PORT, port), CLIENT_NONCE, clientNonce);
    assert |PORT| == 8 && |CLIENT_NONCE| == 16;
  }

  lemma OpeningLength(msgType: string, serverID: string, clientID: string, port: string, clientNonce: string)
    ensures ByteLen(Opening(msgType, serverID, clientID, port, clientNonce))
            == 58 + ByteLen(msgType) + ByteLen(serverID) + ByteLen(clientID) + ByteLen(port) + ByteLen(clientNonce)
  {
    var ids := Then(Then(Then("", TYPE, msgType), SERVER_ID, serverID), CLIENT_ID, clientID);
    IDsLength(msgType, serverID, clientID);
    PortAndNonceLength(ids, port, clientNonce);
  }

  lemma RequestLength(opening: string, timestamp: string)
    ensures ByteLen(RequestMembers(opening, timestamp)) == ByteLen(opening) + 14 + ByteLen(timestamp)
  {
    AsciiByteLen("");
    ThenSize(opening, TIMESTAMP, timestamp);
    ThenSize(Then(opening, TIMESTAMP, timestamp), "}", "");
    assert |TIMESTAMP| == 13;
  }

  lemma ChallengeLength(opening: string, serverNonce: string, expiresAt: string)
    ensures ByteLen(ChallengeMembers(opening, serverNonce, expiresAt)) == ByteLen(opening) + 31 + ByteLen(serverNonce) + ByteLen(expiresAt)
  {
    AsciiByteLen("");
    var t1 := Then(opening, SERVER_NONCE, serverNonce);
    ThenSize(opening, SERVER_NONCE, serverNonce);
    ThenSize(t1, EXPIRES_AT, expiresAt);
    ThenSize(Then(t1, EXPIRES_AT, expiresAt), "}", "");
    assert |SERVER_NONCE| == 16 && |EXPIRES_AT| == 14;
  }

  lemma ResponseLength(opening: string, serverNonce: string, token: string, timestamp: string)
    ensures ByteLen(ResponseMembers(opening, serverNonce, token, timestamp))
            == ByteLen(opening) + 39 + ByteLen(serverNonce) + ByteLen(token) + ByteLen(timestamp)
  {
    AsciiByteLen("");
    var t1 := Then(opening, SERVER_NONCE, serverNonce);
    var t2 := Then(t1, TOKEN, token);
    ThenSize(opening, SERVER_NONCE, serverNonce);
    ThenSize(t1, TOKEN, token);
    ThenSize(t2, TIMESTAMP, timestamp);
    ThenSize(Then(t2, TIMESTAMP, timestamp), "}", "");
    assert |SERVER_NONCE| == 16 && |TOKEN| == 9 && |TIMESTAMP| == 13;
  }

  function OpeningText(msgType: string, serverID: string, clientID: string, port: Uint16, clientNonce: string): string {
    Opening(JsonString(msgType), JsonString(serverID), JsonString(clientID), Number(port), JsonString(clientNonce))
  }

  function RequestText(m: ChallengeRequest): string {
    RequestMembers(OpeningText(m.msgType, m.serverID, m.clientID, m.port, m.clientNonce), Number(m.timestamp))
  }

  function ChallengeText(m: Challenge): string {
    ChallengeMembers(OpeningText(m.msgType, m.serverID, m.clientID, m.port, m.clientNonce), JsonString(m.serverNonce), Number(m.expiresAt))
  }

  function ResponseText(m: ChallengeResponse): string {
    ResponseMembers(OpeningText(m.msgType, m.serverID, m.clientID, m.port, m.clientNonce),
                    JsonString(m.serverNonce), JsonString(m.token), Number(m.timestamp))
  }

  lemma OpeningSize(msgType: string, serverID: string, clientID: string, port: Uint16, clientNonce: string)
    ensures ByteLen(OpeningText(msgType, serverID, clientID, port, clientNonce))
            == 58 + StringSize(msgType) + StringSize(serverID) + StringSize(clientID) + NumberSize(port) + StringSize(clientNonce)
  {
    OpeningLength(JsonString(msgType), JsonString(serverID), JsonString(clientID), Number(port), JsonString(clientNonce));
    StringSizeIsLength(msgType);
    StringSizeIsLength(serverID);
    StringSizeIsLength(clientID);
    NumberSizeIsLength(port);
    StringSizeIsLength(clientNonce);
  }

  /** The sizes of the three messages are the lengths of their texts. */
  lemma RequestSizeIsLength(m: ChallengeRequest)
    ensures ByteLen(RequestText(m)) == RequestSize(m)
  {
    OpeningSize(m.msgType, m.serverID, m.clientID, m.port, m.clientNonce);
    RequestLength(OpeningText(m.msgType, m.serverID, m.clientID, m.port, m.clientNonce), Number(m.timestamp));
    NumberSizeIsLength(m.timestamp);
  }

  lemma ChallengeSizeIsLength(m: Challenge)
    ensures ByteLen(ChallengeText(m)) == ChallengeSize(m)
  {
    OpeningSize(m.msgType, m.serverID, m.clientID, m.port, m.clientNonce);
    ChallengeLength(OpeningText(m.msgType, m.serverID, m.clientID, m.port, m.clientNonce), JsonString(m.serverNonce), Number(m.expiresAt));
    StringSizeIsLength(m.serverNonce);
    NumberSizeIsLength(m.expiresAt);
  }

  lemma ResponseSizeIsLength(m: ChallengeResponse)
    ensures ByteLen(ResponseText(m)) == ResponseSize(m)
  {
    OpeningSize(m.msgType, m.serverID, m.clientID, m.port, m.clientNonce);
    ResponseLength(OpeningText(m.msgType, m.serverID, m.clientID, m.port, m.clientNonce),
                   JsonString(m.serverNonce), JsonString(m.token), Number(m.timestamp));
    StringSizeIsLength(m.serverNonce);
    StringSizeIsLength(m.token);
    NumberSizeIsLength(m.timestamp);
  }

  // ----- payloads (RFC 4648 section 4) -----

  function Base64Digit(n: nat): (c: char)
    requires n < 64
    ensures c as int < 0x80 && c != '='
  {
    if n < 26 then (n + 'A' as int) as char
    else if n < 52 then (n - 26 + 'a' as int) as char
    else if n < 62 then (n - 52 + '0' as int) as char
    else if n == 62 then '+'
    else '/'
  }

  /** Three bytes are four digits; one or two left over are padded. */
  function Group(b: seq<Byte>): string
    requires 1 <= |b| <= 3
  {
    if |b| == 1 then [Base64Digit(b[0] / 4), Base64Digit(b[0] % 4 * 16), '=', '=']
    else if |b| == 2 then [Base64Digit(b[0] / 4), Base64Digit(b[0] % 4 * 16 + b[1] / 16), Base64Digit(b[1] % 16 * 4), '=']
    else [Base64Digit(b[0] / 4), Base64Digit(b[0] % 4 * 16 + b[1] / 16), Base64Digit(b[1] % 16 * 4 + b[2] / 64), Base64Digit(b[2] % 64)]
  }

  function Base64(b: seq<Byte>): string {
    if b == [] then "" else if |b| <= 3 then Group(b) else Group(b[..3]) + Base64(b[3..])
  }

  lemma GroupAscii(b: seq<Byte>)
    requires 1 <= |b| <= 3
    ensures |Group(b)| == 4 && forall i | 0 <= i < 4 :: Group(b)[i] as int < 0x80
  {
  }

  lemma Base64SizeStep(n: nat)
    requires n > 3
    ensures Base64Size(n) == 4 + Base64Size(n - 3)
  {
  }

  lemma {:induction false} Base64Length(b: seq<Byte>)
    ensures |Base64(b)| == Base64Size(|b|)
  {
    if b == [] {
    } else if |b| <= 3 {
      GroupAscii(b);
    } else {
      GroupAscii(b[..3]);
      Base64Length(b[3..]);
      Base64SizeStep(|b|);
    }
  }

  lemma {:induction false} Base64Ascii(b: seq<Byte>, i: nat)
    requires i < |Base64(b)|
    ensures Base64(b)[i] as int < 0x80
  {
    GroupAscii(if |b| <= 3 then b else b[..3]);
    if i >= 4 { Base64Ascii(b[3..], i - 4); }
  }

  function Base64Value(c: char): nat {
    if 'A' <= c <= 'Z' then c as int - 'A' as int
    else if 'a' <= c <= 'z' then c as int - 'a' as int + 26
    else if '0' <= c <= '9' then c as int - '0' as int + 52
    else if c == '+' then 62 else 63
  }

  function Ungroup(t: string): seq<int>
    requires |t| >= 4
  {
    var a, b, c, d := Base64Value(t[0]), Base64Value(t[1]), Base64Value(t[2]), Base64Value(t[3]);
    if t[2] == '=' then [a * 4 + b / 16]
    else if t[3] == '=' then [a * 4 + b / 16, b % 16 * 16 + c / 4]
    else [a * 4 + b / 16, b % 16 * 16 + c / 4, c % 4 * 64 + d]
  }

  function Unbase64(t: string): seq<int> {
    if |t| < 4 then [] else Ungroup(t) + Unbase64(t[4..])
  }

  lemma DigitRoundTrip(n: nat)
    requires n < 64
    ensures Base64Value(Base64Digit(n)) == n
  {
  }

  lemma GroupRoundTrip(b: seq<Byte>, rest: string)
    requires 1 <= |b| <= 3
    ensures Ungroup(Group(b) + rest) == b
    ensures (Group(b) + rest)[4..] == rest
  {
    DigitRoundTrip(b[0] / 4);
    if |b| == 1 {
      DigitRoundTrip(b[0] % 4 * 16);
    } else if |b| == 2 {
      DigitRoundTrip(b[0] % 4 * 16 + b[1] / 16);
      DigitRoundTrip(b[1] % 16 * 4);
    } else {
      DigitRoundTrip(b[0] % 4 * 16 + b[1] / 16);
      DigitRoundTrip(b[1] % 16 * 4 + b[2] / 64);
      DigitRoundTrip(b[2] % 64);
    }
  }

  /** Base64 loses nothing. */
  lemma {:induction false} Base64RoundTrip(b: seq<Byte>)
    ensures Unbase64(Base64(b)) == b
  {
    if b != [] {
      var first := if |b| <= 3 then b else b[..3];
      var rest := b[|first|..];
      assert Base64(b) == Group(first) + Base64(rest);
      GroupRoundTrip(first, Base64(rest));
      Base64RoundTrip(rest);
      assert b == first + rest;
    }
  }

  const KEY_ID := "{\"key_id\":"
  const PAYLOAD := ",\"payload\":\""
  const CLOSING := "\"}"

  function EnvelopeMembers(keyID: string, serverID: string, payload: string): string {
    Then(Then(Then(Then("", KEY_ID, keyID), SERVER_ID, serverID), PAYLOAD, payload), CLOSING, "")
  }

  function EnvelopeText(keyID: string, serverID: string, payload: seq<Byte>): string {
    EnvelopeMembers(JsonString(keyID), JsonString(serverID), Base64(payload))
  }

  lemma EnvelopeLength(keyID: string, serverID: string, payload: string)
    ensures ByteLen(EnvelopeMembers(keyID, serverID, payload)) == 37 + ByteLen(keyID) + ByteLen(serverID) + ByteLen(payload)
  {
    AsciiByteLen("");
    var t1 := Then("", KEY_ID, keyID);
    var t2 := Then(t1, SERVER_ID, serverID);
    ThenSize("", KEY_ID, keyID);
    ThenSize(t1, SERVER_ID, serverID);
    ThenSize(t2, PAYLOAD, payload);
    ThenSize(Then(t2, PAYLOAD, payload), CLOSING, "");
    assert |KEY_ID| == 10 && |SERVER_ID| == 13 && |PAYLOAD| == 12 && |CLOSING| == 2;
  }

  lemma Base64Bytes(b: seq<Byte>)
    ensures ByteLen(Base64(b)) == Base64Size(|b|)
  {
    Base64Length(b);
    forall i | 0 <= i < |Base64(b)| ensures Base64(b)[i] as int < 0x80 { Base64Ascii(b, i); }
    AsciiByteLen(Base64(b));
  }

  /** The size of an envelope is the length of its text, whatever bytes its payload has. */
  lemma EnvelopeSizeIsLength(e: Envelope, payload: seq<Byte>)
    requires |payload| == e.payload.size
    ensures ByteLen(EnvelopeText(e.keyID, e.serverID, payload)) == EnvelopeSize(e)
  {
    EnvelopeLength(JsonString(e.keyID), JsonString(e.serverID), Base64(payload));
    StringSizeIsLength(e.keyID);
    StringSizeIsLength(e.serverID);
    Base64Bytes(payload);
  }
}
