/** Sizes on the wire: JSON text with Go's escaping, 28 bytes of encryption overhead, base64,
    and the read buffers of both sides. */
module PacketSize {
  import opened Basics
  import opened AuthProto

  /** Bytes one rune takes inside a JSON string (RFC 8259 section 7, with Go's HTML escaping). */
  function EscapedBytes(c: char): nat {
    if c in {'\"', '\\', '\n', '\r', '\t'} then 2
    else if c as int < 0x20 || c in {'<', '>', '&'} || c as int == 0x2028 || c as int == 0x2029 then 6
    else RuneBytes(c)
  }

  function EscapedLen(s: string): nat {
    if s == "" then 0 else EscapedLen(s[..|s| - 1]) + EscapedBytes(s[|s| - 1])
  }

  function StringSize(s: string): nat { EscapedLen(s) + 2 }

  function NumberSize(n: int): nat {
    if n < 0 then 1 + |Decimal(-n)| else |Decimal(n)|
  }

  // Bytes of the braces, field names, colons and commas of each JSON object, with the quotes around
  // the base64 text of a payload:
  //   {'type':,'server_id':,'client_id':,'port':,'client_nonce':,'timestamp':}
  //   {'type':,'server_id':,'client_id':,'port':,'client_nonce':,'server_nonce':,'expires_at':}
  //   {'type':,'server_id':,'client_id':,'port':,'client_nonce':,'server_nonce':,'token':,'timestamp':}
  //   {'key_id':,'server_id':,'payload':''}
  const REQUEST_FRAME: int := 72
  const CHALLENGE_FRAME: int := 89
  const RESPONSE_FRAME: int := 97
  const ENVELOPE_FRAME: int := 37

  function RequestSize(m: ChallengeRequest): nat {
    REQUEST_FRAME
    + StringSize(m.msgType) + StringSize(m.serverID) + StringSize(m.clientID) + NumberSize(m.port)
    + StringSize(m.clientNonce) + NumberSize(m.timestamp)
  }

  function ChallengeSize(m: Challenge): nat {
    CHALLENGE_FRAME
    + StringSize(m.msgType) + StringSize(m.serverID) + StringSize(m.clientID) + NumberSize(m.port)
    + StringSize(m.clientNonce) + StringSize(m.serverNonce) + NumberSize(m.expiresAt)
  }

  function ResponseSize(m: ChallengeResponse): nat {
    RESPONSE_FRAME
    + StringSize(m.msgType) + StringSize(m.serverID) + StringSize(m.clientID) + NumberSize(m.port)
    + StringSize(m.clientNonce) + StringSize(m.serverNonce) + StringSize(m.token) + NumberSize(m.timestamp)
  }

  /** Padded base64 (RFC 4648 section 4). */
  function Base64Size(n: nat): nat { 4 * ((n + 2) / 3) }

  function EnvelopeSize(e: Envelope): nat {
    ENVELOPE_FRAME
    + StringSize(e.keyID) + StringSize(e.serverID) + Base64Size(e.payload.size)
  }

  ghost predicate Int64(n: int) { -0x8000_0000_0000_0000 <= n < 0x8000_0000_0000_0000 }

  /** Escaping grows a string at most sixfold. */
  lemma {:induction false} EscapeBound(s: string)
    ensures EscapedLen(s) <= 6 * ByteLen(s)
  {
    if s != "" {
      EscapeBound(s[..|s| - 1]);
      ByteLenLast(s);
    }
  }

  lemma NumberBound(n: int)
    requires Int64(n)
    ensures NumberSize(n) <= 20
  {
    assert Pow10(19) == 10_000_000_000_000_000_000 by {
      assert Pow10(4) == 10_000;
      assert Pow10(8) == 100_000_000;
      assert Pow10(12) == 1_000_000_000_000;
      assert Pow10(16) == 10_000_000_000_000_000;
    }
    DecimalLengthBound(if n < 0 then -n else n, 19);
  }

  lemma PortBound(port: Uint16)
    ensures NumberSize(port) <= 5
  {
    assert Pow10(5) == 100_000 by { assert Pow10(3) == 1000; }
    DecimalLengthBound(port, 5);
  }

  /** An envelope whose ids passed `validateIdentifier` and whose body has at most 2360 bytes
      fits the payload limit and both read buffers. */
  lemma EnvelopeFits(e: Envelope, bodySize: nat)
    requires ByteLen(e.keyID) <= 64 && ByteLen(e.serverID) <= 64
    requires e.payload.size == bodySize + 28
    requires bodySize <= 2360
    ensures EnvelopeSize(e) <= 4096
    ensures 0 < e.payload.size <= 4096
  {
    EscapeBound(e.keyID);
    EscapeBound(e.serverID);
    assert Base64Size(e.payload.size) <= Base64Size(2388) == 3184;
  }

  lemma RequestFits(m: ChallengeRequest)
    requires m.msgType == CHALLENGE_REQUEST
    requires ByteLen(m.serverID) <= 64 && ByteLen(m.clientID) <= 128 && ByteLen(m.clientNonce) <= 128
    requires Int64(m.timestamp)
    ensures RequestSize(m) <= 2360
  {
    EscapeBound(m.serverID);
    EscapeBound(m.clientID);
    EscapeBound(m.clientNonce);
    NumberBound(m.timestamp);
    PortBound(m.port);
    TypeBytes(m.msgType);
  }

  /** The client id and nonce are only known to have passed the server's own field limit. */
  lemma ChallengeFits(m: Challenge)
    requires m.msgType == CHALLENGE
    requires ByteLen(m.serverID) <= 64 && ByteLen(m.clientID) <= 128
    requires ByteLen(m.clientNonce) <= 128 && ByteLen(m.serverNonce) <= 43
    requires Int64(m.expiresAt)
    ensures ChallengeSize(m) <= 2360
  {
    EscapeBound(m.serverID);
    EscapeBound(m.clientID);
    EscapeBound(m.clientNonce);
    EscapeBound(m.serverNonce);
    NumberBound(m.expiresAt);
    PortBound(m.port);
    TypeBytes(m.msgType);
  }

  lemma ResponseFits(m: ChallengeResponse)
    requires m.msgType == CHALLENGE_RESPONSE
    requires ByteLen(m.serverID) <= 64 && ByteLen(m.clientID) <= 64
    requires ByteLen(m.clientNonce) <= 43 && ByteLen(m.serverNonce) <= 43
    requires ByteLen(m.token) <= 128
    requires Int64(m.timestamp)
    ensures ResponseSize(m) <= 2360
  {
    EscapeBound(m.serverID);
    EscapeBound(m.clientID);
    EscapeBound(m.clientNonce);
    EscapeBound(m.serverNonce);
    EscapeBound(m.token);
    NumberBound(m.timestamp);
    PortBound(m.port);
    TypeBytes(m.msgType);
  }

  /** Text without anything to escape, in ASCII: every rune is one byte. */
  lemma {:induction false} PlainEscape(s: string)
    requires forall i | 0 <= i < |s| :: 'a' <= s[i] <= 'z' || s[i] == '_'
    ensures EscapedLen(s) == ByteLen(s) == |s|
  {
    if s != "" {
      PlainEscape(s[..|s| - 1]);
      ByteLenLast(s);
    }
  }

  /** The three message types need no escaping. */
  lemma TypeBytes(msgType: string)
    requires msgType == CHALLENGE_REQUEST || msgType == CHALLENGE || msgType == CHALLENGE_RESPONSE
    ensures EscapedLen(msgType) == ByteLen(msgType) == |msgType|
    ensures 0 < |msgType| <= 18
  {
    assert forall i | 0 <= i < |msgType| :: 'a' <= msgType[i] <= 'z' || msgType[i] == '_';
    PlainEscape(msgType);
  }
}
