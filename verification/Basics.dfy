/** Vocabulary shared by every component: optional values, Go's fixed-width unsigned
    integers, clock readings and byte lengths of strings. */
module Basics {

  datatype Option<+T> = None | Some(value: T)

  type Uint16 = x: int | 0 <= x < 0x1_0000
  type Uint32 = x: int | 0 <= x < 0x1_0000_0000

  /** A reading of a clock, in nanoseconds. */
  type Instant = int

  const SECOND: int := 1_000_000_000

  /** `Time.Unix`: whole seconds, rounded down. */
  function Unix(t: Instant): int { t / SECOND }

  /** Bytes of one rune in UTF-8. */
  function RuneBytes(c: char): nat {
    if c as int < 0x80 then 1
    else if c as int < 0x800 then 2
    else if c as int < 0x1_0000 then 3
    else 4
  }

  function RunesFrom(s: string, bound: nat): set<int> {
    set i | 0 <= i < |s| && s[i] as int >= bound
  }

  /** Go's `len(s)`: bytes, not runes. Every rune has one byte, and one more for each of the
      bounds 80, 800 and 10000 (hexadecimal) that its code point reaches. */
  function ByteLen(s: string): nat {
    |s| + |RunesFrom(s, 0x80)| + |RunesFrom(s, 0x800)| + |RunesFrom(s, 0x1_0000)|
  }

  lemma RunesFromLast(s: string, bound: nat)
    requires s != ""
    ensures var n := |s| - 1;
            |RunesFrom(s, bound)| == |RunesFrom(s[..n], bound)| + if s[n] as int >= bound then 1 else 0
  {
    var n := |s| - 1;
    if s[n] as int >= bound {
      assert RunesFrom(s, bound) == RunesFrom(s[..n], bound) + {n};
    } else {
      assert RunesFrom(s, bound) == RunesFrom(s[..n], bound);
    }
  }

  /** The byte length adds up the UTF-8 sizes of the runes. */
  lemma ByteLenLast(s: string)
    requires s != ""
    ensures ByteLen(s) == ByteLen(s[..|s| - 1]) + RuneBytes(s[|s| - 1])
  {
    RunesFromLast(s, 0x80);
    RunesFromLast(s, 0x800);
    RunesFromLast(s, 0x1_0000);
  }

  /** One byte per rune in ASCII text. */
  lemma AsciiByteLen(s: string)
    requires forall i | 0 <= i < |s| :: s[i] as int < 0x80
    ensures ByteLen(s) == |s|
  {
    assert RunesFrom(s, 0x80) == {} && RunesFrom(s, 0x800) == {} && RunesFrom(s, 0x1_0000) == {};
  }

  /** The byte length of joined text adds up. */
  lemma {:induction false} ByteLenAppend(a: string, b: string)
    ensures ByteLen(a + b) == ByteLen(a) + ByteLen(b)
  {
    if b == "" {
      AsciiByteLen(b);
      assert a + b == a;
    } else {
      var n := |b| - 1;
      assert (a + b)[..|a + b| - 1] == a + b[..n];
      ByteLenLast(a + b);
      ByteLenLast(b);
      ByteLenAppend(a, b[..n]);
    }
  }

  /** Decimal digits of a number, most significant first. */
  function Decimal(n: nat): (text: string)
    ensures |text| >= 1
    ensures forall c | c in text :: '0' <= c <= '9'
  {
    if n < 10 then ["0123456789"[n]] else Decimal(n / 10) + ["0123456789"[n % 10]]
  }

  /** The number a string of decimal digits stands for. */
  ghost function DecimalValue(text: string): int {
    if text == "" then 0
    else 10 * DecimalValue(text[..|text| - 1]) + (text[|text| - 1] as int - '0' as int)
  }

  /** Printing in decimal loses nothing. */
  lemma {:induction false} DecimalRoundTrip(n: nat)
    ensures DecimalValue(Decimal(n)) == n
  {
    if n < 10 {
      assert Decimal(n)[..0] == "";
    } else {
      DecimalRoundTrip(n / 10);
      assert Decimal(n)[..|Decimal(n)| - 1] == Decimal(n / 10);
    }
  }

  ghost function Pow10(k: nat): nat {
    if k == 0 then 1 else 10 * Pow10(k - 1)
  }

  /** A number has exactly `k` digits when it lies between the powers of ten around it. */
  lemma {:induction false} DecimalLength(n: nat, k: nat)
    requires k >= 1
    requires n < Pow10(k)
    requires k == 1 || Pow10(k - 1) <= n
    ensures |Decimal(n)| == k
  {
    if n >= 10 {
      assert k > 1;
      assert k > 2 ==> Pow10(k - 1) == 10 * Pow10(k - 2);
      DecimalLength(n / 10, k - 1);
    }
  }

  /** A number below 10^k has at most `k` digits. */
  lemma {:induction false} DecimalLengthBound(n: nat, k: nat)
    requires k >= 1
    requires n < Pow10(k)
    ensures |Decimal(n)| <= k
  {
    if k > 1 && n < Pow10(k - 1) {
      DecimalLengthBound(n, k - 1);
    } else {
      DecimalLength(n, k);
    }
  }

  /** Fields joined by colons, as the context string and the inline rule ids are built. */
  function JoinColon(fields: seq<string>): string {
    if |fields| == 0 then ""
    else if |fields| == 1 then fields[0]
    else fields[0] + ":" + JoinColon(fields[1..])
  }

  ghost predicate ColonFree(s: string) { ':' !in s }

  /** The text before a first colon is determined by the whole text. */
  lemma FirstFieldUnique(a: string, b: string, restA: string, restB: string)
    requires ColonFree(a) && ColonFree(b)
    requires a + ":" + restA == b + ":" + restB
    ensures a == b && restA == restB
  {
    var whole := a + ":" + restA;
    assert whole[|a|] == ':' && whole[|b|] == ':';
    assert |a| == |b|;
    assert whole[..|a|] == a && whole[..|b|] == b;
    assert whole[|a| + 1..] == restA && whole[|b| + 1..] == restB;
  }

  lemma JoinHasColon(fields: seq<string>)
    requires |fields| > 1
    ensures ':' in JoinColon(fields)
  {
    assert JoinColon(fields)[|fields[0]|] == ':';
  }

  /** Joining colon-free fields with colons is injective, also across different field counts. */
  lemma {:induction false} JoinColonInjective(a: seq<string>, b: seq<string>)
    requires |a| >= 1 && |b| >= 1
    requires forall f | f in a :: ColonFree(f)
    requires forall f | f in b :: ColonFree(f)
    requires JoinColon(a) == JoinColon(b)
    ensures a == b
  {
    assert ColonFree(a[0]) && ColonFree(b[0]);
    if |a| > 1 { JoinHasColon(a); }
    if |b| > 1 { JoinHasColon(b); }
    if |a| == 1 {
      assert a == [a[0]] && b == [b[0]];
    } else {
      FirstFieldUnique(a[0], b[0], JoinColon(a[1..]), JoinColon(b[1..]));
      JoinColonInjective(a[1..], b[1..]);
      assert a == [a[0]] + a[1..] && b == [b[0]] + b[1..];
    }
  }
}
