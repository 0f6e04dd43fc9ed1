/** Unicode code points and their UTF-8 form (RFC 3629), and the UTF-16 surrogate pairs of
    JSON string escapes (section 7 of RFC 8259). */
module Utf8 {
  import opened Bytes
  import opened Bits

  predicate IsHighSurrogate(u: nat) {
    0xD800 <= u <= 0xDBFF
  }

  predicate IsLowSurrogate(u: nat) {
    0xDC00 <= u <= 0xDFFF
  }

  /** The code points UTF-8 may carry: no surrogates (section 3 of RFC 3629). */
  predicate IsScalar(u: nat) {
    u <= 0x10FFFF && !IsHighSurrogate(u) && !IsLowSurrogate(u)
  }

  function PairValue(high: nat, low: nat): (u: nat)
    requires IsHighSurrogate(high) && IsLowSurrogate(low)
    ensures 0x10000 <= u <= 0x10FFFF
  {
    0x10000 + (high - 0xD800) * 0x400 + (low - 0xDC00)
  }

  function Encode(u: nat): (s: bytes)
    requires u <= 0x10FFFF
    ensures 1 <= |s| <= 4
  {
    if u < 0x80 then [u]
    else if u < 0x800 then [0xC0 + u / 64, 0x80 + u % 64]
    else if u < 0x10000 then [0xE0 + u / 64 / 64, 0x80 + u / 64 % 64, 0x80 + u % 64]
    else [0xF0 + u / 64 / 64 / 64, 0x80 + u / 64 / 64 % 64, 0x80 + u / 64 % 64, 0x80 + u % 64]
  }

  predicate IsTail(b: byte) {
    0x80 <= b <= 0xBF
  }

  /** The UTF8-char production, section 4 of RFC 3629. */
  predicate IsUtf8Char(s: bytes) {
    || (|s| == 1 && s[0] <= 0x7F)
    || (|s| == 2 && 0xC2 <= s[0] <= 0xDF && IsTail(s[1]))
    || (|s| == 3 && IsTail(s[1]) && IsTail(s[2])
        && (|| (s[0] == 0xE0 && 0xA0 <= s[1])
            || 0xE1 <= s[0] <= 0xEC
            || (s[0] == 0xED && s[1] <= 0x9F)
            || 0xEE <= s[0] <= 0xEF))
    || (|s| == 4 && IsTail(s[1]) && IsTail(s[2]) && IsTail(s[3])
        && (|| (s[0] == 0xF0 && 0x90 <= s[1])
            || 0xF1 <= s[0] <= 0xF3
            || (s[0] == 0xF4 && s[1] <= 0x8F)))
  }

  /** The character number held by the payload bits, section 3 of RFC 3629. */
  function Decode(s: bytes): nat
    requires IsUtf8Char(s)
  {
    var b := s[0];
    if |s| == 1 then b
    else if |s| == 2 then Join(b - 0xC0, s[1])
    else if |s| == 3 then Join(Join(b - 0xE0, s[1]), s[2])
    else Join(Join(Join(b - 0xF0, s[1]), s[2]), s[3])
  }

  function Join(high: nat, tail: byte): nat
    requires IsTail(tail)
  {
    high * 64 + (tail - 0x80)
  }

  lemma JoinParts(high: nat, tail: byte)
    requires IsTail(tail)
    ensures Join(high, tail) / 64 == high && 0x80 + Join(high, tail) % 64 == tail
  {
  }

  /** Encode and Decode are mutually inverse between scalar values and UTF-8 characters. */
  lemma EncodeIsUtf8(u: nat)
    requires IsScalar(u)
    ensures IsUtf8Char(Encode(u)) && Decode(Encode(u)) == u
  {
  }

  lemma DecodeIsScalar(s: bytes)
    requires IsUtf8Char(s)
    ensures IsScalar(Decode(s)) && Encode(Decode(s)) == s
  {
    match |s|
    case 2 => DecodeTwo(s);
    case 3 => DecodeThree(s);
    case 4 => DecodeFour(s);
    case _ =>
  }

  lemma DecodeTwo(s: bytes)
    requires |s| == 2 && IsUtf8Char(s)
    ensures IsScalar(Decode(s)) && Encode(Decode(s)) == s
  {
    JoinParts(s[0] - 0xC0, s[1]);
  }

  lemma DecodeThree(s: bytes)
    requires |s| == 3 && IsUtf8Char(s)
    ensures IsScalar(Decode(s)) && Encode(Decode(s)) == s
  {
    var x := Join(s[0] - 0xE0, s[1]);
    JoinParts(s[0] - 0xE0, s[1]);
    assert 0x20 <= x < 0x400 && !(0x360 <= x < 0x380);
    JoinParts(x, s[2]);
    assert Encode(Join(x, s[2])) == s by { hide Join; }
  }

  lemma DecodeFour(s: bytes)
    requires |s| == 4 && IsUtf8Char(s)
    ensures IsScalar(Decode(s)) && Encode(Decode(s)) == s
  {
    var x := Join(s[0] - 0xF0, s[1]);
    JoinParts(s[0] - 0xF0, s[1]);
    assert 0x10 <= x < 0x110;
    var y := Join(x, s[2]);
    JoinParts(x, s[2]);
    JoinParts(y, s[3]);
    assert 0x400 <= y < 0x4400;
    assert Encode(Join(y, s[3])) == s by { hide Join; }
  }

  /** Where they first differ, a is the smaller. */
  ghost predicate Before(a: bytes, b: bytes) {
    exists k: nat :: k < |a| && k < |b| && a[..k] == b[..k] && a[k] < b[k]
  }

  lemma BeforeAt(a: bytes, b: bytes, k: nat)
    requires k < |a| && k < |b| && a[k] < b[k] && forall i | 0 <= i < k :: a[i] == b[i]
    ensures Before(a, b)
  {
    assert a[..k] == b[..k];
  }

  lemma SameBefore(a: bytes, b: bytes, k: nat, j: nat)
    requires j < k <= |a| && k <= |b| && a[..k] == b[..k]
    ensures a[j] == b[j]
  {
    assert a[..k][j] == b[..k][j];
  }

  lemma OneWay(a: bytes, b: bytes)
    requires Before(a, b)
    ensures !Before(b, a)
  {
    var k: nat :| k < |a| && k < |b| && a[..k] == b[..k] && a[k] < b[k];
    if j: nat :| j < |a| && j < |b| && b[..j] == a[..j] && b[j] < a[j] {
      if j < k {
        SameBefore(a, b, k, j);
        assert false;
      } else if k < j {
        SameBefore(a, b, j, k);
        assert false;
      }
    }
  }

  lemma Digits64(u: nat, v: nat)
    requires u < v
    ensures u / 64 < v / 64 || (u / 64 == v / 64 && u % 64 < v % 64)
  {
  }

  lemma EncodesInOrder(u: nat, v: nat)
    requires u < v <= 0x10FFFF
    ensures Before(Encode(u), Encode(v))
  {
    var a, b := Encode(u), Encode(v);
    if |a| < |b| {
      BeforeAt(a, b, 0);
    } else {
      Digits64(u, v);
      if u / 64 < v / 64 {
        Digits64(u / 64, v / 64);
        if u / 64 / 64 < v / 64 / 64 {
          Digits64(u / 64 / 64, v / 64 / 64);
          BeforeAt(a, b, if |a| < 4 || u / 64 / 64 / 64 < v / 64 / 64 / 64 then 0 else 1);
        } else {
          BeforeAt(a, b, if |a| == 1 then 0 else |a| - 2);
        }
      } else {
        BeforeAt(a, b, |a| - 1);
      }
    }
  }

  /** The bytes sort as the characters do, section 1 of RFC 3629. */
  lemma KeepsOrder(u: nat, v: nat)
    requires u <= 0x10FFFF && v <= 0x10FFFF
    ensures Before(Encode(u), Encode(v)) <==> u < v
  {
    hide Encode;
    if u < v {
      EncodesInOrder(u, v);
    } else if v < u {
      EncodesInOrder(v, u);
      OneWay(Encode(v), Encode(u));
    } else if Before(Encode(u), Encode(v)) {
      OneWay(Encode(u), Encode(v));
    }
  }

  /** The lead-byte marks, indexed by sequence length. */
  const FIRST_BYTE_MARK: seq<byte> := [0x00, 0x00, 0xC0, 0xE0, 0xF0, 0xF8, 0xFC]

  /** The mask expression that makes a continuation byte keeps the six low bits. */
  lemma TailBits(u: nat)
    ensures And(Or(u, 0x80), 0xBF) == 0x80 + u % 64
  {
    OrTail(u);
    AndTail(Or(u / 64, 2), u % 64);
    OrHalf(u / 128, u / 64 % 2, 1, 0);
    OrHalf(u / 256, u / 128 % 2, 0, 1);
    AndTwo(Or(u / 64, 2));
  }

  lemma OrTail(u: nat)
    ensures Or(u, 0x80) == 64 * Or(u / 64, 2) + u % 64
  {
    SmallPowers();
    OrSplit(u / 64, u % 64, 2, 0, 6);
    OrZero(u % 64);
  }

  lemma AndTail(x: nat, l: nat)
    requires l < 64
    ensures And(64 * x + l, 0xBF) == 64 * And(x, 2) + l
  {
    hide And;
    SmallPowers();
    AndSplit(x, l, 2, 63, 6);
    AndMask(l, 6);
  }

  lemma AndTwo(x: nat)
    ensures And(x, 2) == 2 * (x / 2 % 2)
  {
    AndHalf(x / 2, x % 2, 1, 0);
    AndHalf(x / 4, x / 2 % 2, 0, 1);
  }

  /** Or-ing a lead-byte mark onto the remaining high bits of a code point adds it. */
  lemma LeadBits(u: nat)
    ensures u < 0x80 ==> Or(u, FIRST_BYTE_MARK[1]) == u
    ensures u < 0x20 ==> Or(u, FIRST_BYTE_MARK[2]) == 0xC0 + u
    ensures u < 0x10 ==> Or(u, FIRST_BYTE_MARK[3]) == 0xE0 + u
    ensures u < 0x08 ==> Or(u, FIRST_BYTE_MARK[4]) == 0xF0 + u
  {
    OrZero(u);
    SmallPowers();
    if u < 0x20 {
      OrAbove(u, 5, 6);
    }
    if u < 0x10 {
      OrAbove(u, 4, 14);
    }
    if u < 0x08 {
      OrAbove(u, 3, 30);
    }
  }

  /** The surrogate arithmetic of the parser computes the value of the pair. */
  lemma PairBits(high: nat, low: nat)
    requires IsHighSurrogate(high) && IsLowSurrogate(low)
    ensures 0x10000 + Or(And(high, 0x3FF) * 0x400, And(low, 0x3FF)) == PairValue(high, low)
  {
    hide And, Or;
    TenBits(high);
    TenBits(low);
    PairJoin(high % 1024, low % 1024);
  }

  lemma TenBits(u: nat)
    ensures And(u, 0x3FF) == u % 1024
  {
    SmallPowers();
    AndMask(u, 10);
  }

  lemma PairJoin(high: nat, low: nat)
    requires low < 1024
    ensures Or(high * 0x400, low) == high * 0x400 + low
  {
    SmallPowers();
    OrSplit(high, 0, 0, low, 10);
    OrZero(high);
    OrZero(low);
  }
}
