/** The parser and the printers do what RFC 8259 says: the syntax trees and their meaning against the texts and values
    of the standard. */
module RfcTheorems {
  import opened Bytes
  import opened Values
  import opened Utf8
  import opened Syntax
  import opened Numerals
  import opened Rfc8259
  import G = Grammar
  import opened Parsing
  import opened ParsingTheorems
  import Printing
  import opened PrintingTheorems

  // ---------- Hexadecimal digits ----------

  lemma HexIs(b: byte, v: nat)
    ensures IsHexOf(b, v) <==> IsHex(b) && HexValue(b) == v
  {
  }

  lemma Sixteenths(u: nat)
    requires u < 0x10000
    ensures u / 0x1000 < 16
    ensures u == (u / 0x1000) * 0x1000 + (u / 0x100 % 16) * 0x100 + (u / 0x10 % 16) * 0x10 + u % 16
  {
    assert u / 0x10 == (u / 0x100) * 16 + u / 0x10 % 16;
    assert u / 0x100 == (u / 0x1000) * 16 + u / 0x100 % 16;
  }

  lemma FourDigits(a: nat, b: nat, c: nat, d: nat)
    requires a < 16 && b < 16 && c < 16 && d < 16
    ensures var u := a * 0x1000 + b * 0x100 + c * 0x10 + d;
      u / 0x1000 == a && u / 0x100 % 16 == b && u / 0x10 % 16 == c && u % 16 == d
  {
    var u := a * 0x1000 + b * 0x100 + c * 0x10 + d;
    assert u / 0x10 == a * 0x100 + b * 0x10 + c;
    assert u / 0x100 == a * 0x10 + b;
  }

  /** The code unit of an escape is the number its four digits write, in either case. */
  lemma UnitOf(s: bytes, u: nat)
    requires IsHex4(s, u)
    ensures IsHex(s[0]) && IsHex(s[1]) && IsHex(s[2]) && IsHex(s[3]) && CodeUnit(s[0], s[1], s[2], s[3]) == u
  {
    hide IsHexOf, HexValue;
    HexIs(s[0], u / 0x1000);
    HexIs(s[1], u / 0x100 % 16);
    HexIs(s[2], u / 0x10 % 16);
    HexIs(s[3], u % 16);
    Sixteenths(u);
  }

  lemma DigitsOfUnit(h1: HexDigit, h2: HexDigit, h3: HexDigit, h4: HexDigit)
    ensures IsHex4([h1, h2, h3, h4], CodeUnit(h1, h2, h3, h4))
  {
    hide IsHexOf, HexValue;
    HexIs(h1, HexValue(h1));
    HexIs(h2, HexValue(h2));
    HexIs(h3, HexValue(h3));
    HexIs(h4, HexValue(h4));
    FourDigits(HexValue(h1), HexValue(h2), HexValue(h3), HexValue(h4));
  }

  // ---------- Numbers ----------

  lemma {:induction false} DecimalSnoc(ds: bytes, d: byte)
    requires DigitBytes(ds) && 0x30 <= d <= 0x39
    ensures DigitBytes(ds + [d]) && Decimal(ds + [d]) == Decimal(ds) * 10 + (d - 0x30)
  {
    var es := ds + [d];
    if ds != [] {
      DecimalSnoc(ds[1..], d);
      assert es[1..] == ds[1..] + [d];
      var k := |ds| - 1;
      assert TenTo(k + 1) == 10 * TenTo(k);
      Carry(ds[0] - 0x30, TenTo(k), Decimal(ds[1..]));
    } else {
      assert es[1..] == [];
    }
  }

  lemma Carry(a: int, t: int, r: int)
    ensures a * (10 * t) + r * 10 == (a * t + r) * 10
  {
  }

  lemma {:induction false} NatIsDecimal(ds: Digits)
    ensures DigitBytes(ds) && NatOf(ds) == Decimal(ds)
  {
    if ds != [] {
      var r := ds[..|ds| - 1];
      NatIsDecimal(r);
      DecimalSnoc(r, ds[|ds| - 1]);
      assert ds == r + [ds[|ds| - 1]];
    }
  }

  function PartsOf(n: Numeral): Parts {
    var whole: bytes := if n.zero then [0x30] else n.whole;
    if n.exp.NoExp? then Parts(n.neg, whole, n.frac, [], [], [])
    else Parts(n.neg, whole, n.frac, [n.exp.mark], RenderSign(n.exp.sign), n.exp.digits)
  }

  lemma DigitsAre(ds: Digits)
    ensures DigitBytes(ds)
  {
  }

  lemma Marks()
    ensures Ascii("e") == [LOWER_E] && Ascii("E") == [UPPER_E]
    ensures Ascii("+") == [PLUS] && Ascii("-") == [MINUS] && Ascii(".") == [DOT]
  {
  }

  lemma NumberShape(n: Numeral)
    requires G.StrictNumeral(n)
    ensures NumberParts(PartsOf(n)) && TextOfParts(PartsOf(n)) == RenderNumeral(n)
  {
    Marks();
    DigitsAre(n.whole);
    DigitsAre(n.frac);
    if n.exp.Exp? {
      DigitsAre(n.exp.digits);
    }
    hide Ascii;
    var p := PartsOf(n);
    assert NumberParts(p);
    var minus: bytes := if n.neg then [MINUS] else [];
    var zero: bytes := if n.zero then [ZERO] else [];
    assert p.whole == zero + n.whole;
    Flat(minus, zero, n.whole, RenderFrac(n.frac), p.mark, p.sign, p.exp);
    assert RenderExp(n.exp) == p.mark + (p.sign + p.exp);
  }

  lemma Flat(a: bytes, b: bytes, c: bytes, d: bytes, e: bytes, f: bytes, g: bytes)
    ensures a + (b + c) + d + e + f + g == a + (b + (c + (d + (e + (f + g)))))
  {
  }

  lemma ZeroFirst(ds: bytes)
    requires DigitBytes(ds)
    ensures DigitBytes([0x30] + ds) && Decimal([0x30] + ds) == Decimal(ds)
  {
    var es := [0x30] + ds;
    assert es[1..] == ds;
    assert es[0] - 0x30 == 0;
  }

  lemma WholeDigits(n: Numeral)
    requires G.StrictNumeral(n)
    ensures var p := PartsOf(n); DigitBytes(p.whole + p.frac) && Decimal(p.whole + p.frac) == NatOf(n.whole + n.frac)
  {
    hide Decimal, NatOf;
    NatIsDecimal(n.whole + n.frac);
    if n.zero {
      ZeroFirst(n.whole + n.frac);
      assert PartsOf(n).whole + PartsOf(n).frac == [0x30] + (n.whole + n.frac);
    } else {
      assert PartsOf(n).whole + PartsOf(n).frac == n.whole + n.frac;
    }
  }

  lemma Multiplied(r: real, r0: real, f: real, d: real, v: real)
    requires r0 * f == v
    ensures r == r0 * d ==> r * f * 1.0 == v * d
    ensures r * d == r0 ==> r * f * d == v * 1.0
  {
    assert r0 * d * f == r0 * f * d;
    assert r * f * d == r * d * f;
  }

  lemma Ones()
    ensures TenTo(Decimal([])) as real == 1.0 == 1 as real
  {
  }

  /** The number with the powers of ten above and below the fraction bar given. */
  predicate Balanced(p: Parts, r: real, digits: nat, up: nat, down: nat) {
    r * (TenTo(|p.frac|) as real) * (down as real) == (if p.minus then -1.0 else 1.0) * (digits as real) * (up as real)
  }

  lemma NumberWhen(p: Parts, r: real, up: nat, down: nat)
    requires NumberParts(p) && Balanced(p, r, Decimal(p.whole + p.frac), up, down)
    requires up == if p.sign == [MINUS] then 1 else TenTo(Decimal(p.exp))
    requires down == if p.sign == [MINUS] then TenTo(Decimal(p.exp)) else 1
    ensures NumberIs(p, r)
  {
    Marks();
    hide TenTo, Decimal, Ascii;
  }

  lemma NumberValue(n: Numeral)
    requires G.StrictNumeral(n) && NumberParts(PartsOf(n))
    ensures NumberIs(PartsOf(n), NumeralValue(n))
  {
    hide NumeralValue, Ascii, NatOf, TenTo, Decimal, NumberIs, NumberParts;
    var p, r, r0 := PartsOf(n), NumeralValue(n), NumeralValue(n.(exp := NoExp));
    var digits := NatOf(n.whole + n.frac);
    var f, v := TenTo(|n.frac|) as real, Signed(n.neg, digits);
    WholeDigits(n);
    PlainValue(n.(exp := NoExp));
    Unsigned(n.neg, digits);
    Ones();
    if n.exp.NoExp? {
      assert n.(exp := NoExp) == n;
      assert r * f * 1.0 == v * 1.0;
      NumberWhen(p, r, 1, 1);
    } else {
      var e := TenTo(NatOf(n.exp.digits));
      NatIsDecimal(n.exp.digits);
      Multiplied(r, r0, f, e as real, v);
      if n.exp.sign.MinusSign? {
        LoweredValue(n);
        NumberWhen(p, r, 1, e);
      } else {
        RaisedValue(n);
        NumberWhen(p, r, e, 1);
      }
    }
  }

  lemma Product(a: real, b: real)
    requires a > 0.0 && b > 0.0
    ensures a * b > 0.0
  {
  }

  lemma Cancel(r: real, s: real, a: real, b: real)
    requires a > 0.0 && b > 0.0 && r * a * b == s * a * b
    ensures r == s
  {
    Product(a, b);
    assert r * a * b == r * (a * b) && s * a * b == s * (a * b);
  }

  lemma {:induction false} TenPositive(k: nat)
    ensures TenTo(k) > 0
  {
    if k > 0 {
      TenPositive(k - 1);
    }
  }

  lemma NumberBalanced(p: Parts, r: real, up: nat, down: nat)
    requires NumberParts(p) && NumberIs(p, r)
    requires up == if p.sign == [MINUS] then 1 else TenTo(Decimal(p.exp))
    requires down == if p.sign == [MINUS] then TenTo(Decimal(p.exp)) else 1
    ensures Balanced(p, r, Decimal(p.whole + p.frac), up, down)
  {
    Marks();
    hide TenTo, Decimal, Ascii;
  }

  lemma OneNumber(p: Parts, r: real, s: real)
    requires NumberParts(p) && NumberIs(p, r) && NumberIs(p, s)
    ensures r == s
  {
    hide TenTo, Decimal, Ascii, NumberIs, Balanced;
    TenPositive(|p.frac|);
    TenPositive(Decimal(p.exp));
    var up: nat := if p.sign == [MINUS] then 1 else TenTo(Decimal(p.exp));
    var down: nat := if p.sign == [MINUS] then TenTo(Decimal(p.exp)) else 1;
    NumberBalanced(p, r, up, down);
    NumberBalanced(p, s, up, down);
    BalancedOnce(p, r, s, Decimal(p.whole + p.frac), up, down);
  }

  lemma BalancedOnce(p: Parts, r: real, s: real, digits: nat, up: nat, down: nat)
    requires Balanced(p, r, digits, up, down) && Balanced(p, s, digits, up, down) && down > 0 && TenTo(|p.frac|) > 0
    ensures r == s
  {
    hide TenTo;
    var x := (if p.minus then -1.0 else 1.0) * (digits as real) * (up as real);
    SameFactor(r, s, TenTo(|p.frac|) as real, down as real, x);
  }

  lemma SameFactor(r: real, s: real, a: real, b: real, x: real)
    requires a > 0.0 && b > 0.0 && r * a * b == x && s * a * b == x
    ensures r == s
  {
    Cancel(r, s, a, b);
  }

  /** The numeral of a number's parts. */
  lemma NumeralFor(p: Parts, r: real) returns (n: Numeral)
    requires NumberParts(p) && NumberIs(p, r)
    ensures G.StrictNumeral(n) && RenderNumeral(n) == TextOfParts(p) && NumeralValue(n) == r
  {
    var zero := p.whole[0] == 0x30;
    var sign := if p.sign == [] then NoSign else if p.sign == Ascii("+") then PlusSign else MinusSign;
    Marks();
    hide NumberIs, Decimal;
    n := Numeral(p.minus, zero, if zero then [] else p.whole, p.frac,
      if p.exp == [] then NoExp else Exp(p.mark[0], sign, p.exp));
    assert zero ==> p.whole == [0x30];
    assert PartsOf(n) == p;
    hide Ascii, NumberParts, TextOfParts, RenderNumeral, NumeralValue;
    NumberShape(n);
    NumberValue(n);
    OneNumber(p, r, NumeralValue(n));
  }

  // ---------- Strings ----------

  /** Every code unit escape stands for a character: no NUL and no surrogate without its partner. */
  predicate ProperLit(l: Lit) {
    match l
    case End => true
    case Raw(_, r) => ProperLit(r)
    case Esc(_, r) => ProperLit(r)
    case Uni(h1, h2, h3, h4, r) =>
      var u := CodeUnit(h1, h2, h3, h4);
      && u != 0 && !IsLowSurrogate(u)
      && if IsHighSurrogate(u) then r.Uni? && IsLowSurrogate(CodeUnit(r.h1, r.h2, r.h3, r.h4)) && ProperLit(r.rest)
         else ProperLit(r)
  }

  lemma Short(c: byte, m: byte)
    ensures IsShort(c, m) <==> G.IsEscaped(c) && Unescaped(c) == m
  {
  }

  lemma Prepend(p: bytes, m: bytes, b: bytes, t: bytes)
    requires p != [] && IsChar(p, m) && IsChars(b, t)
    ensures IsChars(p + b, m + t)
  {
    var i, j := |p|, |m|;
    assert (p + b)[..i] == p && (p + b)[i..] == b && (m + t)[..j] == m && (m + t)[j..] == t;
  }

  lemma Backslash()
    ensures Ascii("\\u") == [BACKSLASH, LOWER_U]
  {
  }

  /** The escape of a character of the basic plane. */
  lemma UnitChar(h1: HexDigit, h2: HexDigit, h3: HexDigit, h4: HexDigit)
    requires var u := CodeUnit(h1, h2, h3, h4); u != 0 && !IsLowSurrogate(u) && !IsHighSurrogate(u)
    ensures IsChar([BACKSLASH, LOWER_U, h1, h2, h3, h4], Encode(CodeUnit(h1, h2, h3, h4)))
  {
    var p, u := [BACKSLASH, LOWER_U, h1, h2, h3, h4], CodeUnit(h1, h2, h3, h4);
    Backslash();
    DigitsOfUnit(h1, h2, h3, h4);
    EncodeIsUtf8(u);
    hide IsHex4, Encode, Decode, CodeUnit, IsUtf8Char, Ascii;
    assert p[..2] == [BACKSLASH, LOWER_U] && p[2..] == [h1, h2, h3, h4];
  }

  lemma PairParts(u: nat, v: nat)
    requires IsHighSurrogate(u) && IsLowSurrogate(v)
    ensures IsScalar(PairValue(u, v))
    ensures 0xD800 + (PairValue(u, v) - 0x10000) / 0x400 == u && 0xDC00 + (PairValue(u, v) - 0x10000) % 0x400 == v
  {
  }

  lemma Slices(e: bytes, a: bytes, b: bytes)
    requires |e| == 2 && |a| == 4 && |b| == 4
    ensures var p := e + a + (e + b); |p| == 12 && p[..2] == e && p[2..6] == a && p[6..8] == e && p[8..] == b
  {
  }

  lemma EscapedPair(p: bytes, w: nat)
    requires IsScalar(w) && w >= 0x10000
    requires |p| == 12 && p[..2] == [BACKSLASH, LOWER_U] && p[6..8] == [BACKSLASH, LOWER_U]
    requires IsHex4(p[2..6], 0xD800 + (w - 0x10000) / 0x400) && IsHex4(p[8..], 0xDC00 + (w - 0x10000) % 0x400)
    ensures IsEscaped(p, w)
  {
    Backslash();
    hide IsHex4, Ascii;
  }

  lemma EscapedChar(p: bytes, m: bytes)
    requires IsUtf8Char(m) && Decode(m) != 0 && IsScalar(Decode(m)) && IsEscaped(p, Decode(m))
    ensures IsChar(p, m)
  {
    hide IsUtf8Char, Decode, IsEscaped;
  }

  /** The escapes of a surrogate pair. */
  lemma PairChar(u: nat, v: nat, a: bytes, b: bytes)
    requires IsHighSurrogate(u) && IsLowSurrogate(v) && IsHex4(a, u) && IsHex4(b, v)
    ensures IsChar([BACKSLASH, LOWER_U] + a + ([BACKSLASH, LOWER_U] + b), Encode(PairValue(u, v)))
  {
    hide IsHex4, Encode, Decode, IsUtf8Char, Ascii, PairValue, IsChar, IsEscaped;
    var e := [BACKSLASH, LOWER_U];
    var p, w := e + a + (e + b), PairValue(u, v);
    FourBytes(a, u);
    FourBytes(b, v);
    Slices(e, a, b);
    PairParts(u, v);
    EncodeIsUtf8(w);
    EscapedPair(p, w);
    EscapedChar(p, Encode(w));
  }

  lemma FourBytes(s: bytes, u: nat)
    requires IsHex4(s, u)
    ensures |s| == 4
  {
  }

  lemma {:induction false} CharsFrom(l: Lit)
    requires G.StrictLit(l) && ProperLit(l)
    ensures IsChars(RenderLit(l), Decoded(l))
  {
    hide IsChar, IsChars, CodeUnit, Encode, Unescaped, G.IsEscaped;
    match l
    case End => NoChars();
    case Raw(b, r) =>
      CharsFrom(r);
      RawChar(b);
      Prepend([b], [b], RenderLit(r), Decoded(r));
    case Esc(c, r) =>
      CharsFrom(r);
      ShortChar(c);
      Prepend([BACKSLASH, c], [Unescaped(c)], RenderLit(r), Decoded(r));
    case Uni(h1, h2, h3, h4, r) => UnitFrom(l);
  }

  lemma NoChars()
    ensures IsChars([], [])
  {
  }

  lemma RawChar(b: byte)
    requires b >= 0x20 && b != QUOTE && b != BACKSLASH
    ensures IsChar([b], [b])
  {
  }

  lemma ShortChar(c: byte)
    requires G.IsEscaped(c)
    ensures IsChar([BACKSLASH, c], [Unescaped(c)])
  {
    Short(c, Unescaped(c));
  }

  function EscapeOf(h1: HexDigit, h2: HexDigit, h3: HexDigit, h4: HexDigit): bytes {
    [BACKSLASH, LOWER_U, h1, h2, h3, h4]
  }

  lemma UnitLit(l: Lit)
    requires l.Uni? && ProperLit(l) && !IsHighSurrogate(CodeUnit(l.h1, l.h2, l.h3, l.h4))
    ensures RenderLit(l) == EscapeOf(l.h1, l.h2, l.h3, l.h4) + RenderLit(l.rest) && ProperLit(l.rest)
    ensures Decoded(l) == Encode(CodeUnit(l.h1, l.h2, l.h3, l.h4)) + Decoded(l.rest)
  {
    hide CodeUnit, Encode;
  }

  lemma PairLit(l: Lit)
    requires l.Uni? && ProperLit(l) && IsHighSurrogate(CodeUnit(l.h1, l.h2, l.h3, l.h4))
    ensures l.rest.Uni? && ProperLit(l.rest.rest)
    ensures IsLowSurrogate(CodeUnit(l.rest.h1, l.rest.h2, l.rest.h3, l.rest.h4))
    ensures RenderLit(l) == EscapeOf(l.h1, l.h2, l.h3, l.h4)
                            + EscapeOf(l.rest.h1, l.rest.h2, l.rest.h3, l.rest.h4) + RenderLit(l.rest.rest)
    ensures Decoded(l) == Encode(PairValue(CodeUnit(l.h1, l.h2, l.h3, l.h4),
                                           CodeUnit(l.rest.h1, l.rest.h2, l.rest.h3, l.rest.h4)))
                          + Decoded(l.rest.rest)
  {
    hide CodeUnit, Encode, PairValue;
  }

  lemma PairEscapes(l: Lit)
    requires l.Uni? && l.rest.Uni?
    requires IsHighSurrogate(CodeUnit(l.h1, l.h2, l.h3, l.h4))
    requires IsLowSurrogate(CodeUnit(l.rest.h1, l.rest.h2, l.rest.h3, l.rest.h4))
    ensures var r := l.rest;
      IsChar(EscapeOf(l.h1, l.h2, l.h3, l.h4) + EscapeOf(r.h1, r.h2, r.h3, r.h4),
             Encode(PairValue(CodeUnit(l.h1, l.h2, l.h3, l.h4), CodeUnit(r.h1, r.h2, r.h3, r.h4))))
  {
    hide IsChar, CodeUnit, Encode, PairValue, IsHex4;
    var r, e := l.rest, [BACKSLASH, LOWER_U];
    var a, b := [l.h1, l.h2, l.h3, l.h4], [r.h1, r.h2, r.h3, r.h4];
    DigitsOfUnit(l.h1, l.h2, l.h3, l.h4);
    DigitsOfUnit(r.h1, r.h2, r.h3, r.h4);
    PairChar(CodeUnit(l.h1, l.h2, l.h3, l.h4), CodeUnit(r.h1, r.h2, r.h3, r.h4), a, b);
    assert EscapeOf(l.h1, l.h2, l.h3, l.h4) == e + a && EscapeOf(r.h1, r.h2, r.h3, r.h4) == e + b;
  }

  lemma {:induction false} UnitFrom(l: Lit)
    requires l.Uni? && G.StrictLit(l) && ProperLit(l)
    ensures IsChars(RenderLit(l), Decoded(l))
    decreases l, 0
  {
    hide IsChar, IsChars, CodeUnit, Encode, PairValue, RenderLit, Decoded, ProperLit;
    var u, e := CodeUnit(l.h1, l.h2, l.h3, l.h4), EscapeOf(l.h1, l.h2, l.h3, l.h4);
    if !IsHighSurrogate(u) {
      UnitLit(l);
      UnitAlone(l);
      CharsFrom(l.rest);
      Prepend(e, Encode(u), RenderLit(l.rest), Decoded(l.rest));
    } else {
      PairLit(l);
      PairEscapes(l);
      var r := l.rest;
      CharsFrom(r.rest);
      Prepend(e + EscapeOf(r.h1, r.h2, r.h3, r.h4), Encode(PairValue(u, CodeUnit(r.h1, r.h2, r.h3, r.h4))),
        RenderLit(r.rest), Decoded(r.rest));
    }
  }

  lemma UnitAlone(l: Lit)
    requires l.Uni? && ProperLit(l) && !IsHighSurrogate(CodeUnit(l.h1, l.h2, l.h3, l.h4))
    ensures IsChar(EscapeOf(l.h1, l.h2, l.h3, l.h4), Encode(CodeUnit(l.h1, l.h2, l.h3, l.h4)))
  {
    hide IsChar, CodeUnit, Encode;
    UnitChar(l.h1, l.h2, l.h3, l.h4);
  }

  // ---------- From texts to literals ----------

  /** The pieces of a literal that a character can be written as. */
  lemma PieceFor(p: bytes, m: bytes, l: Lit) returns (k: Lit)
    requires IsChar(p, m) && G.StrictLit(l) && ProperLit(l)
    ensures G.StrictLit(k) && ProperLit(k) && RenderLit(k) == p + RenderLit(l) && Decoded(k) == m + Decoded(l)
  {
    Backslash();
    if |p| == 1 && m == p && p[0] >= 0x20 && p[0] != 0x22 && p[0] != 0x5C {
      k := Raw(p[0], l);
      assert p == [p[0]];
    } else if |p| == 2 && |m| == 1 && p[0] == 0x5C && IsShort(p[1], m[0]) {
      Short(p[1], m[0]);
      k := Esc(p[1], l);
      assert p == [BACKSLASH, p[1]] && m == [m[0]];
    } else {
      k := EscapeFor(p, m, l);
    }
  }

  lemma EscapeFor(p: bytes, m: bytes, l: Lit) returns (k: Lit)
    requires IsUtf8Char(m) && Decode(m) != 0 && IsScalar(Decode(m)) && IsEscaped(p, Decode(m))
    requires G.StrictLit(l) && ProperLit(l)
    ensures G.StrictLit(k) && ProperLit(k) && RenderLit(k) == p + RenderLit(l) && Decoded(k) == m + Decoded(l)
  {
    hide IsUtf8Char, Decode, Encode, IsHex4, CodeUnit, Ascii;
    DecodeIsScalar(m);
    var u := Decode(m);
    if u < 0x10000 {
      k := UnitFor(p, u, l);
    } else {
      k := PairFor(p, u, l);
    }
  }

  lemma OneEscape(p: bytes)
    requires |p| == 6 && p[..2] == [BACKSLASH, LOWER_U]
    ensures forall r: bytes :: [BACKSLASH, LOWER_U, p[2], p[3], p[4], p[5]] + r == p + r
  {
    assert p[0] == p[..2][0] && p[1] == p[..2][1];
  }

  lemma UnitFor(p: bytes, u: nat, l: Lit) returns (k: Lit)
    requires 0 < u < 0x10000 && IsScalar(u) && IsEscaped(p, u) && G.StrictLit(l) && ProperLit(l)
    ensures G.StrictLit(k) && ProperLit(k) && RenderLit(k) == p + RenderLit(l) && Decoded(k) == Encode(u) + Decoded(l)
  {
    hide Encode, IsHex4, CodeUnit, Ascii;
    Backslash();
    UnitOf(p[2..], u);
    k := Uni(p[2], p[3], p[4], p[5], l);
    OneEscape(p);
  }

  lemma PairBack(u: nat)
    requires 0x10000 <= u && IsScalar(u)
    ensures var v := u - 0x10000; var high, low := 0xD800 + v / 0x400, 0xDC00 + v % 0x400;
      IsHighSurrogate(high) && IsLowSurrogate(low) && PairValue(high, low) == u
  {
    var v := u - 0x10000;
    assert v == (v / 0x400) * 0x400 + v % 0x400;
  }

  lemma TwoEscapes(p: bytes)
    requires |p| == 12 && p[..2] == [BACKSLASH, LOWER_U] && p[6..8] == [BACKSLASH, LOWER_U]
    ensures forall r: bytes ::
      [BACKSLASH, LOWER_U, p[2], p[3], p[4], p[5]] + ([BACKSLASH, LOWER_U, p[8], p[9], p[10], p[11]] + r) == p + r
  {
    assert p[0] == p[..2][0] && p[1] == p[..2][1] && p[6] == p[6..8][0] && p[7] == p[6..8][1];
  }

  lemma PairFor(p: bytes, u: nat, l: Lit) returns (k: Lit)
    requires 0x10000 <= u && IsScalar(u) && IsEscaped(p, u) && G.StrictLit(l) && ProperLit(l)
    ensures G.StrictLit(k) && ProperLit(k) && RenderLit(k) == p + RenderLit(l) && Decoded(k) == Encode(u) + Decoded(l)
  {
    hide Encode, IsHex4, CodeUnit, Ascii, PairValue;
    Backslash();
    PairBack(u);
    var v := u - 0x10000;
    UnitOf(p[2..6], 0xD800 + v / 0x400);
    UnitOf(p[8..], 0xDC00 + v % 0x400);
    k := Uni(p[2], p[3], p[4], p[5], Uni(p[8], p[9], p[10], p[11], l));
    TwoEscapes(p);
  }

  lemma FirstChar(b: bytes, t: bytes) returns (i: nat, j: nat)
    requires IsChars(b, t) && b != []
    ensures 0 < i <= |b| && j <= |t| && IsChar(b[..i], t[..j]) && IsChars(b[i..], t[j..])
  {
    hide IsChar;
    i, j :| 0 < i <= |b| && 0 <= j <= |t| && IsChar(b[..i], t[..j]) && IsChars(b[i..], t[j..]);
  }

  lemma {:induction false} LitFor(b: bytes, t: bytes) returns (l: Lit)
    requires IsChars(b, t)
    ensures G.StrictLit(l) && ProperLit(l) && RenderLit(l) == b && Decoded(l) == t
    decreases |b|
  {
    if b == [] {
      return End;
    }
    hide IsChar, IsChars, Decoded, RenderLit, ProperLit, G.StrictLit;
    var i, j := FirstChar(b, t);
    var r := LitFor(b[i..], t[j..]);
    l := PieceFor(b[..i], t[..j], r);
    assert b == b[..i] + b[i..] && t == t[..j] + t[j..];
  }

  // ---------- Values ----------

  predicate Proper(c: Cst) {
    match c
    case CString(l) => ProperLit(l)
    case COpenString(_) => false
    case CArray(es) => ProperElems(es)
    case CObject(ms) => ProperMembers(ms)
    case _ => true
  }

  predicate ProperElems(es: Elems) {
    Proper(es.value) && (es.MoreElems? ==> ProperElems(es.rest))
  }

  predicate ProperMembers(ms: Members) {
    ProperLit(ms.name.key) && Proper(ms.value) && (ms.MorePairs? ==> ProperMembers(ms.rest))
  }

  lemma Tokens()
    ensures Ascii("null") == NULL_WORD && Ascii("true") == TRUE_WORD && Ascii("false") == FALSE_WORD
    ensures Ascii("[") == [LBRACKET] && Ascii("]") == [RBRACKET] && Ascii("{") == [LBRACE] && Ascii("}") == [RBRACE]
    ensures Ascii(",") == [COMMA] && Ascii(":") == [COLON]
  {
  }

  lemma BlanksAre(g: bytes)
    ensures Blanks(g) <==> AllStandard(g)
  {
  }

  /** The elements of an array, each with its gaps. */
  function ElemParts(es: Elems): (ps: seq<bytes>)
    ensures ps != []
  {
    [es.before + Render(es.value) + es.after] + if es.MoreElems? then ElemParts(es.rest) else []
  }

  lemma Triple(a: bytes, b: bytes, c: bytes, d: bytes)
    ensures a + (b + (c + d)) == a + b + c + d
  {
  }

  lemma After(a: bytes, b: bytes, c: bytes, d: bytes)
    ensures a + b + c + d == a + (b + (c + d))
  {
  }

  lemma {:induction false} ElemsJoined(es: Elems)
    ensures RenderElems(es) == Chain(ElemParts(es), [COMMA]) + [RBRACKET]
  {
    hide Render;
    var ps, p := ElemParts(es), es.before + Render(es.value) + es.after;
    if es.MoreElems? {
      ElemsJoined(es.rest);
      assert ps[1..] == ElemParts(es.rest);
      Triple(es.before, Render(es.value), es.after, [COMMA] + RenderElems(es.rest));
      After(p, [COMMA], Chain(ps[1..], [COMMA]), [RBRACKET]);
    } else {
      assert ps == [p];
      Triple(es.before, Render(es.value), es.after, [RBRACKET]);
    }
  }

  lemma ElementIs(a: bytes, t: bytes, b: bytes, v: Json)
    requires AllStandard(a) && AllStandard(b) && IsValue(t, v)
    ensures IsElement(a + t + b, v)
  {
    BlanksAre(a);
    BlanksAre(b);
  }

  lemma {:induction false} ValueFrom(c: Cst)
    requires G.Strict(c) && Proper(c)
    ensures IsValue(Render(c), Meaning(c))
    decreases c, 1
  {
    hide IsNumber, IsString, NumeralValue, RenderNumeral, RenderString, Decoded, AllStandard;
    match c
    case CNumber(n) => NumberFrom(n);
    case CString(l) => StringFrom(l);
    case CArray(es) => ArrayFrom(c);
    case CObject(ms) => ObjectFrom(c);
    case _ => EmptyFrom(c);
  }

  lemma EmptyFrom(c: Cst)
    requires G.Strict(c) && (c.CNull? || c.CFalse? || c.CTrue? || c.CNoElems? || c.CNoMembers?)
    ensures IsValue(Render(c), Meaning(c))
  {
    Tokens();
    if c.CNoElems? || c.CNoMembers? {
      BlanksAre(c.gap);
    }
    hide Ascii, Blanks, AllStandard;
    assert c.CNoElems? ==> Render(c) == Ascii("[") + c.gap + Ascii("]");
    assert c.CNoMembers? ==> Render(c) == Ascii("{") + c.gap + Ascii("}");
  }

  lemma {:induction false} ArrayFrom(c: Cst)
    requires c.CArray? && G.StrictElems(c.elems) && ProperElems(c.elems)
    ensures IsValue(Render(c), Meaning(c))
    decreases c, 0
  {
    Tokens();
    hide Ascii, Chain, RenderElems, IsElement;
    var ps := ElemParts(c.elems);
    ElemsFrom(c.elems);
    ElemsJoined(c.elems);
    assert Render(c) == Ascii("[") + Chain(ps, Ascii(",")) + Ascii("]");
  }

  lemma {:induction false} ObjectFrom(c: Cst)
    requires c.CObject? && G.StrictMembers(c.members) && ProperMembers(c.members)
    ensures IsValue(Render(c), Meaning(c))
    decreases c, 0
  {
    Tokens();
    hide Ascii, Chain, RenderMembers, IsMember;
    var ps := MemberParts(c.members);
    MembersFrom(c.members);
    MembersJoined(c.members);
    assert Render(c) == Ascii("{") + Chain(ps, Ascii(",")) + Ascii("}");
  }

  lemma NumberFrom(n: Numeral)
    requires G.StrictNumeral(n)
    ensures IsNumber(RenderNumeral(n), NumeralValue(n))
  {
    hide NumberParts, TextOfParts, NumberIs, NumeralValue, RenderNumeral;
    NumberShape(n);
    NumberValue(n);
  }

  lemma StringFrom(l: Lit)
    requires G.StrictLit(l) && ProperLit(l)
    ensures IsString(RenderString(l), Decoded(l))
  {
    hide IsChars, Decoded, RenderLit;
    CharsFrom(l);
    assert RenderString(l)[1..|RenderString(l)| - 1] == RenderLit(l);
  }

  lemma {:induction false} ElemsFrom(es: Elems)
    requires G.StrictElems(es) && ProperElems(es)
    ensures |ElemParts(es)| == |Items(es)|
    ensures forall i | 0 <= i < |Items(es)| :: IsElement(ElemParts(es)[i], Items(es)[i])
    decreases es, 2
  {
    hide IsValue, IsElement, Meaning, Render, AllStandard;
    ValueFrom(es.value);
    ElementIs(es.before, Render(es.value), es.after, Meaning(es.value));
    if es.MoreElems? {
      ElemsFrom(es.rest);
      forall i | 0 <= i < |Items(es)| ensures IsElement(ElemParts(es)[i], Items(es)[i]) {
        if i > 0 {
          assert ElemParts(es)[i] == ElemParts(es.rest)[i - 1] && Items(es)[i] == Items(es.rest)[i - 1];
        }
      }
    }
  }

  function NameText(n: Name): bytes {
    n.before + RenderString(n.key) + n.middle + [COLON]
  }

  /** The members of an object, each with its gaps. */
  function MemberParts(ms: Members): (ps: seq<bytes>)
    ensures ps != []
  {
    [NameText(ms.name) + (ms.name.gap + Render(ms.value) + ms.after)]
    + if ms.MorePairs? then MemberParts(ms.rest) else []
  }

  lemma NameRendered(n: Name)
    ensures RenderName(n) == NameText(n) + n.gap
  {
    hide RenderString;
  }

  lemma Behind(a: bytes, b: bytes, c: bytes, d: bytes, x: bytes)
    ensures a + b + (c + (d + x)) == a + (b + c + d) + x
  {
  }

  lemma {:induction false} MembersJoined(ms: Members)
    ensures RenderMembers(ms) == Chain(MemberParts(ms), [COMMA]) + [RBRACE]
  {
    hide Render, RenderString, RenderName, NameText;
    var ps, n := MemberParts(ms), ms.name;
    var p := NameText(n) + (n.gap + Render(ms.value) + ms.after);
    NameRendered(n);
    if ms.MorePairs? {
      MembersJoined(ms.rest);
      assert ps[1..] == MemberParts(ms.rest);
      Behind(NameText(n), n.gap, Render(ms.value), ms.after, [COMMA] + RenderMembers(ms.rest));
      After(p, [COMMA], Chain(ps[1..], [COMMA]), [RBRACE]);
    } else {
      assert ps == [p];
      Behind(NameText(n), n.gap, Render(ms.value), ms.after, [RBRACE]);
    }
  }

  lemma MemberIs(n: Name, e: bytes, m: Member)
    requires G.StrictName(n) && ProperLit(n.key) && m.name == Decoded(n.key) && IsElement(e, m.value)
    ensures IsMember(NameText(n) + e, m)
  {
    Tokens();
    BlanksAre(n.before);
    BlanksAre(n.middle);
    StringFrom(n.key);
    hide IsString, RenderString, Decoded, IsElement, Blanks, Ascii, AllStandard;
    assert NameText(n) + e == n.before + RenderString(n.key) + n.middle + Ascii(":") + e;
  }

  lemma {:induction false} MembersFrom(ms: Members)
    requires G.StrictMembers(ms) && ProperMembers(ms)
    ensures |MemberParts(ms)| == |Pairs(ms)|
    ensures forall i | 0 <= i < |Pairs(ms)| :: IsMember(MemberParts(ms)[i], Pairs(ms)[i])
    decreases ms, 2
  {
    hide IsValue, IsElement, IsMember, Meaning, Render, AllStandard, NameText, Decoded;
    var e := ms.name.gap + Render(ms.value) + ms.after;
    ValueFrom(ms.value);
    ElementIs(ms.name.gap, Render(ms.value), ms.after, Meaning(ms.value));
    MemberIs(ms.name, e, Member(Decoded(ms.name.key), Meaning(ms.value)));
    if ms.MorePairs? {
      MembersFrom(ms.rest);
      forall i | 0 <= i < |Pairs(ms)| ensures IsMember(MemberParts(ms)[i], Pairs(ms)[i]) {
        if i > 0 {
          assert MemberParts(ms)[i] == MemberParts(ms.rest)[i - 1] && Pairs(ms)[i] == Pairs(ms.rest)[i - 1];
        }
      }
    }
  }

  // ---------- From texts to trees ----------

  ghost predicate IsTree(c: Cst, s: bytes, v: Json) {
    G.Strict(c) && Proper(c) && Render(c) == s && Meaning(c) == v
  }

  lemma {:induction false} TreeFor(s: bytes, v: Json) returns (c: Cst)
    requires IsValue(s, v)
    ensures IsTree(c, s, v)
    decreases v, 0, 1
  {
    hide IsNumber, IsString;
    match v
    case Null => c := WordTree(s, v);
    case False => c := WordTree(s, v);
    case True => c := WordTree(s, v);
    case Number(r) => c := NumberTree(s, r);
    case Str(t) => c := StringTree(s, t);
    case Array(items) => c := ArrayTree(s, items);
    case Object(ms) => c := ObjectTree(s, ms);
  }

  lemma WordTree(s: bytes, v: Json) returns (c: Cst)
    requires IsValue(s, v) && (v.Null? || v.False? || v.True?)
    ensures IsTree(c, s, v)
  {
    Tokens();
    c := if v.Null? then CNull else if v.False? then CFalse else CTrue;
  }

  ghost predicate AreElements(parts: seq<bytes>, items: seq<Json>)
    decreases items
  {
    |parts| == |items| && forall i | 0 <= i < |items| :: IsElement(parts[i], items[i])
  }

  ghost predicate AreMembers(parts: seq<bytes>, ms: seq<Member>)
    decreases ms
  {
    |parts| == |ms| && forall i | 0 <= i < |ms| :: IsMember(parts[i], ms[i])
  }

  lemma ArrayParts(s: bytes, items: seq<Json>) returns (parts: seq<bytes>)
    requires IsValue(s, Array(items)) && items != []
    ensures AreElements(parts, items) && s == [LBRACKET] + (Chain(parts, [COMMA]) + [RBRACKET])
  {
    Tokens();
    hide Ascii, IsElement, Chain;
    parts :| |parts| == |items| && s == Ascii("[") + Chain(parts, Ascii(",")) + Ascii("]")
      && forall i | 0 <= i < |items| :: IsElement(parts[i], items[i]);
  }

  lemma ObjectParts(s: bytes, ms: seq<Member>) returns (parts: seq<bytes>)
    requires IsValue(s, Object(ms)) && ms != []
    ensures AreMembers(parts, ms) && s == [LBRACE] + (Chain(parts, [COMMA]) + [RBRACE])
  {
    Tokens();
    hide Ascii, IsMember, Chain;
    parts :| |parts| == |ms| && s == Ascii("{") + Chain(parts, Ascii(",")) + Ascii("}")
      && forall i | 0 <= i < |ms| :: IsMember(parts[i], ms[i]);
  }

  lemma NoElements(s: bytes) returns (c: Cst)
    requires IsValue(s, Array([]))
    ensures IsTree(c, s, Array([]))
  {
    Tokens();
    hide Ascii, Blanks, AllStandard;
    var w :| Blanks(w) && s == Ascii("[") + w + Ascii("]");
    BlanksAre(w);
    c := CNoElems(w);
    assert Render(c) == s;
  }

  lemma NoMembers(s: bytes) returns (c: Cst)
    requires IsValue(s, Object([]))
    ensures IsTree(c, s, Object([]))
  {
    Tokens();
    hide Ascii, Blanks, AllStandard;
    var w :| Blanks(w) && s == Ascii("{") + w + Ascii("}");
    BlanksAre(w);
    c := CNoMembers(w);
    assert Render(c) == s;
  }

  lemma {:induction false} ArrayTree(s: bytes, items: seq<Json>) returns (c: Cst)
    requires IsValue(s, Array(items))
    ensures IsTree(c, s, Array(items))
    decreases Array(items), 0, 0
  {
    hide IsValue, AreElements, Chain, G.StrictElems, ProperElems, ElemParts;
    if items == [] {
      c := NoElements(s);
      return;
    }
    var parts := ArrayParts(s, items);
    var es := ElemsFor(parts, items, 0);
    ElemsJoined(es);
    assert parts[0..] == parts && items[0..] == items;
    c := CArray(es);
  }

  lemma {:induction false} ObjectTree(s: bytes, ms: seq<Member>) returns (c: Cst)
    requires IsValue(s, Object(ms))
    ensures IsTree(c, s, Object(ms))
    decreases Object(ms), 0, 0
  {
    hide IsValue, AreMembers, Chain, G.StrictMembers, ProperMembers, MemberParts;
    if ms == [] {
      c := NoMembers(s);
      return;
    }
    var parts := ObjectParts(s, ms);
    var ps := MembersFor(parts, ms, 0);
    MembersJoined(ps);
    assert parts[0..] == parts && ms[0..] == ms;
    c := CObject(ps);
  }

  lemma NumberTree(s: bytes, r: real) returns (c: Cst)
    requires IsNumber(s, r)
    ensures IsTree(c, s, Number(r))
  {
    var p :| NumberParts(p) && s == TextOfParts(p) && NumberIs(p, r);
    hide NumberParts, TextOfParts, NumberIs, NumeralValue, RenderNumeral, G.StrictNumeral;
    var n := NumeralFor(p, r);
    c := CNumber(n);
  }

  lemma StringTree(s: bytes, t: bytes) returns (c: Cst)
    requires IsString(s, t)
    ensures IsTree(c, s, Str(t))
  {
    hide IsChars, Decoded, RenderLit;
    var l := LitFor(s[1..|s| - 1], t);
    c := CString(l);
    assert s == [QUOTE] + (s[1..|s| - 1] + [QUOTE]);
  }

  /** A value with its gaps. */
  lemma {:induction false} ElementTree(s: bytes, v: Json) returns (a: bytes, c: Cst, b: bytes)
    requires IsElement(s, v)
    ensures AllStandard(a) && AllStandard(b) && G.Strict(c) && Proper(c) && Meaning(c) == v
    ensures s == a + Render(c) + b
    decreases v, 1, 0
  {
    var t;
    a, t, b :| Blanks(a) && IsValue(t, v) && Blanks(b) && s == a + t + b;
    BlanksAre(a);
    BlanksAre(b);
    hide IsValue, Render, Meaning, G.Strict, Proper, Blanks, AllStandard;
    c := TreeFor(t, v);
  }

  lemma ElementOf(parts: seq<bytes>, items: seq<Json>, i: nat)
    requires i < |items| && AreElements(parts, items)
    ensures |parts| == |items| && IsElement(parts[i], items[i])
  {
  }

  lemma {:induction false} ElemsFor(parts: seq<bytes>, items: seq<Json>, i: nat) returns (es: Elems)
    requires i < |items| && AreElements(parts, items)
    ensures G.StrictElems(es) && ProperElems(es) && ElemParts(es) == parts[i..] && Items(es) == items[i..]
    decreases items, |items| - i
  {
    hide AreElements, Meaning, Render, G.Strict, Proper, AllStandard;
    ElementOf(parts, items, i);
    var a, c, b := ElementTree(parts[i], items[i]);
    assert parts[i..] == [parts[i]] + parts[i + 1..] && items[i..] == [items[i]] + items[i + 1..];
    if i + 1 < |items| {
      var rest := ElemsFor(parts, items, i + 1);
      es := MoreElems(a, c, b, rest);
    } else {
      es := LastElem(a, c, b);
    }
  }

  /** A name with its gaps and its colon, and the value behind it. */
  lemma {:induction false} MemberTree(s: bytes, m: Member) returns (n: Name, c: Cst, b: bytes)
    requires IsMember(s, m)
    ensures G.StrictName(n) && ProperLit(n.key) && Decoded(n.key) == m.name
    ensures AllStandard(b) && G.Strict(c) && Proper(c) && Meaning(c) == m.value
    ensures s == NameText(n) + (n.gap + Render(c) + b)
    decreases m, 2, 0
  {
    var a, k, x, e :| Blanks(a) && IsString(k, m.name) && Blanks(x) && IsElement(e, m.value)
      && s == a + k + x + Ascii(":") + e;
    Tokens();
    BlanksAre(a);
    BlanksAre(x);
    hide IsElement, Meaning, G.Strict, Proper, Blanks, AllStandard, Decoded, IsString, IsTree, Ascii, Render;
    var l := KeyFor(k, m.name);
    var g;
    g, c, b := ElementTree(e, m.value);
    n := Name(a, l, x, g);
  }

  lemma KeyFor(s: bytes, t: bytes) returns (l: Lit)
    requires IsString(s, t)
    ensures G.StrictLit(l) && ProperLit(l) && RenderString(l) == s && Decoded(l) == t
  {
    hide IsChars, Decoded, RenderLit;
    l := LitFor(s[1..|s| - 1], t);
    assert s == [QUOTE] + (s[1..|s| - 1] + [QUOTE]);
  }

  lemma {:induction false} MembersFor(parts: seq<bytes>, ms: seq<Member>, i: nat) returns (ps: Members)
    requires i < |ms| && AreMembers(parts, ms)
    ensures G.StrictMembers(ps) && ProperMembers(ps) && MemberParts(ps) == parts[i..] && Pairs(ps) == ms[i..]
    decreases ms, |ms| - i
  {
    hide IsMember, Meaning, Render, G.Strict, Proper, AllStandard, Decoded, NameText, G.StrictName;
    var n, c, b := MemberTree(parts[i], ms[i]);
    if i + 1 < |ms| {
      var rest := MembersFor(parts, ms, i + 1);
      ps := MorePairs(n, c, b, rest);
    } else {
      ps := LastPair(n, c, b);
    }
  }

  // ---------- Whole texts ----------

  lemma DocFor(s: bytes, v: Json) returns (d: Doc)
    requires IsText(s, v)
    ensures G.StrictDoc(d) && Proper(d.value) && RenderDoc(d) == s && Meaning(d.value) == v
  {
    hide IsElement, G.Strict, Proper, Render, Meaning, AllStandard;
    var a, c, b := ElementTree(s, v);
    d := Doc(a, c, b);
  }

  /** Every text that stands for a value by the standard is read to its end as that value. */
  lemma Reads(s: bytes, v: Json)
    requires IsText(s, v)
    ensures NulFree(s) && G.Conforms(s)
    ensures var r := ParseDoc(Terminated(s), true);
      r.Ok? && r.end == |s| && G.StrictDoc(r.value) && Proper(r.value.value) && Meaning(r.value.value) == v
  {
    hide ParseDoc, RenderDoc, IsText, G.StrictDoc, ValidDoc, Proper, Meaning;
    var d := DocFor(s, v);
    G.StrictDocValid(d);
    DocComplete(d);
  }

  lemma DocFrom(d: Doc)
    requires G.StrictDoc(d) && Proper(d.value)
    ensures IsText(RenderDoc(d), Meaning(d.value))
  {
    hide IsElement, IsValue, G.Strict, Proper, Render, Meaning, AllStandard;
    ValueFrom(d.value);
    ElementIs(d.before, Render(d.value), d.after, Meaning(d.value));
    assert RenderDoc(d) == d.before + Render(d.value) + d.after;
  }

  /** A text stands for a value by the standard if and only if it is accepted with a strict syntax tree, all of whose
      escapes stand for characters, and that value. */
  lemma ReadsExactly(s: bytes, v: Json)
    ensures IsText(s, v) <==>
      && NulFree(s)
      && var r := ParseDoc(Terminated(s), true);
         r.Ok? && G.StrictDoc(r.value) && Proper(r.value.value) && Meaning(r.value.value) == v
  {
    hide ParseDoc, RenderDoc, IsText, G.StrictDoc, ValidDoc, Proper, Meaning;
    if IsText(s, v) {
      Reads(s, v);
    }
    if NulFree(s) {
      var r := ParseDoc(Terminated(s), true);
      if r.Ok? && G.StrictDoc(r.value) && Proper(r.value.value) && Meaning(r.value.value) == v {
        DocSound(Terminated(s));
        assert Terminated(s)[..|s|] == s && (RenderDoc(r.value) + [0])[..|s|] == RenderDoc(r.value);
        DocFrom(r.value);
      }
    }
  }

  /** A text stands for one value only. */
  lemma OneValue(s: bytes, v: Json, w: Json)
    requires IsText(s, v) && IsText(s, w)
    ensures v == w
  {
    hide ParseDoc, IsText, G.StrictDoc, Proper, Meaning;
    Reads(s, v);
    Reads(s, w);
  }

  /** A character escaped by its number, in hexadecimal digits of either case, is read as its UTF-8. */
  lemma EscapeRead(p: bytes, u: nat)
    requires IsScalar(u) && u != 0 && IsEscaped(p, u)
    ensures var s := Ascii("\"") + p + Ascii("\"");
      && NulFree(s) && ParseDoc(Terminated(s), true).Ok?
      && var v := Meaning(ParseDoc(Terminated(s), true).value.value);
         v.Str? && IsUtf8Char(v.text) && Decode(v.text) == u
  {
    hide Encode, Decode, IsUtf8Char, IsEscaped, ParseDoc, G.StrictDoc, Meaning, Proper, IsChar, IsChars, IsString,
      IsText, Ascii;
    var s, m := Ascii("\"") + p + Ascii("\""), Encode(u);
    EncodeIsUtf8(u);
    EscapedChar(p, m);
    EscapeLength(p, u);
    OneChar(p, m);
    QuotedText(s, m);
    Reads(s, Str(m));
  }

  lemma OneChar(p: bytes, m: bytes)
    requires IsChar(p, m) && p != []
    ensures IsString(Ascii("\"") + p + Ascii("\""), m)
  {
    hide IsChar, IsChars;
    var s := Ascii("\"") + p + Ascii("\"");
    NoChars();
    Prepend(p, m, [], []);
    assert p + [] == p && m + [] == m && s[1..|s| - 1] == p;
  }

  lemma EscapeLength(p: bytes, u: nat)
    requires IsScalar(u) && IsEscaped(p, u)
    ensures p != []
  {
  }

  lemma QuotedText(s: bytes, m: bytes)
    requires IsString(s, m)
    ensures IsText(s, Str(m))
  {
    hide IsString;
    assert IsValue(s, Str(m));
    assert Blanks([]) && s == [] + s + [];
  }

  // ---------- What is printed ----------

  lemma {:induction false} ProperString(s: bytes)
    requires NulFree(s)
    ensures ProperLit(Printing.LitOf(s))
  {
    if s != [] {
      ProperString(s[1..]);
      if 0 < s[0] < 32 {
        SmallUnitIs(s[0]);
      }
    }
  }

  lemma SmallUnitIs(b: byte)
    requires 0 < b < 32
    ensures CodeUnit(ZERO, ZERO, Printing.HexDigitOf(b / 16), Printing.HexDigitOf(b % 16)) == b
  {
    assert HexValue(ZERO) == 0;
    assert HexValue(Printing.HexDigitOf(b / 16)) == b / 16;
    assert HexValue(Printing.HexDigitOf(b % 16)) == b % 16;
  }

  lemma {:induction false} ProperPrint(v: Json, depth: nat, fmt: bool)
    requires Printable(v)
    ensures Proper(Printing.CstOf(v, depth, fmt))
    decreases v, 0, 0
  {
    match v
    case Str(s) => ProperString(s);
    case Array(items) =>
      if items != [] {
        ProperItems(items, depth, fmt, 0);
      }
    case Object(ms) =>
      if ms != [] {
        ProperPairs(ms, depth + 1, fmt, 0);
      }
    case _ =>
  }

  lemma {:induction false} ProperItems(items: seq<Json>, depth: nat, fmt: bool, i: nat)
    requires i < |items| && Printable(Array(items))
    ensures ProperElems(Printing.ElemsOf(items, depth, fmt, i))
    decreases items, 1, |items| - i
  {
    ProperPrint(items[i], depth + 1, fmt);
    if i + 1 < |items| {
      ProperItems(items, depth, fmt, i + 1);
    }
  }

  lemma {:induction false} ProperPairs(ms: seq<Member>, depth: nat, fmt: bool, i: nat)
    requires i < |ms| && Printable(Object(ms))
    ensures ProperMembers(Printing.MembersOf(ms, depth, fmt, i))
    decreases ms, 1, |ms| - i
  {
    ProperString(ms[i].name);
    ProperPrint(ms[i].value, depth, fmt);
    if i + 1 < |ms| {
      ProperPairs(ms, depth, fmt, i + 1);
    }
  }

  /** What is printed stands by the standard for the value printed. */
  lemma Prints(v: Json, depth: nat, fmt: bool)
    requires Printable(v)
    ensures IsText(Printing.Print(v, depth, fmt), v)
  {
    hide Printing.Print, Printing.CstOf, Render, Meaning, G.Strict, Proper, IsText, Valid;
    var c := Printing.CstOf(v, depth, fmt);
    PrintText(v, depth, fmt);
    PrintMeaning(v, depth, fmt);
    G.PrintStrict(v, depth, fmt);
    ProperPrint(v, depth, fmt);
    DocFrom(Doc([], c, []));
    assert RenderDoc(Doc([], c, [])) == Render(c);
  }
}
