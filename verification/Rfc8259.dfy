/** JSON as RFC 8259 writes it down, in ASCII and without syntax trees: which text stands for which value. The
    parser reads every such text as that value, and what is printed is such a text. */
module Rfc8259 {
  import opened Bytes
  import opened Values
  import opened Utf8

  function Ascii(s: string): (t: bytes)
    requires forall i | 0 <= i < |s| :: s[i] < 128 as char
    ensures |t| == |s| && forall i | 0 <= i < |s| :: t[i] == s[i] as int
  {
    seq(|s|, i requires 0 <= i < |s| => s[i] as int)
  }

  // ---------- Section 2 ----------

  predicate Blank(b: byte) {
    b == 0x20 || b == 0x09 || b == 0x0A || b == 0x0D
  }

  predicate Blanks(s: bytes) {
    forall i | 0 <= i < |s| :: Blank(s[i])
  }

  // ---------- Section 6 ----------

  predicate DigitBytes(ds: bytes) {
    forall i | 0 <= i < |ds| :: 0x30 <= ds[i] <= 0x39
  }

  /** Every digit counts ten times the one behind it. */
  function Decimal(ds: bytes): nat
    requires DigitBytes(ds)
  {
    if ds == [] then 0 else (ds[0] - 0x30) * TenTo(|ds| - 1) + Decimal(ds[1..])
  }

  /** minus int frac exp; `exp` is empty when there is no exponent, and `sign` says how it is signed. */
  datatype Parts = Parts(minus: bool, whole: bytes, frac: bytes, mark: bytes, sign: bytes, exp: bytes)

  predicate NumberParts(p: Parts) {
    && DigitBytes(p.whole) && DigitBytes(p.frac) && DigitBytes(p.exp)
    && p.whole != [] && (p.whole[0] == 0x30 ==> |p.whole| == 1)
    && (if p.exp == [] then p.mark == [] && p.sign == []
        else p.mark in {Ascii("e"), Ascii("E")} && p.sign in {[], Ascii("+"), Ascii("-")})
  }

  function TextOfParts(p: Parts): bytes {
    (if p.minus then Ascii("-") else []) + p.whole + (if p.frac == [] then [] else Ascii(".") + p.frac)
    + p.mark + p.sign + p.exp
  }

  /** All denominators multiplied out. */
  predicate NumberIs(p: Parts, r: real)
    requires NumberParts(p)
  {
    var digits: int := Decimal(p.whole + p.frac);
    var up := if p.sign == Ascii("-") then 1 else TenTo(Decimal(p.exp));
    var down := if p.sign == Ascii("-") then TenTo(Decimal(p.exp)) else 1;
    r * (TenTo(|p.frac|) as real) * (down as real) == (if p.minus then -1.0 else 1.0) * (digits as real) * (up as real)
  }

  ghost predicate IsNumber(s: bytes, r: real) {
    exists p :: NumberParts(p) && s == TextOfParts(p) && NumberIs(p, r)
  }

  // ---------- Section 7 ----------

  /** The hexadecimal digit of v, in either case. */
  predicate IsHexOf(b: byte, v: nat) {
    v < 16 && (b == Ascii("0123456789abcdef")[v] || b == Ascii("0123456789ABCDEF")[v])
  }

  /** Four hexadecimal digits, the most significant first. */
  predicate IsHex4(s: bytes, u: nat) {
    && |s| == 4 && u < 0x10000
    && IsHexOf(s[0], u / 0x1000) && IsHexOf(s[1], u / 0x100 % 16)
    && IsHexOf(s[2], u / 0x10 % 16) && IsHexOf(s[3], u % 16)
  }

  /** The escapes of two characters, and what each stands for. */
  predicate IsShort(c: byte, m: byte) {
    || (c == '"' as int && m == 0x22) || (c == '\\' as int && m == 0x5C) || (c == '/' as int && m == 0x2F)
    || (c == 'b' as int && m == 0x08) || (c == 'f' as int && m == 0x0C) || (c == 'n' as int && m == 0x0A)
    || (c == 'r' as int && m == 0x0D) || (c == 't' as int && m == 0x09)
  }

  /** Four digits for a character of the basic plane, the two surrogates of any other. */
  predicate IsEscaped(p: bytes, u: nat)
    requires IsScalar(u)
  {
    if u < 0x10000 then |p| == 6 && p[..2] == Ascii("\\u") && IsHex4(p[2..], u)
    else
      var v := u - 0x10000;
      && |p| == 12
      && p[..2] == Ascii("\\u") && IsHex4(p[2..6], 0xD800 + v / 0x400)
      && p[6..8] == Ascii("\\u") && IsHex4(p[8..], 0xDC00 + v % 0x400)
  }

  /** One piece of a string literal and the UTF-8 it stands for. */
  predicate IsChar(p: bytes, m: bytes) {
    || (|p| == 1 && m == p && p[0] >= 0x20 && p[0] != 0x22 && p[0] != 0x5C)
    || (|p| == 2 && |m| == 1 && p[0] == 0x5C && IsShort(p[1], m[0]))
    || (IsUtf8Char(m) && Decode(m) != 0 && IsScalar(Decode(m)) && IsEscaped(p, Decode(m)))
  }

  ghost predicate IsChars(b: bytes, t: bytes)
    decreases |b|
  {
    if b == [] then t == []
    else exists i, j | 0 < i <= |b| && 0 <= j <= |t| :: IsChar(b[..i], t[..j]) && IsChars(b[i..], t[j..])
  }

  ghost predicate IsString(s: bytes, t: bytes) {
    |s| >= 2 && s[0] == 0x22 && s[|s| - 1] == 0x22 && IsChars(s[1..|s| - 1], t)
  }

  // ---------- Sections 3 to 5 ----------

  function Chain(parts: seq<bytes>, sep: bytes): bytes {
    if parts == [] then [] else if |parts| == 1 then parts[0] else parts[0] + sep + Chain(parts[1..], sep)
  }

  ghost predicate IsValue(s: bytes, v: Json)
    decreases v, 0
  {
    match v
    case Null => s == Ascii("null")
    case False => s == Ascii("false")
    case True => s == Ascii("true")
    case Number(r) => IsNumber(s, r)
    case Str(t) => IsString(s, t)
    case Array(items) =>
      if items == [] then exists w :: Blanks(w) && s == Ascii("[") + w + Ascii("]")
      else exists parts: seq<bytes> :: |parts| == |items| && s == Ascii("[") + Chain(parts, Ascii(",")) + Ascii("]")
             && forall i | 0 <= i < |items| :: IsElement(parts[i], items[i])
    case Object(ms) =>
      if ms == [] then exists w :: Blanks(w) && s == Ascii("{") + w + Ascii("}")
      else exists parts: seq<bytes> :: |parts| == |ms| && s == Ascii("{") + Chain(parts, Ascii(",")) + Ascii("}")
             && forall i | 0 <= i < |ms| :: IsMember(parts[i], ms[i])
  }

  /** A value with the white space around it. */
  ghost predicate IsElement(s: bytes, v: Json)
    decreases v, 1
  {
    exists a, t, b :: Blanks(a) && IsValue(t, v) && Blanks(b) && s == a + t + b
  }

  ghost predicate IsMember(s: bytes, m: Member)
    decreases m, 2
  {
    exists a, n, b, e :: Blanks(a) && IsString(n, m.name) && Blanks(b) && IsElement(e, m.value)
                         && s == a + n + b + Ascii(":") + e
  }

  /** JSON-text = ws value ws. */
  ghost predicate IsText(s: bytes, v: Json) {
    IsElement(s, v)
  }
}
