/** The parser as a function: from a C string and a start index to a syntax tree and the index after
    it. It takes the branches of parse_value, parse_array, parse_object, parse_string and parse_number. */
module Parsing {
  import opened Bytes
  import opened Values
  import opened Syntax

  /** Fail carries the index the error pointer is left at. BadEscape says that a string literal holds an
      escape cut short by the end of the text, or a \u without four hexadecimal digits. */
  datatype Parsed<+T> = Ok(value: T, end: nat) | Fail(at: nat) | BadEscape {
    predicate IsFailure() {
      !Ok?
    }

    function PropagateFailure<U>(): Parsed<U>
      requires IsFailure()
    {
      if Fail? then Fail(at) else BadEscape
    }

    function Extract(): (T, nat)
      requires !IsFailure()
    {
      (value, end)
    }
  }

  /** The first byte at or after i that is not skipped as white space. */
  function Skip(z: CString, i: nat): (j: nat)
    requires i < |z|
    ensures i <= j < |z|
    decreases |z| - i
  {
    if IsSkipped(z[i]) then Skip(z, i + 1) else i
  }

  predicate StartsWith(z: CString, i: nat, w: bytes) {
    i + |w| < |z| && z[i..i + |w|] == w
  }

  // ---------- Strings ----------

  datatype LitResult = Literal(lit: Lit, end: nat) | Cut

  predicate HexAt(z: CString, k: nat) {
    k + 3 < |z| && IsHex(z[k]) && IsHex(z[k + 1]) && IsHex(z[k + 2]) && IsHex(z[k + 3])
  }

  /** The body of a literal, up to its closing quote or the end of the text. */
  function LexLit(z: CString, i: nat): (r: LitResult)
    requires i < |z|
    ensures r.Literal? ==> i <= r.end < |z| && (z[r.end] == QUOTE || z[r.end] == 0)
    decreases |z| - i
  {
    if z[i] == QUOTE || z[i] == 0 then Literal(End, i)
    else if z[i] != BACKSLASH then
      var r := LexLit(z, i + 1);
      if r.Cut? then Cut else Literal(Raw(z[i], r.lit), r.end)
    else if z[i + 1] == 0 then Cut
    else if z[i + 1] == LOWER_U then
      if !HexAt(z, i + 2) then Cut
      else
        var r := LexLit(z, i + 6);
        if r.Cut? then Cut else Literal(Uni(z[i + 2], z[i + 3], z[i + 4], z[i + 5], r.lit), r.end)
    else
      var r := LexLit(z, i + 2);
      if r.Cut? then Cut else Literal(Esc(z[i + 1], r.lit), r.end)
  }

  /** A whole literal: the second component says whether the closing quote is there. */
  function LexString(z: CString, i: nat): (r: Parsed<(Lit, bool)>)
    requires i < |z|
    ensures r.Ok? ==> i < r.end < |z| && z[i] == QUOTE && (!r.value.1 ==> z[r.end] == 0)
    ensures r.Fail? ==> r.at == i
  {
    if z[i] != QUOTE then Fail(i)
    else
      match LexLit(z, i + 1)
      case Cut => BadEscape
      case Literal(l, e) => if z[e] == QUOTE then Ok((l, true), e + 1) else Ok((l, false), e)
  }

  // ---------- Numbers ----------

  function RunEnd(z: CString, i: nat): (j: nat)
    requires i < |z|
    ensures i <= j < |z| && !IsDigit(z[j])
    ensures forall k | i <= k < j :: IsDigit(z[k])
    decreases |z| - i
  {
    if IsDigit(z[i]) then RunEnd(z, i + 1) else i
  }

  /** The digits that stand at i. */
  function Run(z: CString, i: nat): (ds: Digits)
    requires i < |z|
    ensures i + |ds| < |z|
  {
    z[i..RunEnd(z, i)]
  }

  function LexWhole(z: CString, i: nat): (ds: Digits)
    requires i < |z|
    ensures i + |ds| < |z|
  {
    if ZERO < z[i] <= NINE then Run(z, i) else []
  }

  function LexFrac(z: CString, i: nat): (ds: Digits)
    requires i < |z|
    ensures i + |RenderFrac(ds)| < |z|
  {
    if z[i] == DOT && IsDigit(z[i + 1]) then Run(z, i + 1) else []
  }

  function LexExp(z: CString, i: nat): (e: Exponent)
    requires i < |z|
    ensures i + |RenderExp(e)| < |z|
  {
    if z[i] == LOWER_E || z[i] == UPPER_E then
      if z[i + 1] == PLUS then Exp(z[i], PlusSign, Run(z, i + 2))
      else if z[i + 1] == MINUS then Exp(z[i], MinusSign, Run(z, i + 2))
      else Exp(z[i], NoSign, Run(z, i + 1))
    else NoExp
  }

  predicate StartsNumeral(b: byte) {
    b == MINUS || IsDigit(b)
  }

  datatype NumResult = NumResult(num: Numeral, end: nat)

  function LexNumeral(z: CString, i: nat): (r: NumResult)
    requires i < |z| && StartsNumeral(z[i])
    ensures i < r.end < |z|
  {
    var neg := z[i] == MINUS;
    var p := if neg then i + 1 else i;
    var zero := z[p] == ZERO;
    var q := if zero then p + 1 else p;
    var whole := LexWhole(z, q);
    var frac := LexFrac(z, q + |whole|);
    var s := q + |whole| + |RenderFrac(frac)|;
    var exp := LexExp(z, s);
    NumResult(Numeral(neg, zero, whole, frac, exp), s + |RenderExp(exp)|)
  }

  // ---------- Values ----------

  function ParseScalar(z: CString, i: nat): (r: Parsed<Cst>)
    requires i < |z|
    ensures r.Ok? ==> i < r.end < |z|
    ensures r.Fail? ==> r.at == i
  {
    if StartsWith(z, i, NULL_WORD) then Ok(CNull, i + 4)
    else if StartsWith(z, i, FALSE_WORD) then Ok(CFalse, i + 5)
    else if StartsWith(z, i, TRUE_WORD) then Ok(CTrue, i + 4)
    else if z[i] == QUOTE then
      var (lit, e) :- LexString(z, i);
      Ok(if lit.1 then CString(lit.0) else COpenString(lit.0), e)
    else if StartsNumeral(z[i]) then
      var r := LexNumeral(z, i);
      Ok(CNumber(r.num), r.end)
    else Fail(i)
  }

  function ParseValue(z: CString, i: nat): (r: Parsed<Cst>)
    requires i < |z|
    ensures r.Ok? ==> i < r.end < |z|
    ensures r.Fail? ==> i <= r.at < |z|
    decreases |z| - i, 0
  {
    if z[i] == LBRACKET then
      var j := Skip(z, i + 1);
      if z[j] == RBRACKET then Ok(CNoElems(z[i + 1..j]), j + 1)
      else
        var (es, e) :- ParseElems(z, i + 1);
        Ok(CArray(es), e)
    else if z[i] == LBRACE then
      var j := Skip(z, i + 1);
      if z[j] == RBRACE then Ok(CNoMembers(z[i + 1..j]), j + 1)
      else
        var (ms, e) :- ParseMembers(z, i + 1);
        Ok(CObject(ms), e)
    else ParseScalar(z, i)
  }

  /** The elements from i, which is just after the opening bracket or a comma. */
  function ParseElems(z: CString, i: nat): (r: Parsed<Elems>)
    requires i < |z|
    ensures r.Ok? ==> i < r.end < |z|
    ensures r.Fail? ==> i <= r.at < |z|
    decreases |z| - i, 1
  {
    var b := Skip(z, i);
    var (v, e) :- ParseValue(z, b);
    var a := Skip(z, e);
    if z[a] == COMMA then
      var (rest, end) :- ParseElems(z, a + 1);
      Ok(MoreElems(z[i..b], v, z[e..a], rest), end)
    else if z[a] == RBRACKET then Ok(LastElem(z[i..b], v, z[e..a]), a + 1)
    else Fail(a)
  }

  /** A member name through its colon, up to where the value starts. */
  function ParseName(z: CString, i: nat): (r: Parsed<Name>)
    requires i < |z|
    ensures r.Ok? ==> i < r.end < |z|
    ensures r.Fail? ==> i <= r.at < |z|
  {
    var b := Skip(z, i);
    var (lit, k) :- LexString(z, b);
    var m := Skip(z, k);
    if z[m] != COLON then Fail(m)
    else
      var g := Skip(z, m + 1);
      Ok(Name(z[i..b], lit.0, z[k..m], z[m + 1..g]), g)
  }

  function ParseMembers(z: CString, i: nat): (r: Parsed<Members>)
    requires i < |z|
    ensures r.Ok? ==> i < r.end < |z|
    ensures r.Fail? ==> i <= r.at < |z|
    decreases |z| - i, 1
  {
    var (name, g) :- ParseName(z, i);
    var (v, e) :- ParseValue(z, g);
    var a := Skip(z, e);
    if z[a] == COMMA then
      var (rest, end) :- ParseMembers(z, a + 1);
      Ok(MorePairs(name, v, z[e..a], rest), end)
    else if z[a] == RBRACE then Ok(LastPair(name, v, z[e..a]), a + 1)
    else Fail(a)
  }

  /** cJSON_ParseWithOpts: `whole` asks that nothing but skipped bytes follow the value. */
  function ParseDoc(z: CString, whole: bool): (r: Parsed<Doc>)
    ensures r.Ok? ==> 0 < r.end < |z| && (whole ==> r.end == |z| - 1)
    ensures r.Fail? ==> r.at < |z|
  {
    var b := Skip(z, 0);
    var (v, e) :- ParseValue(z, b);
    if !whole then Ok(Doc(z[..b], v, []), e)
    else
      var a := Skip(z, e);
      if z[a] != 0 then Fail(a) else Ok(Doc(z[..b], v, z[e..a]), a)
  }
}
