/** What a JSON text means. */
module Values {
  import opened Bytes

  /** Numbers are exact; member order and duplicate names are kept. */
  datatype Json =
    | Null
    | False
    | True
    | Number(value: real)
    | Str(text: bytes)
    | Array(items: seq<Json>)
    | Object(members: seq<Member>)

  datatype Member = Member(name: bytes, value: Json)

  predicate IsInt32(r: real) {
    r.Floor as real == r && -0x8000_0000 <= r.Floor <= 0x7FFF_FFFF
  }

  /** Values the integer branch of the number printer and C strings can represent. */
  predicate Printable(v: Json) {
    match v
    case Number(r) => IsInt32(r)
    case Str(s) => NulFree(s)
    case Array(items) => forall i | 0 <= i < |items| :: Printable(items[i])
    case Object(ms) => forall i | 0 <= i < |ms| :: NulFree(ms[i].name) && Printable(ms[i].value)
    case _ => true
  }

  /** Exact powers of ten. */
  function Pow10(k: int): real
    decreases if k < 0 then -k else k
  {
    if k == 0 then 1.0
    else if k > 0 then 10.0 * Pow10(k - 1)
    else Pow10(k + 1) / 10.0
  }

  /** The k-th power of ten. */
  function TenTo(k: nat): nat {
    if k == 0 then 1 else 10 * TenTo(k - 1)
  }

  /** Conversion to int drops the fraction. */
  function Truncated(r: real): int {
    if r >= 0.0 then r.Floor else -(-r).Floor
  }

  /** It is the last integer on the way from zero to the number. */
  lemma TruncatedIs(r: real)
    ensures r >= 0.0 ==> 0.0 <= Truncated(r) as real <= r < Truncated(r) as real + 1.0
    ensures r <= 0.0 ==> Truncated(r) as real - 1.0 < r <= Truncated(r) as real <= 0.0
    ensures r.Floor as real == r ==> Truncated(r) == r.Floor
  {
  }

  type Digit = b: byte | IsDigit(b) witness ZERO
  type Digits = seq<Digit>

  /** The number written by a string of decimal digits. */
  function NatOf(ds: Digits): nat {
    if |ds| == 0 then 0
    else
      var last: int := ds[|ds| - 1];
      NatOf(ds[..|ds| - 1]) * 10 + (last - ZERO)
  }
}
