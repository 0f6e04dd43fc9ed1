/** Bytes, C strings and the character codes the JSON engine tests for. */
module Bytes {
  type byte = x: int | 0 <= x < 256
  type bytes = seq<byte>

  /** A buffer holding a C string: the terminator is its last byte and its only NUL. */
  predicate IsCString(z: bytes) {
    && |z| > 0
    && z[|z| - 1] == 0
    && forall i | 0 <= i < |z| - 1 :: z[i] != 0
  }

  type CString = z: bytes | IsCString(z) witness [0]

  predicate NulFree(s: bytes) {
    forall i | 0 <= i < |s| :: s[i] != 0
  }

  function Terminated(s: bytes): (z: CString)
    requires NulFree(s)
    ensures z == s + [0]
  {
    s + [0]
  }

  const BACKSPACE: byte := 8
  const TAB: byte := 9
  const LF: byte := 10
  const FF: byte := 12
  const CR: byte := 13
  const SPACE: byte := 32
  const QUOTE: byte := 34
  const STAR: byte := 42
  const PLUS: byte := 43
  const COMMA: byte := 44
  const MINUS: byte := 45
  const DOT: byte := 46
  const SLASH: byte := 47
  const ZERO: byte := 48
  const NINE: byte := 57
  const COLON: byte := 58
  const UPPER_E: byte := 69
  const LBRACKET: byte := 91
  const BACKSLASH: byte := 92
  const RBRACKET: byte := 93
  const LOWER_B: byte := 98
  const LOWER_E: byte := 101
  const LOWER_F: byte := 102
  const LOWER_N: byte := 110
  const LOWER_R: byte := 114
  const LOWER_T: byte := 116
  const LOWER_U: byte := 117
  const LBRACE: byte := 123
  const RBRACE: byte := 125

  const NULL_WORD: bytes := [110, 117, 108, 108]
  const FALSE_WORD: bytes := [102, 97, 108, 115, 101]
  const TRUE_WORD: bytes := [116, 114, 117, 101]

  predicate IsDigit(b: byte) {
    ZERO <= b <= NINE
  }

  /** The text of `s` fills `z` from index i up to index j. */
  predicate Spans(z: bytes, i: nat, s: bytes, j: nat) {
    i + |s| == j <= |z| && z[i..j] == s
  }

  lemma SpanJoin(z: bytes, i: nat, a: bytes, j: nat, b: bytes, k: nat)
    requires Spans(z, i, a, j) && Spans(z, j, b, k)
    ensures Spans(z, i, a + b, k)
  {
    assert z[i..k] == z[i..j] + z[j..k];
  }

  lemma SpanByte(z: bytes, i: nat, b: byte)
    requires i < |z| && z[i] == b
    ensures Spans(z, i, [b], i + 1)
  {
  }

  lemma SpanNone(z: bytes, i: nat)
    requires i <= |z|
    ensures Spans(z, i, [], i)
  {
  }

  lemma SpanPair(z: bytes, i: nat)
    requires i + 1 < |z|
    ensures Spans(z, i, [z[i], z[i + 1]], i + 2)
  {
  }

  lemma SpanSlice(z: bytes, i: nat, j: nat)
    requires i <= j <= |z|
    ensures Spans(z, i, z[i..j], j)
  {
  }

  lemma SpanSplit(z: bytes, i: nat, a: bytes, b: bytes, k: nat)
    requires Spans(z, i, a + b, k)
    ensures Spans(z, i, a, i + |a|) && Spans(z, i + |a|, b, k)
  {
    var s := z[i..k];
    assert s[..|a|] == z[i..i + |a|] && s[|a|..] == z[i + |a|..k];
    assert (a + b)[..|a|] == a && (a + b)[|a|..] == b;
  }

  lemma SpanJoin3(z: bytes, i: nat, a: bytes, j: nat, b: bytes, k: nat, c: bytes, l: nat)
    requires Spans(z, i, a, j) && Spans(z, j, b, k) && Spans(z, k, c, l)
    ensures Spans(z, i, a + (b + c), l)
  {
    hide Spans;
    SpanJoin(z, j, b, k, c, l);
    SpanJoin(z, i, a, j, b + c, l);
  }

  lemma SpanJoin4(z: bytes, i: nat, a: bytes, j: nat, b: bytes, k: nat, c: bytes, l: nat, d: bytes, m: nat)
    requires Spans(z, i, a, j) && Spans(z, j, b, k) && Spans(z, k, c, l) && Spans(z, l, d, m)
    ensures Spans(z, i, a + (b + (c + d)), m)
  {
    hide Spans;
    SpanJoin3(z, j, b, k, c, l, d, m);
    SpanJoin(z, i, a, j, b + (c + d), m);
  }

  lemma SpanSplit3(z: bytes, i: nat, a: bytes, b: bytes, c: bytes, m: nat) returns (j: nat, k: nat)
    requires Spans(z, i, a + (b + c), m)
    ensures j == i + |a| && k == j + |b| && m == k + |c| <= |z|
    ensures Spans(z, i, a, j) && Spans(z, j, b, k) && Spans(z, k, c, m)
  {
    j, k := i + |a|, i + |a| + |b|;
    SpanSplit(z, i, a, b + c, m);
    SpanSplit(z, j, b, c, m);
  }

  lemma SpanSplit4(z: bytes, i: nat, a: bytes, b: bytes, c: bytes, d: bytes, m: nat) returns (j: nat, k: nat, l: nat)
    requires Spans(z, i, a + (b + (c + d)), m)
    ensures j == i + |a| && k == j + |b| && l == k + |c| && m == l + |d| <= |z|
    ensures Spans(z, i, a, j) && Spans(z, j, b, k) && Spans(z, k, c, l) && Spans(z, l, d, m)
  {
    var s := c + d;
    j, k := SpanSplit3(z, i, a, b, s, m);
    l := k + |c|;
    SpanSplit(z, k, c, d, m);
  }

  lemma SpanAt(z: bytes, i: nat, s: bytes, j: nat, k: nat)
    requires Spans(z, i, s, j) && k < |s|
    ensures z[i + k] == s[k]
  {
    assert z[i..j][k] == z[i + k];
  }
}
