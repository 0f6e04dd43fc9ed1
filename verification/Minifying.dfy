/** The minifier: what cJSON_Minify leaves of a text, and the in-place loop that computes it. */
module Minifying {
  import opened Bytes
  import opened Syntax

  /** Overrun says that a string or a block comment is still open where the text ends. */
  datatype Minified = Text(s: bytes) | Overrun

  function Then(p: bytes, r: Minified): Minified {
    if r.Overrun? then Overrun else Text(p + r.s)
  }

  /** The line feed or terminator at or after i. */
  function LineStop(z: CString, i: nat): (j: nat)
    requires i < |z|
    ensures i <= j < |z|
    decreases |z| - i
  {
    if z[i] == 0 || z[i] == LF then i else LineStop(z, i + 1)
  }

  /** The star-slash or terminator at or after i. */
  function BlockStop(z: CString, i: nat): (j: nat)
    requires i < |z|
    ensures i <= j < |z| && (z[j] == 0 || (z[j] == STAR && z[j + 1] == SLASH))
    decreases |z| - i
  {
    if z[i] == 0 || (z[i] == STAR && z[i + 1] == SLASH) then i else BlockStop(z, i + 1)
  }

  function Minify(z: CString, i: nat): Minified
    requires i < |z|
    decreases |z| - i
  {
    if z[i] == 0 then Text([])
    else if IsStandardBlank(z[i]) then Minify(z, i + 1)
    else if z[i] == SLASH && z[i + 1] == SLASH then Minify(z, LineStop(z, i))
    else if z[i] == SLASH && z[i + 1] == STAR then
      var k := BlockStop(z, i);
      if z[k] == 0 then Overrun else Minify(z, k + 2)
    else if z[i] == QUOTE then Then([QUOTE], MinifyString(z, i + 1))
    else Then([z[i]], Minify(z, i + 1))
  }

  /** The same from inside a string literal. */
  function MinifyString(z: CString, i: nat): Minified
    requires i < |z|
    decreases |z| - i
  {
    if z[i] == 0 then Overrun
    else if z[i] == QUOTE then Then([QUOTE], Minify(z, i + 1))
    else if z[i] != BACKSLASH then Then([z[i]], MinifyString(z, i + 1))
    else if z[i + 1] == 0 then Overrun
    else Then([z[i], z[i + 1]], MinifyString(z, i + 2))
  }

  lemma ThenThen(a: bytes, b: bytes, r: Minified)
    ensures Then(a, Then(b, r)) == Then(a + b, r)
  {
    if r.Text? {
      assert a + (b + r.s) == a + b + r.s;
    }
  }

  lemma ThenNone(r: Minified)
    ensures Then([], r) == r
  {
    if r.Text? {
      assert [] + r.s == r.s;
    }
  }

  /** The read and write positions of the loop over the buffer that held z: the bytes from the read
      position on are still the original's, the bytes before the write position are output. */
  ghost predicate Progress(json: array<byte>, z: CString, r: nat, w: nat)
    reads json
  {
    && w <= r < |z| <= json.Length
    && forall k | r <= k < |z| :: json[k] == z[k]
  }

  /** The buffer ends up holding the minified text and its terminator; nothing behind the original
      terminator is touched. */
  method MinifyInPlace(json: array<byte>, ghost z: CString)
    requires |z| <= json.Length && json[..|z|] == z
    requires Minify(z, 0).Text?
    modifies json
    ensures var m := Minify(z, 0).s; |m| < |z| && json[..|m|] == m && json[|m|] == 0
    ensures json[|z|..] == old(json[|z|..])
  {
    hide Minify, MinifyString, LineStop, BlockStop;
    var r: nat, into: nat := 0, 0;
    ThenNone(Minify(z, 0));
    while json[r] != 0
      invariant Progress(json, z, r, into)
      invariant Minify(z, 0) == Then(json[..into], Minify(z, r))
      invariant json[|z|..] == old(json[|z|..])
      decreases |z| - r
    {
      MinifyCases(z, r);
      if json[r] == SPACE || json[r] == TAB || json[r] == CR || json[r] == LF {
        r := r + 1;
      } else if json[r] == SLASH && json[r + 1] == SLASH {
        r := SkipLine(json, z, r, into);
      } else if json[r] == SLASH && json[r + 1] == STAR {
        r := SkipBlock(json, z, r, into);
      } else if json[r] == QUOTE {
        r, into := CopyString(json, z, r, into);
      } else {
        ThenThen(json[..into], [z[r]], Minify(z, r + 1));
        r, into := CopyByte(json, z, r, into);
      }
    }
    MinifyCases(z, r);
    assert json[..into] + [] == json[..into];
    json[into] := 0;
  }

  lemma MinifyCases(z: CString, i: nat)
    requires i < |z|
    ensures z[i] != 0 ==> i + 1 < |z|
    ensures z[i] == SLASH ==> i < LineStop(z, i)
    ensures Minify(z, i) ==
            if z[i] == 0 then Text([])
            else if IsStandardBlank(z[i]) then Minify(z, i + 1)
            else if z[i] == SLASH && z[i + 1] == SLASH then Minify(z, LineStop(z, i))
            else if z[i] == SLASH && z[i + 1] == STAR then
              if z[BlockStop(z, i)] == 0 then Overrun else Minify(z, BlockStop(z, i) + 2)
            else if z[i] == QUOTE then Then([QUOTE], MinifyString(z, i + 1))
            else Then([z[i]], Minify(z, i + 1))
  {
  }

  /** One byte copied from the read to the write position, both stepped on. */
  method CopyByte(json: array<byte>, ghost z: CString, r: nat, w: nat) returns (r': nat, w': nat)
    requires Progress(json, z, r, w) && z[r] != 0
    modifies json
    ensures r' == r + 1 && w' == w + 1 && Progress(json, z, r', w')
    ensures json[..w'] == old(json[..w]) + [z[r]]
    ensures json[|z|..] == old(json[|z|..])
  {
    json[w] := json[r];
    r', w' := r + 1, w + 1;
    assert json[..w'] == json[..w] + [json[w]];
  }

  method SkipLine(json: array<byte>, ghost z: CString, start: nat, ghost w: nat) returns (r: nat)
    requires Progress(json, z, start, w) && z[start] != 0
    ensures r == LineStop(z, start)
  {
    r := start;
    while json[r] != 0 && json[r] != LF
      invariant start <= r < |z| && LineStop(z, start) == LineStop(z, r)
      decreases |z| - r
    {
      r := r + 1;
    }
  }

  method SkipBlock(json: array<byte>, ghost z: CString, start: nat, ghost w: nat) returns (r: nat)
    requires Progress(json, z, start, w) && z[BlockStop(z, start)] != 0
    ensures r == BlockStop(z, start) + 2
  {
    r := start;
    while json[r] != 0 && !(json[r] == STAR && json[r + 1] == SLASH)
      invariant start <= r < |z| && BlockStop(z, start) == BlockStop(z, r)
      decreases |z| - r
    {
      r := r + 1;
    }
    r := r + 2;
  }

  /** Copies a string literal verbatim. */
  method CopyString(json: array<byte>, ghost z: CString, start: nat, w: nat) returns (r: nat, into: nat)
    requires Progress(json, z, start, w) && z[start] == QUOTE
    requires Minify(z, 0).Text? && Minify(z, 0) == Then(json[..w], Minify(z, start))
    modifies json
    ensures start < r && Progress(json, z, r, into)
    ensures Minify(z, 0) == Then(json[..into], Minify(z, r))
    ensures json[|z|..] == old(json[|z|..])
  {
    hide Minify, MinifyString, LineStop, BlockStop;
    MinifyCases(z, start);
    ThenThen(json[..w], [QUOTE], MinifyString(z, start + 1));
    r, into := CopyByte(json, z, start, w);
    while json[r] != 0 && json[r] != QUOTE
      invariant start < r && Progress(json, z, r, into)
      invariant Minify(z, 0) == Then(json[..into], MinifyString(z, r))
      invariant json[|z|..] == old(json[|z|..])
      decreases |z| - r
    {
      StringCases(z, r);
      if json[r] == BACKSLASH {
        ThenThen(json[..into], [BACKSLASH, z[r + 1]], MinifyString(z, r + 2));
        r, into := CopyEscape(json, z, r, into);
      } else {
        ThenThen(json[..into], [z[r]], MinifyString(z, r + 1));
        r, into := CopyByte(json, z, r, into);
      }
    }
    StringCases(z, r);
    ThenThen(json[..into], [QUOTE], Minify(z, r + 1));
    r, into := CopyByte(json, z, r, into);
  }

  lemma StringCases(z: CString, i: nat)
    requires i < |z|
    ensures z[i] != 0 ==> i + 1 < |z|
    ensures MinifyString(z, i) ==
            if z[i] == 0 then Overrun
            else if z[i] == QUOTE then Then([QUOTE], Minify(z, i + 1))
            else if z[i] != BACKSLASH then Then([z[i]], MinifyString(z, i + 1))
            else if z[i + 1] == 0 then Overrun
            else Then([z[i], z[i + 1]], MinifyString(z, i + 2))
  {
  }

  /** A backslash and the byte it escapes, copied as CopyByte copies one. */
  method CopyEscape(json: array<byte>, ghost z: CString, r: nat, w: nat) returns (r': nat, w': nat)
    requires Progress(json, z, r, w) && z[r] == BACKSLASH && z[r + 1] != 0
    modifies json
    ensures r' == r + 2 && w' == w + 2 && Progress(json, z, r', w')
    ensures json[..w'] == old(json[..w]) + [BACKSLASH, z[r + 1]]
    ensures json[|z|..] == old(json[|z|..])
  {
    r', w' := CopyByte(json, z, r, w);
    r', w' := CopyByte(json, z, r', w');
    assert old(json[..w]) + [z[r]] + [z[r + 1]] == old(json[..w]) + [BACKSLASH, z[r + 1]];
  }
}
