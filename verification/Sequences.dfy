/** getSequence, the generator of sequence numbers; every source file that uses it has one of its own. */
module Sequences {
  /** How many numbers there are before the generator starts again. */
  const PERIOD: nat := 0x7FFF_FFFE

  /** The number that the k-th call gives, counted from one. */
  function Kth(k: nat): (n: nat)
    requires k > 0
    ensures 1 <= n <= PERIOD
  {
    (k - 1) % PERIOD + 1
  }

  class Generator {
    var msnSequence: int
    /** How often it has been called. */
    ghost var calls: nat

    constructor ()
      ensures Valid() && calls == 0
    {
      msnSequence, calls := 0, 0;
    }

    ghost predicate Valid()
      reads this
    {
      msnSequence == if calls == 0 then 0 else Kth(calls)
    }

    method GetSequence() returns (n: int)
      requires Valid()
      modifies this
      ensures Valid() && calls == old(calls) + 1 && n == Kth(calls)
    {
      Next(calls);
      msnSequence := msnSequence + 1;
      if 0x7FFF_FFFF <= msnSequence {
        msnSequence := 1;
      }
      calls := calls + 1;
      return msnSequence;
    }
  }

  lemma Next(k: nat)
    ensures Kth(k + 1) == if k == 0 then 1 else if Kth(k) + 1 > PERIOD then 1 else Kth(k) + 1
  {
    if k > 0 {
      var q, r := (k - 1) / PERIOD, (k - 1) % PERIOD;
      assert k - 1 == PERIOD * q + r;
      if r + 1 < PERIOD {
        Remainder(k, q, r + 1);
      } else {
        Remainder(k, q + 1, 0);
      }
    }
  }

  lemma Remainder(k: nat, q: nat, r: nat)
    requires k == PERIOD * q + r && r < PERIOD
    ensures k % PERIOD == r
  {
  }

  /** The first numbers are 1, 2, 3 and so on; after 2147483646 comes 1 again. */
  lemma Counts(k: nat)
    requires 0 < k <= 2147483646
    ensures Kth(k) == k && Kth(2147483647) == 1
  {
  }

  /** Two calls give the same number exactly when they are a whole number of periods apart. */
  lemma SameNumber(j: nat, k: nat)
    requires 0 < j <= k
    ensures Kth(j) == Kth(k) <==> (k - j) % PERIOD == 0
  {
    var a, b := (j - 1) / PERIOD, (k - 1) / PERIOD;
    var x, y := (j - 1) % PERIOD, (k - 1) % PERIOD;
    assert j - 1 == PERIOD * a + x && k - 1 == PERIOD * b + y;
    assert k - j == PERIOD * (b - a) + (y - x);
    Apart(k - j, b - a, y - x);
  }

  lemma Apart(d: nat, q: int, r: int)
    requires d == PERIOD * q + r && r < PERIOD && -r < PERIOD
    ensures d % PERIOD == 0 <==> r == 0
  {
    if r >= 0 {
      assert d % PERIOD == r;
    } else {
      assert d == PERIOD * (q - 1) + (r + PERIOD);
      assert d % PERIOD == r + PERIOD;
    }
  }

  /** Within a period no number comes twice. */
  lemma Fresh(j: nat, k: nat)
    requires 0 < j < k < j + PERIOD
    ensures Kth(j) != Kth(k)
  {
    SameNumber(j, k);
  }
}
