/** Unsigned numbers of 32 bits, and operations on numbers. */
module Words {
  const WORD: nat := 0x1_0000_0000

  type uint32 = n: nat | n < 0x1_0000_0000

  function Min(a: nat, b: nat): (m: nat) {
    if a < b then a else b
  }

  /** The bits of either number. */
  function Or(a: nat, b: nat): (c: nat) {
    if a == 0 then b
    else if b == 0 then a
    else 2 * Or(a / 2, b / 2) + if a % 2 == 1 || b % 2 == 1 then 1 else 0
  }

  /** Numbers without a common bit are added. */
  lemma {:induction false} OrOfLow(high: nat, low: nat, k: nat, p: nat)
    requires p == Power(k) && low < p
    ensures Or(high * p, low) == high * p + low
  {
    if k == 0 {
      assert low == 0 && high * p == high;
    } else if low == 0 || high == 0 {
    } else {
      var q := Power(k - 1);
      Halves(high, q, low);
      OrOfLow(high, low / 2, k - 1, q);
    }
  }

  lemma Halves(high: nat, q: nat, low: nat)
    ensures high * (2 * q) / 2 == high * q && high * (2 * q) % 2 == 0
  {
    assert high * (2 * q) == 2 * (high * q);
  }

  function Power(k: nat): (p: nat) {
    if k == 0 then 1 else 2 * Power(k - 1)
  }
}
