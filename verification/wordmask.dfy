/** The decoder's "partial top word" overflow test: `out[0] & zeromask`,
    where `zeromask` is `0xffffffff << (bytesleft * 8)` computed in 32 bits.
    Bitwise AND is defined on naturals bit by bit, the shift as the
    multiplication C's `uint32_t` arithmetic performs, and the test is proved
    to be the numeric bound "the top word needs more than `bytesleft` bytes".
 */
module WordMask {
  import opened Positional

  const WordModulus: nat := 0x1_0000_0000

  /** Bitwise AND of two naturals. */
  function BitAnd(a: nat, b: nat): nat
    decreases a
  {
    if a == 0 || b == 0 then 0
    else
      var low := if a % 2 == 1 && b % 2 == 1 then 1 else 0;
      2 * BitAnd(a / 2, b / 2) + low
  }

  /** `0xffffffff << (bytesleft * 8)` as an `uint32_t`; 0 when the capacity
      is a whole number of words. */
  function ZeroMask(bytesleft: nat): nat
    requires bytesleft < 4
  {
    if bytesleft == 0 then 0 else (0xffff_ffff * Pow(2, bytesleft * 8)) % WordModulus
  }

  lemma {:induction false} BitAndLowMask(w: nat, n: nat)
    requires w < Pow(2, n)
    ensures BitAnd(w, Pow(2, n) - 1) == w
  {
    if w > 0 {
      var m := Pow(2, n) - 1;
      assert n > 0;
      assert m / 2 == Pow(2, n - 1) - 1 && m % 2 == 1;
      BitAndLowMask(w / 2, n - 1);
    }
  }

  /** AND with the mask of bits m..n-1 clears the low m bits of an n-bit word. */
  lemma {:induction false} BitAndHighMask(w: nat, n: nat, m: nat)
    requires m <= n && w < Pow(2, n) && Pow(2, m) <= Pow(2, n)
    ensures BitAnd(w, Pow(2, n) - Pow(2, m)) == w / Pow(2, m) * Pow(2, m)
    decreases m
  {
    if m == 0 {
      BitAndLowMask(w, n);
    } else if w == 0 {
    } else if m == n {
      assert w / Pow(2, m) == 0;
    } else {
      PowMonotone(2, m - 1, n - 1);
      assert w / 2 < Pow(2, n - 1);
      BitAndHighMask(w / 2, n - 1, m - 1);
      HighMaskStep(w, n, m);
    }
  }

  /** The step of `BitAndHighMask`: from the mask one bit narrower on half
      the word. */
  lemma HighMaskStep(w: nat, n: nat, m: nat)
    requires 0 < m < n && Pow(2, m - 1) <= Pow(2, n - 1)
    requires BitAnd(w / 2, Pow(2, n - 1) - Pow(2, m - 1))
             == w / 2 / Pow(2, m - 1) * Pow(2, m - 1)
    ensures Pow(2, m) <= Pow(2, n)
    ensures BitAnd(w, Pow(2, n) - Pow(2, m)) == w / Pow(2, m) * Pow(2, m)
  {
    var pn, pm := Pow(2, n - 1), Pow(2, m - 1);
    var mask := 2 * pn - 2 * pm;
    assert mask == Pow(2, n) - Pow(2, m);
    assert mask % 2 == 0 && mask / 2 == pn - pm;
    var h := w / 2;
    var x := BitAnd(h, pn - pm);
    BitAndEven(w, mask);
    var y := BitAnd(w, mask);
    assert y == 2 * x;
    HalvedMultiple(w, h, pm, x, y);
    assert Pow(2, m) == 2 * pm;
  }

  /** Twice the multiple of `pm` below `w / 2` is the multiple of `2 * pm`
      below `w`. */
  lemma HalvedMultiple(w: nat, h: nat, pm: nat, x: nat, y: nat)
    requires pm > 0 && h == w / 2 && x == h / pm * pm && y == 2 * x
    ensures y == w / (2 * pm) * (2 * pm)
  {
    DivDiv(w, 2, pm);
    MulSwap(2, w / (2 * pm), pm);
  }

  /** An even mask drops the low bit. */
  lemma BitAndEven(a: nat, b: nat)
    requires b % 2 == 0
    ensures BitAnd(a, b) == 2 * BitAnd(a / 2, b / 2)
  {
  }

  lemma PowersOfTwo()
    ensures Pow(2, 8) == 256 && Pow(256, 1) == 256
    ensures Pow(2, 16) == 0x1_0000 && Pow(2, 24) == 0x100_0000
    ensures Pow(2, 32) == WordModulus && Pow(256, 4) == WordModulus
  {
    PowAdd(2, 8, 8);
    PowAdd(2, 16, 8);
    PowAdd(2, 16, 16);
    PowAdd(256, 2, 2);
    PowAdd(256, 1, 1);
  }

  lemma ZeroMaskValue(bytesleft: nat)
    requires 0 < bytesleft < 4
    ensures ZeroMask(bytesleft) == Pow(2, 32) - Pow(2, bytesleft * 8)
    ensures Pow(2, bytesleft * 8) == Pow(256, bytesleft)
  {
    PowersOfTwo();
    if bytesleft == 2 {
      PowAdd(256, 1, 1);
    } else if bytesleft == 3 {
      PowAdd(256, 2, 1);
      PowAdd(256, 1, 1);
    }
  }

  /** The zeromask test fires exactly when the top word holds more than
      `bytesleft` bytes; with a whole number of words it never fires. */
  lemma ZeroMaskTest(w: nat, bytesleft: nat)
    requires w < WordModulus && bytesleft < 4
    ensures BitAnd(w, ZeroMask(bytesleft)) != 0 <==> bytesleft > 0 && w >= Pow(256, bytesleft)
  {
    if bytesleft > 0 {
      ZeroMaskValue(bytesleft);
      PowersOfTwo();
      var p := Pow(2, bytesleft * 8);
      PowMonotone(2, bytesleft * 8, 32);
      BitAndHighMask(w, 32, bytesleft * 8);
      assert BitAnd(w, ZeroMask(bytesleft)) == w / p * p;
      DivNonzero(w, p);
    }
  }
}
