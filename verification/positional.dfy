/** Positional numerals: the arithmetic both directions of the codec rest on.

    A digit sequence is read most significant digit first. Bytes (base 256),
    32-bit words (base 2^32) and Base58 digits (base 58) all use the same
    definitions below, instantiated with their base.
 */
module Positional {

  /** An octet, as `unsigned char` / `uint8_t` holds it. */
  type byte = b: nat | b < 256

  function Pow(base: nat, e: nat): (r: nat)
    ensures base > 0 ==> r > 0
  {
    if e == 0 then 1 else base * Pow(base, e - 1)
  }

  /** Every element of `ds` is a digit of `base`. */
  predicate IsDigits(ds: seq<nat>, base: nat) {
    forall i :: 0 <= i < |ds| ==> ds[i] < base
  }

  /** The number a big-endian digit sequence denotes (Horner's rule). */
  function Value(ds: seq<nat>, base: nat): nat {
    if |ds| == 0 then 0 else Value(ds[..|ds| - 1], base) * base + ds[|ds| - 1]
  }

  /** `n` copies of `x`. */
  function Repeat<T>(x: T, n: nat): (r: seq<T>)
    ensures |r| == n
    ensures forall i :: 0 <= i < n ==> r[i] == x
  {
    if n == 0 then [] else Repeat(x, n - 1) + [x]
  }

  /** The number of leading elements of `s` equal to `x`. */
  function LeadingRun<T(==)>(s: seq<T>, x: T): (r: nat)
    ensures r <= |s|
    ensures forall i :: 0 <= i < r ==> s[i] == x
    ensures r < |s| ==> s[r] != x
  {
    if |s| == 0 || s[0] != x then 0 else 1 + LeadingRun(s[1..], x)
  }

  /** The `n`-digit big-endian representation of `v` modulo `base^n`. */
  function ToDigits(v: nat, n: nat, base: nat): (r: seq<nat>)
    requires base > 1
    ensures |r| == n
    ensures IsDigits(r, base)
    decreases n
  {
    if n == 0 then []
    else
      var q, d := v / base, v % base;
      assert d < base;
      ToDigits(q, n - 1, base) + [d]
  }

  /** The shortest representation of `v`: no leading zero digit, empty for 0. */
  function MinDigits(v: nat, base: nat): (r: seq<nat>)
    requires base > 1
    ensures IsDigits(r, base)
    ensures |r| > 0 ==> r[0] != 0
    ensures Value(r, base) == v
    decreases v
  {
    if v == 0 then []
    else
      var q, d := v / base, v % base;
      LowDigit(v, base);
      var m := MinDigits(q, base);
      ValueSnoc(m, d, base);
      m + [d]
  }

  // ---------------------------------------------------------------------
  // Arithmetic helpers (each kept small: nonlinear facts are cheap only in
  // isolation)

  lemma MulMonotone(a: nat, b: nat, c: nat)
    requires a <= b
    ensures a * c <= b * c
  {
  }

  lemma MulDistrib(a: int, b: int, c: int)
    ensures (a + b) * c == a * c + b * c
  {
  }

  lemma MulAssoc(a: int, b: int, c: int)
    ensures a * b * c == a * (b * c)
  {
  }

  lemma MulSwap(a: int, b: int, c: int)
    ensures a * (b * c) == b * (a * c)
  {
  }

  /** A quotient is nonzero exactly when the dividend reaches the divisor;
      a multiple of `p` is nonzero exactly when its factor is. */
  lemma DivNonzero(w: nat, p: nat)
    requires p > 0
    ensures w / p != 0 <==> w >= p
    ensures w / p * p != 0 <==> w / p != 0
  {
    assert w == w / p * p + w % p;
    if w / p != 0 {
      MulMonotone(1, w / p, p);
    }
  }

  /** Splitting off the low digit of a positive number. */
  lemma LowDigit(v: nat, b: nat)
    requires v > 0 && b > 1
    ensures v % b < b && v / b < v && v == v / b * b + v % b
    ensures v / b == 0 ==> v % b == v
  {
    DivLess(v, b);
  }

  lemma DivLess(v: nat, b: nat)
    requires v > 0 && b > 1
    ensures v / b < v
  {
    var q := v / b;
    assert v == q * b + v % b;
    MulMonotone(2, b, q);
  }

  lemma PowAdd(base: nat, a: nat, b: nat)
    ensures Pow(base, a + b) == Pow(base, a) * Pow(base, b)
    decreases a
  {
    if a > 0 {
      PowAdd(base, a - 1, b);
      MulAssoc(base, Pow(base, a - 1), Pow(base, b));
    }
  }

  lemma PowMonotone(base: nat, a: nat, b: nat)
    requires base > 0 && a <= b
    ensures Pow(base, a) <= Pow(base, b)
    decreases b
  {
    if a < b {
      PowMonotone(base, a, b - 1);
      MulMonotone(1, base, Pow(base, b - 1));
    }
  }

  lemma {:induction false} PowBaseMonotone(a: nat, b: nat, e: nat)
    requires a <= b
    ensures Pow(a, e) <= Pow(b, e)
  {
    if e > 0 {
      PowBaseMonotone(a, b, e - 1);
      MulMonotone(a, b, Pow(a, e - 1));
      MulSwap(1, b, Pow(a, e - 1));
      MulMonotone(Pow(a, e - 1), Pow(b, e - 1), b);
    }
  }

  /** A two-digit number in mixed radix stays below the product of the radices. */
  lemma MulAddBound(hi: nat, lo: nat, p: nat, q: nat)
    requires hi < p && lo < q
    ensures hi * q + lo < p * q
  {
    MulMonotone(hi, p - 1, q);
    MulDistrib(p, -1, q);
  }

  lemma {:induction false} PowPow(base: nat, k: nat, n: nat)
    ensures Pow(Pow(base, k), n) == Pow(base, k * n)
  {
    if n > 0 {
      PowPow(base, k, n - 1);
      PowAdd(base, k, k * (n - 1));
      assert k + k * (n - 1) == k * n;
    }
  }

  /** `v` is determined by its quotient and remainder. */
  lemma DivModUnique(v: nat, m: nat, q: nat, r: nat)
    requires m > 0 && r < m && v == q * m + r
    ensures v / m == q && v % m == r
  {
    var q', r' := v / m, v % m;
    assert v == q' * m + r';
    assert (q' - q) * m == r - r';
    SmallMultipleIsZero(q' - q, m);
  }

  lemma SmallMultipleIsZero(k: int, m: nat)
    requires m > 0 && -(m as int) < k * m < m
    ensures k == 0
  {
  }

  lemma DivDiv(v: nat, a: nat, b: nat)
    requires a > 0 && b > 0
    ensures v / a / b == v / (a * b)
  {
    var q, s := v / a / b, (v / a) % b;
    var r := s * a + v % a;
    assert v == (v / a) * a + v % a;
    assert v / a == q * b + s;
    assert v == q * (a * b) + r by {
      MulDistrib(q * b, s, a);
      MulAssoc(q, b, a);
    }
    assert r < a * b by {
      MulMonotone(s, b - 1, a);
      MulDistrib(b, -1, a);
    }
    DivModUnique(v, a * b, q, r);
  }

  // ---------------------------------------------------------------------
  // Value

  lemma {:induction false} ValueConcat(a: seq<nat>, b: seq<nat>, base: nat)
    ensures Value(a + b, base) == Value(a, base) * Pow(base, |b|) + Value(b, base)
    decreases |b|
  {
    if |b| == 0 {
      assert a + b == a;
    } else {
      var b' := b[..|b| - 1];
      assert (a + b)[..|a + b| - 1] == a + b';
      ValueConcat(a, b', base);
      var x, p := Value(a, base), Pow(base, |b'|);
      MulDistrib(x * p, Value(b', base), base);
      MulAssoc(x, p, base);
      assert Pow(base, |b|) == p * base;
    }
  }

  /** Splitting off the most significant digit. */
  lemma ValueFront(ds: seq<nat>, base: nat)
    requires |ds| > 0
    ensures Value(ds, base) == ds[0] * Pow(base, |ds| - 1) + Value(ds[1..], base)
  {
    assert ds == [ds[0]] + ds[1..];
    ValueConcat([ds[0]], ds[1..], base);
    assert Value([ds[0]], base) == ds[0] by {
      assert [ds[0]][..0] == [];
    }
  }

  lemma {:induction false} ValueBound(ds: seq<nat>, base: nat)
    requires IsDigits(ds, base)
    ensures Value(ds, base) < Pow(base, |ds|)
    decreases |ds|
  {
    if |ds| > 0 {
      var init := ds[..|ds| - 1];
      ValueBound(init, base);
      var p := Pow(base, |init|);
      assert Value(ds, base) == Value(init, base) * base + ds[|ds| - 1];
      MulMonotone(Value(init, base), p - 1, base);
      MulDistrib(p, -1, base);
      assert Value(ds, base) < p * base;
      assert Pow(base, |ds|) == base * p;
    }
  }

  /** Comparing a number with `x * base^(k-1)` only looks at its leading digit. */
  lemma LeadingDigitBound(ds: seq<nat>, base: nat, x: nat)
    requires |ds| > 0 && IsDigits(ds, base)
    ensures Value(ds, base) < x * Pow(base, |ds| - 1) <==> ds[0] < x
  {
    ValueFront(ds, base);
    var p := Pow(base, |ds| - 1);
    assert IsDigits(ds[1..], base);
    ValueBound(ds[1..], base);
    if ds[0] < x {
      MulAddBound(ds[0], Value(ds[1..], base), x, p);
      MulSwap(1, x, p);
    } else {
      MulMonotone(x, ds[0], p);
    }
  }

  /** A number whose leading digit is nonzero needs all its digits. */
  lemma ValueLowerBound(ds: seq<nat>, base: nat)
    requires |ds| > 0 && ds[0] != 0
    ensures Value(ds, base) >= Pow(base, |ds| - 1)
  {
    ValueFront(ds, base);
  }

  lemma ValueOfZeros(k: nat, base: nat)
    ensures Value(Repeat(0, k), base) == 0
  {
    ValueOfZeroDigits(Repeat(0, k), base);
  }

  lemma {:induction false} ValueOfZeroDigits(ds: seq<nat>, base: nat)
    requires forall i :: 0 <= i < |ds| ==> ds[i] == 0
    ensures Value(ds, base) == 0
  {
    if |ds| > 0 {
      ValueOfZeroDigits(ds[..|ds| - 1], base);
    }
  }

  /** Leading zero digits do not change the value. */
  lemma ValueLeadingZeros(k: nat, ds: seq<nat>, base: nat)
    ensures Value(Repeat(0, k) + ds, base) == Value(ds, base)
  {
    ValueConcat(Repeat(0, k), ds, base);
    ValueOfZeros(k, base);
  }

  /** Digits consumed after a prefix never make the value smaller. */
  lemma ValuePrefix(a: seq<nat>, b: seq<nat>, base: nat)
    requires base > 0
    ensures Value(a, base) <= Value(a + b, base)
  {
    ValueConcat(a, b, base);
    assert Value(a, base) * Pow(base, |b|) >= Value(a, base) * 1;
  }

  /** Appending one digit is Horner's step. */
  lemma ValueSnoc(ds: seq<nat>, d: nat, base: nat)
    ensures Value(ds + [d], base) == Value(ds, base) * base + d
  {
    assert (ds + [d])[..|ds|] == ds;
  }

  // ---------------------------------------------------------------------
  // Multiply-and-add over a digit array, least significant digit first

  /** One digit of `t = x * m + c`: keep `t % base`, carry `t / base`. */
  lemma CarryStep(x: nat, m: nat, c: nat, t: nat, c': nat, w': nat,
                  rest: nat, rest0: nat, p: nat, base: nat, d: nat)
    requires base > 0 && t == x * m + c
    requires c' == t / base && w' == t % base
    requires rest + c * p == m * rest0 + d
    ensures w' * p + rest + c' * (base * p) == m * (x * p + rest0) + d
  {
    assert t == c' * base + w';
    MulDistrib(c' * base, w', p);
    MulAssoc(c', base, p);
    MulDistrib(x * m, c, p);
    MulSwap(x, m, p);
    MulAssoc(x, m, p);
    MulDistrib(x * p, rest0, m);
    MulSwap(m, x, p);
  }

  /** The multiply-and-add loop at digit `j`: the digits above `j` already
      hold `m * (old digits above j) + d`, less the carry `c` still owed to
      position `j`; after digit `j` is replaced the same holds one place up. */
  lemma MulAddStep(w0: seq<nat>, before: seq<nat>, after: seq<nat>, j: nat,
                   c: nat, c': nat, d: nat, base: nat, m: nat)
    requires base > 0 && |w0| == |before| && j < |w0|
    requires before[..j + 1] == w0[..j + 1] && IsDigits(before, base)
    requires after == before[j := (before[j] * m + c) % base]
    requires c' == (before[j] * m + c) / base
    requires Value(before[j + 1..], base) + c * Pow(base, |w0| - 1 - j)
             == m * Value(w0[j + 1..], base) + d
    ensures after[..j] == w0[..j] && IsDigits(after, base)
    ensures Value(after[j..], base) + c' * Pow(base, |w0| - j)
            == m * Value(w0[j..], base) + d
  {
    var t := before[j] * m + c;
    assert after[j + 1..] == before[j + 1..];
    assert before[j] == w0[j];
    CarryStep(w0[j], m, c, t, c', after[j], Value(before[j + 1..], base),
              Value(w0[j + 1..], base), Pow(base, |w0| - 1 - j), base, d);
    assert after[j..][1..] == after[j + 1..];
    ValueFront(after[j..], base);
    ValueFront(w0[j..], base);
    assert w0[j..][1..] == w0[j + 1..];
  }

  // ---------------------------------------------------------------------
  // Fixed-width and minimal representations

  /** A digit sequence is the fixed-width representation of its own value. */
  lemma {:induction false} ToDigitsOfValue(ds: seq<nat>, base: nat)
    requires base > 1 && IsDigits(ds, base)
    ensures ToDigits(Value(ds, base), |ds|, base) == ds
    decreases |ds|
  {
    if |ds| > 0 {
      var init, last := ds[..|ds| - 1], ds[|ds| - 1];
      DivModUnique(Value(ds, base), base, Value(init, base), last);
      ToDigitsOfValue(init, base);
      assert ds == init + [last];
    }
  }

  /** A nonzero-led digit sequence is the minimal representation of its value. */
  lemma {:induction false} MinDigitsOfValue(ds: seq<nat>, base: nat)
    requires base > 1 && IsDigits(ds, base)
    requires |ds| == 0 || ds[0] != 0
    ensures MinDigits(Value(ds, base), base) == ds
    decreases |ds|
  {
    if |ds| > 0 {
      var init, last := ds[..|ds| - 1], ds[|ds| - 1];
      ValueLowerBound(ds, base);
      DivModUnique(Value(ds, base), base, Value(init, base), last);
      MinDigitsOfValue(init, base);
      assert ds == init + [last];
    }
  }

  /** The minimal representation of a value below `base^n` has at most `n`
      digits. */
  lemma MinDigitsLength(v: nat, n: nat, base: nat)
    requires base > 1 && v < Pow(base, n)
    ensures |MinDigits(v, base)| <= n
  {
    var m := MinDigits(v, base);
    if |m| > n {
      ValueLowerBound(m, base);
      PowMonotone(base, n, |m| - 1);
    }
  }

  /** Zeros in front of digits are still digits. */
  lemma PaddedDigits(k: nat, ds: seq<nat>, base: nat)
    requires base > 0 && IsDigits(ds, base)
    ensures IsDigits(Repeat(0, k) + ds, base)
  {
    var r := Repeat(0, k) + ds;
    forall i | 0 <= i < |r|
      ensures r[i] < base
    {
      if i >= k {
        assert r[i] == ds[i - k];
      }
    }
  }

  /** Padding the minimal representation of a value below `base^n` with
      zeros gives the `n`-digit one. */
  lemma ToDigitsIsPaddedMinDigits(v: nat, n: nat, base: nat)
    requires base > 1 && v < Pow(base, n)
    ensures |MinDigits(v, base)| <= n
    ensures ToDigits(v, n, base) == Repeat(0, n - |MinDigits(v, base)|) + MinDigits(v, base)
  {
    var m := MinDigits(v, base);
    MinDigitsLength(v, n, base);
    var k := n - |m|;
    var padded := Repeat(0, k) + m;
    assert |padded| == n;
    ValueLeadingZeros(k, m, base);
    PaddedDigits(k, m, base);
    ToDigitsOfValue(padded, base);
  }

  /** `ToDigits` inverts `Value` below `base^n`. */
  lemma ValueOfToDigits(v: nat, n: nat, base: nat)
    requires base > 1 && v < Pow(base, n)
    ensures Value(ToDigits(v, n, base), base) == v
  {
    ToDigitsIsPaddedMinDigits(v, n, base);
    ValueLeadingZeros(n - |MinDigits(v, base)|, MinDigits(v, base), base);
  }

  /** Fixed-width representations concatenate like the numbers they denote. */
  lemma ToDigitsConcat(hi: nat, lo: nat, n: nat, m: nat, base: nat)
    requires base > 1 && hi < Pow(base, n) && lo < Pow(base, m)
    ensures ToDigits(hi, n, base) + ToDigits(lo, m, base) == ToDigits(hi * Pow(base, m) + lo, n + m, base)
  {
    var a, b := ToDigits(hi, n, base), ToDigits(lo, m, base);
    var r := a + b;
    assert IsDigits(r, base);
    ValueConcat(a, b, base);
    ValueOfToDigits(hi, n, base);
    ValueOfToDigits(lo, m, base);
    assert Value(r, base) == hi * Pow(base, m) + lo;
    ToDigitsOfValue(r, base);
  }

  /** Digit `i` of the `n`-digit representation of `v`. */
  lemma {:induction false} ToDigitsIndex(v: nat, n: nat, base: nat, i: nat)
    requires base > 1 && i < n
    ensures ToDigits(v, n, base)[i] == v / Pow(base, n - 1 - i) % base
    decreases n
  {
    var init := ToDigits(v / base, n - 1, base);
    assert ToDigits(v, n, base) == init + [v % base];
    if i < n - 1 {
      assert ToDigits(v, n, base)[i] == init[i];
      ToDigitsIndex(v / base, n - 1, base, i);
      DivDiv(v, base, Pow(base, n - 2 - i));
      assert Pow(base, n - 1 - i) == base * Pow(base, n - 2 - i);
    } else {
      assert Pow(base, n - 1 - i) == 1;
    }
  }

  /** A slice grown by the element after it. */
  lemma SliceSnoc<T>(s: seq<T>, a: nat, b: nat)
    requires a <= b < |s|
    ensures s[a..b] + [s[b]] == s[a..b + 1]
  {
  }

  /** The scan `for (n = 0; n < |s| && s[n] == x; n++);` */
  method CountLeading<T(==)>(s: seq<T>, x: T) returns (n: nat)
    ensures n == LeadingRun(s, x)
  {
    n := 0;
    while n < |s| && s[n] == x
      invariant n <= |s|
      invariant forall k :: 0 <= k < n ==> s[k] == x
    {
      n := n + 1;
    }
    LeadingRunIs(s, x, n);
  }

  /** A run of `i` copies of `x` that ends at `i` is the leading run. */
  lemma {:induction false} LeadingRunIs<T>(s: seq<T>, x: T, i: nat)
    requires i <= |s|
    requires forall k :: 0 <= k < i ==> s[k] == x
    requires i == |s| || s[i] != x
    ensures LeadingRun(s, x) == i
  {
    if i > 0 {
      LeadingRunIs(s[1..], x, i - 1);
    }
  }

  /** Leading zeros of the `n`-digit representation: exactly the padding. */
  lemma LeadingZerosOfToDigits(v: nat, n: nat, base: nat)
    requires base > 1 && v < Pow(base, n)
    ensures LeadingRun(ToDigits(v, n, base), 0) == n - |MinDigits(v, base)|
  {
    ToDigitsIsPaddedMinDigits(v, n, base);
    var m := MinDigits(v, base);
    LeadingRunOfPadded(n - |m|, m, 0);
  }

  /** `k` copies of `x` in front of a sequence not starting with `x` are
      its leading run. */
  lemma {:induction false} LeadingRunOfPadded<T>(k: nat, ds: seq<T>, x: T)
    requires |ds| == 0 || ds[0] != x
    ensures LeadingRun(Repeat(x, k) + ds, x) == k
  {
    if k > 0 {
      assert (Repeat(x, k) + ds)[1..] == Repeat(x, k - 1) + ds;
      LeadingRunOfPadded(k - 1, ds, x);
    } else {
      assert Repeat(x, k) + ds == ds;
    }
  }

  /** Stripping the leading-zero run leaves a nonzero-led sequence of the same value. */
  lemma StripLeadingZeros(ds: seq<nat>, base: nat)
    requires base > 1 && IsDigits(ds, base)
    ensures MinDigits(Value(ds, base), base) == ds[LeadingRun(ds, 0)..]
  {
    var k := LeadingRun(ds, 0);
    assert ds == Repeat(0, k) + ds[k..];
    ValueLeadingZeros(k, ds[k..], base);
    MinDigitsOfValue(ds[k..], base);
  }
}
