/** `b58enc`: bytes to Base58 text.

    `EncodedText` and `Encode` state, on mathematical values, what a call
    produces; `B58Enc` is the digit-array algorithm of the C code (leading
    zero count, the `n * 138 / 100 + 1` digit buffer, the multiply-by-256
    loop bounded by the high-water mark, the leading-zero-digit skip and the
    two-call size protocol), proved to agree with it.
 */
module Encoder {
  import opened Positional
  import opened Alphabet
  import opened LibBase58

  /** The number of leading zero bytes (`zcount`). */
  function ZeroBytes(data: seq<byte>): nat {
    LeadingRun(data, 0)
  }

  /** The number the bytes after the leading zeros denote. */
  function PayloadValue(data: seq<byte>): nat {
    Value(data[ZeroBytes(data)..], 256)
  }

  /** Base58 digits reserved for `n` bytes: `n * 138 / 100 + 1`, an
      over-approximation of `n * log(256) / log(58)`. */
  function DigitCapacity(n: nat): nat {
    n * 138 / 100 + 1
  }

  /** The text `b58enc` writes before the terminator: a '1' per leading zero
      byte, then the minimal Base58 spelling of the remaining bytes' value. */
  function EncodedText(data: seq<byte>): seq<byte> {
    Repeat(ZeroSymbol, ZeroBytes(data)) + Spell(MinDigits(PayloadValue(data), 58))
  }

  /** The state after `b58enc(b58, &b58sz, data, |data|)`: when the buffer
      holds the text and its terminator they are written over its start and
      the size becomes their length; otherwise nothing is written and the
      size becomes the length needed. */
  function Encode(b58: seq<byte>, b58sz: nat, data: seq<byte>): Reply
    requires b58sz <= |b58|
  {
    var t := EncodedText(data);
    var need := |t| + 1;
    if b58sz < need then Reply(false, b58, need)
    else Reply(true, t + [Nul] + b58[need..], need)
  }

  // ---------------------------------------------------------------------
  // The algorithm

  method B58Enc(b58: seq<byte>, b58sz: nat, data: seq<byte>)
    returns (ok: bool, b58': seq<byte>, b58sz': nat)
    requires b58sz <= |b58|
    requires DigitCapacity(|data| - ZeroBytes(data)) < 0x1_0000_0000
    ensures Reply(ok, b58', b58sz') == Encode(b58, b58sz, data)
    ensures b58sz' == |EncodedText(data)| + 1
    ensures ok <==> b58sz >= b58sz'
    ensures !ok ==> b58' == b58
    ensures ok ==> && b58'[..b58sz'] == EncodedText(data) + [Nul]
                   && b58'[b58sz'..] == b58[b58sz'..]
  {
    var zcount, digits := PayloadDigits(data);
    var need := zcount + |digits| + 1;   // zcount + size - j + 1
    EncodeOutcome(b58, b58sz, data, digits);
    if b58sz < need {
      ok, b58', b58sz' := false, b58, need;
    } else {
      var text := WriteText(b58, zcount, digits);
      ok, b58', b58sz' := true, text, need;
    }
    EncodeShape(b58, b58sz, data);
  }

  /** The leading zero count and the digits after the buffer's leading
      zeros: the part of `b58enc` before anything is written. */
  method PayloadDigits(data: seq<byte>) returns (zcount: nat, digits: seq<nat>)
    requires DigitCapacity(|data| - ZeroBytes(data)) < 0x1_0000_0000
    ensures zcount == ZeroBytes(data)
    ensures digits == MinDigits(PayloadValue(data), 58)
  {
    zcount := CountLeading(data, 0);
    var size := (|data| - zcount) * 138 / 100 + 1;
    var buf := Repeat(0, size);   // new unsigned char[size]()
    DigitCapacitySuffices(|data| - zcount);
    buf := FoldBytes(buf, data, zcount);
    var j := CountLeading(buf, 0);   // first nonzero digit
    DigitsOfBuffer(buf, data, zcount);
    digits := buf[j..];
  }

  /** The main loop: the bytes after the leading zeros folded into the digit
      buffer one by one, keeping the high-water mark. */
  method FoldBytes(zeros: seq<nat>, data: seq<byte>, zcount: nat) returns (buf: seq<nat>)
    requires zcount <= |data|
    requires forall k :: 0 <= k < |zeros| ==> zeros[k] == 0
    requires Pow(256, |data| - zcount) <= Pow(58, |zeros|)
    ensures |buf| == |zeros| && IsDigits(buf, 58)
    ensures Value(buf, 58) == Value(data[zcount..], 256)
  {
    buf := zeros;
    var high: int := |buf| - 1;
    ValueOfZeroDigits(buf, 58);
    assert data[zcount..zcount] == [];
    var i := zcount;
    while i < |data|
      invariant zcount <= i <= |data| && |buf| == |zeros|
      invariant Folded(buf, high, data[zcount..i])
    {
      PayloadPrefixFits(data, zcount, i, |buf|);
      buf, high := FoldByte(buf, high, data[i]);
      assert data[zcount..i + 1] == data[zcount..i] + [data[i]];
      i := i + 1;
    }
    assert data[zcount..i] == data[zcount..];
  }

  /** The output: `zcount` '1's (the `memset`), the symbols of the digits
      `ds`, and the terminator, over the start of the caller's buffer. */
  method WriteText(b58: seq<byte>, zcount: nat, ds: seq<nat>) returns (text: seq<byte>)
    requires IsDigits(ds, 58) && zcount + |ds| < |b58|
    ensures text == Repeat(ZeroSymbol, zcount) + Spell(ds) + [Nul] + b58[zcount + |ds| + 1..]
  {
    text := b58;
    if zcount > 0 {
      text := Repeat(ZeroSymbol, zcount) + b58[zcount..];
    }
    var i, j := zcount, 0;
    assert ds[..0] == [];
    while j < |ds|
      invariant j <= |ds| && i == zcount + j
      invariant text == Repeat(ZeroSymbol, zcount) + Spell(ds[..j]) + b58[i..]
    {
      WriteStep(text, Repeat(ZeroSymbol, zcount), ds, j, b58, i);
      text := text[i := DigitsOrdered[ds[j]]];
      i, j := i + 1, j + 1;
    }
    assert ds[..j] == ds;
    Overwrite(Repeat(ZeroSymbol, zcount) + Spell(ds), b58[i..], Nul);
    text := text[i := Nul];
    assert b58[i..][1..] == b58[i + 1..];
  }

  /** Writing the symbol of digit `j` at position `i` extends the spelled
      prefix by one digit. */
  lemma WriteStep(text: seq<byte>, ones: seq<byte>, ds: seq<nat>, j: nat, b58: seq<byte>, i: nat)
    requires IsDigits(ds, 58) && j < |ds| && i < |b58| && i == |ones| + j
    requires text == ones + Spell(ds[..j]) + b58[i..]
    ensures text[i := DigitsOrdered[ds[j]]] == ones + Spell(ds[..j + 1]) + b58[i + 1..]
  {
    Overwrite(ones + Spell(ds[..j]), b58[i..], DigitsOrdered[ds[j]]);
    assert ds[..j + 1] == ds[..j] + [ds[j]];
    SpellSnoc(ds[..j], ds[j]);
    assert b58[i..][1..] == b58[i + 1..];
  }

  /** Writing `c` just after the written prefix extends it by `c` and
      consumes one character of what the buffer held there. */
  lemma Overwrite(prefix: seq<byte>, rest: seq<byte>, c: byte)
    requires |rest| > 0
    ensures (prefix + rest)[|prefix| := c] == prefix + [c] + rest[1..]
  {
  }

  /** The reply `Encode` describes: the size is always the length needed,
      the call succeeds exactly when the buffer is that large, and only a
      successful call writes (the text and its terminator). */
  lemma EncodeShape(b58: seq<byte>, b58sz: nat, data: seq<byte>)
    requires b58sz <= |b58|
    ensures var r := Encode(b58, b58sz, data);
            && r.size == |EncodedText(data)| + 1
            && (r.ok <==> b58sz >= r.size)
            && (!r.ok ==> r.buffer == b58)
            && (r.ok ==> r.buffer[..r.size] == EncodedText(data) + [Nul]
                         && r.buffer[r.size..] == b58[r.size..])
  {
    var r := Encode(b58, b58sz, data);
    if r.ok {
      assert r.buffer == (EncodedText(data) + [Nul]) + b58[r.size..];
    }
  }

  /** `Encode` in terms of the digits the buffer ends with. */
  lemma EncodeOutcome(b58: seq<byte>, b58sz: nat, data: seq<byte>, ds: seq<nat>)
    requires b58sz <= |b58| && ds == MinDigits(PayloadValue(data), 58)
    ensures var need := ZeroBytes(data) + |ds| + 1;
            && |EncodedText(data)| + 1 == need
            && (b58sz < need ==> Encode(b58, b58sz, data) == Reply(false, b58, need))
            && (b58sz >= need ==>
                  Encode(b58, b58sz, data)
                  == Reply(true, Repeat(ZeroSymbol, ZeroBytes(data)) + Spell(ds) + [Nul] + b58[need..], need))
  {
  }

  /** The encoder's loop invariant after the bytes `consumed`: Base58 digits
      whose value is that of the bytes, zero up to the high-water mark. */
  ghost predicate Folded(buf: seq<nat>, high: int, consumed: seq<byte>) {
    && -1 <= high < |buf|
    && IsDigits(buf, 58)
    && (forall k :: 0 <= k <= high ==> buf[k] == 0)
    && Value(buf, 58) == Value(consumed, 256)
  }

  /** One input byte: `buf := buf * 256 + d`, least significant digit first,
      going past the high-water mark only while a carry remains; returns the
      new high-water mark. */
  method FoldByte(buf: seq<nat>, high: int, d: byte) returns (buf': seq<nat>, high': int)
    requires -1 <= high < |buf| && IsDigits(buf, 58)
    requires forall k :: 0 <= k <= high ==> buf[k] == 0
    requires 256 * Value(buf, 58) + d < Pow(58, |buf|)
    ensures |buf'| == |buf| && -1 <= high' <= high && IsDigits(buf', 58)
    ensures forall k :: 0 <= k <= high' ==> buf'[k] == 0
    ensures Value(buf', 58) == 256 * Value(buf, 58) + d
  {
    buf' := buf;
    var carry: nat := d;
    var i: nat := |buf|;  // digits i.. are done; the source's j is i - 1
    while carry != 0 || i > high + 1
      invariant i <= |buf| && |buf'| == |buf| && carry < 256
      invariant buf'[..i] == buf[..i] && IsDigits(buf', 58)
      invariant Value(buf'[i..], 58) + carry * Pow(58, |buf| - i)
                == 256 * Value(buf[i..], 58) + d
      decreases i
    {
      StaysInBuffer(buf', buf, i, high, carry, d);
      buf', carry := FoldDigit(buf, buf', i - 1, carry, d);
      i := i - 1;
    }
    FoldDone(buf, buf', i - 1, high, d);
    high' := i - 1;
  }

  /** Digit `j` of the fold: `carry + 256 * buf[j]` split into the new digit
      (remainder by 58) and the carry (quotient by 58). */
  method FoldDigit(ghost b0: seq<nat>, ws: seq<nat>, j: nat, c: nat, ghost d: nat)
    returns (out: seq<nat>, carry: nat)
    requires |b0| == |ws| && j < |ws| && c < 256
    requires ws[..j + 1] == b0[..j + 1] && IsDigits(ws, 58)
    requires Value(ws[j + 1..], 58) + c * Pow(58, |ws| - 1 - j)
             == 256 * Value(b0[j + 1..], 58) + d
    ensures |out| == |ws| && out[..j] == b0[..j] && IsDigits(out, 58) && carry < 256
    ensures Value(out[j..], 58) + carry * Pow(58, |ws| - j)
            == 256 * Value(b0[j..], 58) + d
  {
    var t := c + 256 * ws[j];
    out := ws[j := t % 58];
    carry := t / 58;
    FoldStep(b0, ws, out, j, c, carry, d);
  }

  // ---------------------------------------------------------------------
  // Lemmas for B58Enc

  /** `n * 138 / 100 + 1` Base58 digits hold any `n`-byte number. */
  lemma DigitCapacitySuffices(n: nat)
    ensures Pow(256, n) <= Pow(58, DigitCapacity(n))
  {
    var s := DigitCapacity(n);
    var m, t := s / 7, s % 7;
    var r := if t > 0 then 6 * t - 1 else 0;
    CapacityBits(n);
    assert Pow(2, 8) == 256;
    PowPow(2, 8, n);
    PowMonotone(2, 8 * n, 41 * m + r);
    PowAdd(2, 41 * m, r);
    PowAdd(58, 7 * m, t);
    assert s == 7 * m + t;
    SevenDigitGroups(m);
    SmallDigitBits(t);
    ProductBound(Pow(2, 41 * m), Pow(58, 7 * m), Pow(2, r), Pow(58, t));
  }

  /** The bit count `8n` of `n` bytes, against the bits the digit capacity
      provides: 41 per group of seven digits and `6t - 1` for `t` more. */
  lemma CapacityBits(n: nat)
    ensures var s := DigitCapacity(n);
            8 * n <= 41 * (s / 7) + (if s % 7 > 0 then 6 * (s % 7) - 1 else 0)
  {
  }

  lemma ProductBound(a: nat, b: nat, c: nat, d: nat)
    requires a <= b && c <= d
    ensures a * c <= b * d
  {
    MulMonotone(a, b, c);
    MulSwap(1, b, c);
    MulMonotone(c, d, b);
  }

  /** Seven Base58 digits carry 41 bits. */
  lemma SevenDigitGroups(m: nat)
    ensures Pow(2, 41 * m) <= Pow(58, 7 * m)
  {
    assert Pow(58, 7) == 2207984167552;
    PowAdd(2, 32, 9);
    assert Pow(2, 9) == 512;
    assert Pow(2, 32) == 0x1_0000_0000 by {
      PowAdd(2, 16, 16);
      PowAdd(2, 8, 8);
      assert Pow(2, 8) == 256;
    }
    PowBaseMonotone(Pow(2, 41), Pow(58, 7), m);
    PowPow(2, 41, m);
    PowPow(58, 7, m);
  }

  /** Each Base58 digit below a group of seven carries almost six bits. */
  lemma SmallDigitBits(t: nat)
    requires t < 7
    ensures Pow(2, if t > 0 then 6 * t - 1 else 0) <= Pow(58, t)
  {
    var r := if t > 0 then 6 * t - 1 else 0;
    if t == 1 {
      assert r == 5 && Pow(2, 5) == 32 && Pow(58, 1) == 58;
    } else if t == 2 {
      assert r == 11 && Pow(2, 11) == 2048 && Pow(58, 2) == 3364;
    } else if t == 3 {
      assert r == 17;
      ThreeDigitBits();
    } else if t == 4 {
      assert r == 23;
      FourDigitBits();
    } else if t == 5 {
      assert r == 29;
      FiveDigitBits();
    } else if t == 6 {
      assert r == 35;
      SixDigitBits();
    }
  }

  lemma ThreeDigitBits()
    ensures Pow(2, 17) == 131072 && Pow(58, 3) == 195112
  {
    PowAdd(2, 11, 6);
    assert Pow(2, 11) == 2048 && Pow(2, 6) == 64;
  }

  lemma FourDigitBits()
    ensures Pow(2, 23) <= Pow(58, 4)
  {
    ThreeDigitBits();
    PowAdd(2, 17, 6);
    PowAdd(58, 3, 1);
    assert Pow(2, 6) == 64;
  }

  lemma FiveDigitBits()
    ensures Pow(2, 29) <= Pow(58, 5)
  {
    ThreeDigitBits();
    PowAdd(2, 17, 12);
    PowAdd(58, 3, 2);
    assert Pow(2, 12) == 4096 && Pow(58, 2) == 3364;
  }

  lemma SixDigitBits()
    ensures Pow(2, 35) <= Pow(58, 6)
  {
    ThreeDigitBits();
    PowAdd(2, 17, 18);
    PowAdd(58, 3, 3);
    PowAdd(2, 6, 12);
    assert Pow(2, 12) == 4096 && Pow(2, 6) == 64;
  }

  /** Folding in one more byte keeps the value below the buffer's capacity. */
  lemma PayloadPrefixFits(data: seq<byte>, zcount: nat, i: nat, size: nat)
    requires zcount <= i < |data|
    requires Pow(256, |data| - zcount) <= Pow(58, size)
    ensures 256 * Value(data[zcount..i], 256) + data[i] < Pow(58, size)
  {
    var prefix := data[zcount..i + 1];
    assert prefix == data[zcount..i] + [data[i]];
    ValueSnoc(data[zcount..i], data[i], 256);
    ValueBound(prefix, 256);
    PowMonotone(256, |prefix|, |data| - zcount);
  }

  /** While the loop runs there is a digit left to visit: a carry left after
      the most significant digit would make the value reach `58^size`. */
  lemma StaysInBuffer(buf: seq<nat>, b0: seq<nat>, i: nat, high: int, carry: nat, d: nat)
    requires |buf| == |b0| && -1 <= high && i <= |buf|
    requires carry != 0 || i > high + 1
    requires Value(buf[i..], 58) + carry * Pow(58, |buf| - i)
             == 256 * Value(b0[i..], 58) + d
    requires 256 * Value(b0, 58) + d < Pow(58, |buf|)
    ensures i > 0
  {
    if i == 0 {
      assert b0[i..] == b0;
      var p := Pow(58, |buf| - i);
      assert p == Pow(58, |buf|);
      MulMonotone(1, carry, p);
    }
  }

  /** The arithmetic of one digit of the fold. */
  lemma FoldStep(b0: seq<nat>, before: seq<nat>, after: seq<nat>, j: nat, c: nat, c': nat, d: nat)
    requires |b0| == |before| && j < |b0| && c < 256
    requires before[..j + 1] == b0[..j + 1] && IsDigits(before, 58)
    requires after == before[j := (c + 256 * before[j]) % 58]
    requires c' == (c + 256 * before[j]) / 58
    requires Value(before[j + 1..], 58) + c * Pow(58, |b0| - 1 - j)
             == 256 * Value(b0[j + 1..], 58) + d
    ensures after[..j] == b0[..j] && IsDigits(after, 58) && c' < 256
    ensures Value(after[j..], 58) + c' * Pow(58, |b0| - j)
            == 256 * Value(b0[j..], 58) + d
  {
    assert c + 256 * before[j] == before[j] * 256 + c;
    MulAddBound(before[j], c, 58, 256);
    MulAddStep(b0, before, after, j, c, c', d, 58, 256);
  }

  /** When the fold stops, the digits it never reached are zeros of both the
      old and the new buffer, so the whole buffer holds `256 * old + d`. */
  lemma FoldDone(b0: seq<nat>, buf: seq<nat>, j: int, high: int, d: nat)
    requires |buf| == |b0| && -1 <= j <= high < |b0|
    requires forall k :: 0 <= k <= high ==> b0[k] == 0
    requires buf[..j + 1] == b0[..j + 1]
    requires Value(buf[j + 1..], 58) + 0 * Pow(58, |b0| - 1 - j) == 256 * Value(b0[j + 1..], 58) + d
    ensures forall k :: 0 <= k <= j ==> buf[k] == 0
    ensures Value(buf, 58) == 256 * Value(b0, 58) + d
  {
    assert b0[..j + 1] == Repeat(0, j + 1);
    assert buf == Repeat(0, j + 1) + buf[j + 1..];
    assert b0 == Repeat(0, j + 1) + b0[j + 1..];
    ValueLeadingZeros(j + 1, buf[j + 1..], 58);
    ValueLeadingZeros(j + 1, b0[j + 1..], 58);
  }

  /** The finished buffer is the `size`-digit representation of the payload,
      so its leading zero digits are padding and the rest is the minimal
      spelling. */
  lemma DigitsOfBuffer(buf: seq<nat>, data: seq<byte>, zcount: nat)
    requires zcount == ZeroBytes(data)
    requires IsDigits(buf, 58) && Value(buf, 58) == Value(data[zcount..], 256)
    ensures buf[LeadingRun(buf, 0)..] == MinDigits(PayloadValue(data), 58)
    ensures |EncodedText(data)| == zcount + |buf| - LeadingRun(buf, 0)
  {
    StripLeadingZeros(buf, 58);
  }

  /** Spelling one more digit appends its symbol. */
  lemma SpellSnoc(ds: seq<nat>, d: nat)
    requires IsDigits(ds, 58) && d < 58
    ensures IsDigits(ds + [d], 58)
    ensures Spell(ds + [d]) == Spell(ds) + [DigitsOrdered[d]]
  {
  }
}
