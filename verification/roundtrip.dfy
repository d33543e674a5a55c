/** How `b58tobin` and `b58enc` fit together: encoding then decoding gives
    the bytes back, decoding then encoding gives the text back, leading zero
    bytes and leading '1's correspond one to one, the empty cases, and the
    encoder's two-call size protocol.
 */
module RoundTrip {
  import opened Positional
  import opened Alphabet
  import opened LibBase58
  import opened Decoder
  import opened Encoder

  // ---------------------------------------------------------------------
  // The shape of the encoder's text

  /** Bytes split into their leading zeros and the minimal big-endian bytes
      of the rest. */
  lemma PayloadSplit(data: seq<byte>)
    ensures data == Repeat(0, ZeroBytes(data)) + MinDigits(PayloadValue(data), 256)
  {
    var z := ZeroBytes(data);
    var payload: seq<nat> := data[z..];
    assert data == Repeat(0, z) + payload;
    assert IsDigits(payload, 256);
    MinDigitsOfValue(payload, 256);
  }

  /** The payload's value fits in as many bytes as the input has. */
  lemma PayloadFits(data: seq<byte>)
    ensures PayloadValue(data) < Pow(256, |data|)
  {
    var payload: seq<nat> := data[ZeroBytes(data)..];
    assert IsDigits(payload, 256);
    ValueBound(payload, 256);
    PowMonotone(256, |payload|, |data|);
  }

  /** The '1's the encoder writes are exactly the leading zero bytes; the
      text after them spells the payload's value. */
  lemma LeadingZerosBecomeOnes(data: seq<byte>)
    ensures LeadingOnes(EncodedText(data)) == ZeroBytes(data)
    ensures Digits(EncodedText(data)) == Spell(MinDigits(PayloadValue(data), 58))
    ensures AllDigitChars(Digits(EncodedText(data)))
    ensures DigitsValue(EncodedText(data)) == PayloadValue(data)
  {
    var ds := MinDigits(PayloadValue(data), 58);
    var digits := Spell(ds);
    if |ds| > 0 {
      ZeroSymbolIsDigitZero(digits[0]);
    }
    LeadingRunOfPadded(ZeroBytes(data), digits, ZeroSymbol);
    DigitsOfSpell(ds);
  }

  /** The caller's view of a successful encoding: the text, its terminator
      and whatever followed. Read with its length or as a terminated string,
      the text is the same. */
  lemma InputOfEncoded(t: seq<byte>, rest: seq<byte>)
    requires Nul !in t
    ensures InputOf(t + [Nul] + rest, |t|) == t
    ensures InputOf(t + [Nul] + rest, 0) == t
  {
    var b := t + [Nul] + rest;
    assert b[..|t|] == t && b[|t|] == Nul;
    assert forall i :: 0 <= i < |t| ==> b[i] == t[i] && t[i] != Nul;
    assert StrLen(b) == |t|;
  }

  // ---------------------------------------------------------------------
  // Round trips

  /** Decoding the text a successful `b58enc` wrote, into a buffer of the
      original length, gives back the original bytes and their length,
      whether the text's length is passed or its terminator is relied on;
      the size check never fires. */
  lemma EncodeThenDecode(b58: seq<byte>, b58sz: nat, data: seq<byte>, bin: seq<byte>)
    requires b58sz <= |b58| && |data| <= |bin|
    requires Encode(b58, b58sz, data).ok
    ensures var e := Encode(b58, b58sz, data);
            var expected := Reply(true, data + bin[|data|..], |data|);
            && Decode(bin, |data|, e.buffer, e.size - 1) == expected
            && Decode(bin, |data|, e.buffer, 0) == expected
            && DecodeChecked(bin, |data|, e.buffer, e.size - 1) == expected
            && DecodeChecked(bin, |data|, e.buffer, 0) == expected
  {
    var t := EncodedText(data);
    var e := Encode(b58, b58sz, data);
    SpellHasNoNul(MinDigits(PayloadValue(data), 58));
    assert Nul !in t by {
      assert ZeroSymbol != Nul;
    }
    assert e.buffer == t + [Nul] + b58[|t| + 1..];
    InputOfEncoded(t, b58[|t| + 1..]);
    DecodeText(data, bin, e.buffer, e.size - 1);
    DecodeText(data, bin, e.buffer, 0);
  }

  /** Any input the decoder reads as the encoder's text decodes to the
      encoded bytes. */
  lemma DecodeText(data: seq<byte>, bin: seq<byte>, b58: seq<byte>, b58sz: nat)
    requires b58sz <= |b58| && |data| <= |bin|
    requires InputOf(b58, b58sz) == EncodedText(data)
    ensures Decode(bin, |data|, b58, b58sz) == Reply(true, data + bin[|data|..], |data|)
  {
    var v := PayloadValue(data);
    LeadingZerosBecomeOnes(data);
    PayloadSplit(data);
    PayloadFits(data);
    ToDigitsIsPaddedMinDigits(v, |data|, 256);
    assert ToDigits(v, |data|, 256) == data;
  }

  /** Re-encoding what a checked decode produced (the last `size` bytes of
      the first `binsz`) gives back the text that was decoded: every text
      the decoder accepts is the encoder's spelling of its bytes. */
  lemma DecodeThenEncode(bin: seq<byte>, binsz: nat, b58: seq<byte>, b58sz: nat)
    requires binsz <= |bin| && b58sz <= |b58|
    requires DecodeChecked(bin, binsz, b58, b58sz).ok
    ensures var r := DecodeChecked(bin, binsz, b58, b58sz);
            && r.size <= binsz
            && EncodedText(r.buffer[binsz - r.size..binsz]) == InputOf(b58, b58sz)
  {
    var r := DecodeChecked(bin, binsz, b58, b58sz);
    var s := InputOf(b58, b58sz);
    var v := DigitsValue(s);
    var k := LeadingOnes(s);
    RightAligned(v, binsz, k);
    var bytes := r.buffer[binsz - r.size..binsz];
    assert bytes == Repeat(0, k) + MinDigits(v, 256);
    DecodedBytesEncode(s);
  }

  /** The encoder's spelling of the decoded bytes is the decoded text. */
  lemma DecodedBytesEncode(s: seq<byte>)
    requires AllDigitChars(Digits(s))
    ensures EncodedText(DecodedBytes(s)) == s
  {
    var k, v := LeadingOnes(s), DigitsValue(s);
    var m := MinDigits(v, 256);
    var bytes := Repeat(0, k) + m;
    LeadingRunOfPadded(k, m, 0);
    assert bytes[k..] == m;
    assert PayloadValue(bytes) == v;
    var digits := Digits(s);
    var ds := DigitsOf(digits);
    if |digits| > 0 {
      ZeroSymbolIsDigitZero(digits[0]);
    }
    MinDigitsOfValue(ds, 58);
    SpellOfDigitsOf(digits);
    assert s == Repeat(ZeroSymbol, k) + digits;
  }

  /** Unchecked, the same holds exactly when the size fits: the text "12"
      decoded into one byte does not come back. */
  lemma OversizedDoesNotRoundTrip()
    ensures var r := Decode([0], 1, [ZeroSymbol, 50], 2);
            r.ok && r.size > 1 && EncodedText(r.buffer) != [ZeroSymbol, 50]
  {
    OversizedSuccess();
    EncodeOneByte();
  }

  /** The byte 1 is spelled "2". */
  lemma EncodeOneByte()
    ensures EncodedText([1]) == [50]
  {
    assert ZeroBytes([1]) == 0 by { assert [1][0] != 0; }
    assert PayloadValue([1]) == 1 by { assert [1][0..] == [1]; assert [1][..0] == []; }
    assert MinDigits(0, 58) == [];
    assert MinDigits(1, 58) == [1];
    assert DigitsOrdered[1] == 50;
  }

  // ---------------------------------------------------------------------
  // Empty and all-zero inputs

  /** Zero bytes encode as '1's, one each, and nothing else. */
  lemma ZerosEncodeAsOnes(n: nat)
    ensures EncodedText(Repeat(0, n)) == Repeat(ZeroSymbol, n)
  {
    var data: seq<byte> := Repeat(0, n);
    LeadingRunOfPadded(n, [], 0);
    assert data + [] == data;
    assert data[n..] == [];
    assert MinDigits(0, 58) == [];
    assert Spell([]) == [];
  }

  /** No bytes: the encoder needs one byte, for the terminator alone. */
  lemma EncodeEmpty(b58: seq<byte>, b58sz: nat)
    requires b58sz <= |b58|
    ensures Encode(b58, b58sz, []) ==
            if b58sz == 0 then Reply(false, b58, 1) else Reply(true, [Nul] + b58[1..], 1)
  {
    ZerosEncodeAsOnes(0);
  }

  /** The empty string (a terminator at the start, length 0) decodes, in
      any buffer, to size 0 with the first `binsz` bytes cleared. */
  lemma DecodeEmpty(bin: seq<byte>, binsz: nat, b58: seq<byte>)
    requires binsz <= |bin| && |b58| > 0 && b58[0] == Nul
    ensures Decode(bin, binsz, b58, 0) == Reply(true, Repeat(0, binsz) + bin[binsz..], 0)
  {
    var s := InputOf(b58, 0);
    assert s == [];
    ValueOfZeros(0, 58);
    ToDigitsIsPaddedMinDigits(0, binsz, 256);
    assert MinDigits(0, 256) == [];
    assert Repeat(0, binsz) + [] == Repeat(0, binsz);
  }

  // ---------------------------------------------------------------------
  // The size protocol

  /** Asking `b58enc` with size 0 fails and reports the size needed; a
      second call with a buffer of that size succeeds and reports it again. */
  lemma EncodeCapacityProbe(b58: seq<byte>, data: seq<byte>, out: seq<byte>)
    requires |out| >= |EncodedText(data)| + 1
    ensures var probe := Encode(b58, 0, data);
            && !probe.ok && probe.buffer == b58
            && probe.size == |EncodedText(data)| + 1
            && var r := Encode(out, probe.size, data);
               r.ok && r.size == probe.size
               && r.buffer[..r.size] == EncodedText(data) + [Nul]
  {
    var t := EncodedText(data);
    var r := Encode(out, |t| + 1, data);
    assert r.buffer == t + [Nul] + out[|t| + 1..];
  }

  /** The decoder's two-call protocol: when a call succeeds, its size (which
      may exceed the capacity it was given) is a capacity at which a second
      call succeeds again, reports the same size and fills the buffer with
      exactly the decoded bytes, leaving the rest alone. */
  lemma DecodeGrabSize(bin: seq<byte>, binsz: nat, b58: seq<byte>, b58sz: nat, bin2: seq<byte>)
    requires binsz <= |bin| && b58sz <= |b58|
    requires Decode(bin, binsz, b58, b58sz).ok
    requires Decode(bin, binsz, b58, b58sz).size <= |bin2|
    ensures var n := Decode(bin, binsz, b58, b58sz).size;
            var r := Decode(bin2, n, b58, b58sz);
            && r.ok && r.size == n
            && r.buffer[..n] == DecodedBytes(InputOf(b58, b58sz))
            && r.buffer[n..] == bin2[n..]
  {
    var s := InputOf(b58, b58sz);
    var v, k := DigitsValue(s), LeadingOnes(s);
    var m := MinDigits(v, 256);
    var n := k + |m|;
    ValueBound(m, 256);
    PowMonotone(256, |m|, n);
    assert Decodable(s, n);
    var w := ToDigits(v, n, 256);
    RightAligned(v, n, k);
    assert w == w[n - n..] == DecodedBytes(s);
    assert Decode(bin, binsz, b58, b58sz).size == n;
    var r := Decode(bin2, n, b58, b58sz);
    assert r == Reply(true, w + bin2[n..], n);
    assert r.buffer[..n] == w && r.buffer[n..] == bin2[n..];
  }

  /** Decoding failures report the capacity unchanged, not a needed size:
      "2" into no bytes fails with size 0. */
  lemma DecodeProbeKeepsSize()
    ensures Decode([], 0, [50], 1) == Reply(false, [], 0)
  {
    var s: seq<byte> := [50];
    assert InputOf([50], 1) == s;
    assert s[1..] == [] && LeadingOnes(s) == 0;
    assert Digits(s) == s;
    assert DigitsMap[50] == 1;
    assert DigitsOf(s) == [1];
    assert Value([1], 58) == 1 by { assert [1][..0] == []; }
  }
}
