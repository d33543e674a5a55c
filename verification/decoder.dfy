/** `b58tobin`: Base58 text to bytes.

    `Decode` states, on mathematical values, what a call does; `B58ToBin`
    is the word-array algorithm of the C code (multiply-by-58-and-add over
    32-bit words, the carry and zeromask overflow tests, the big-endian
    serialisation and the length computation), proved to agree with it.
 */
module Decoder {
  import opened Positional
  import opened Alphabet
  import opened WordMask
  import opened LibBase58

  /** The characters a call reads: `b58sz` of them, or, when `b58sz` is 0,
      those before the terminator. */
  function InputOf(b58: seq<byte>, b58sz: nat): (s: seq<byte>)
    requires b58sz <= |b58|
  {
    if b58sz == 0 then b58[..StrLen(b58)] else b58[..b58sz]
  }

  /** The number of leading zero symbols '1'. */
  function LeadingOnes(s: seq<byte>): nat {
    LeadingRun(s, ZeroSymbol)
  }

  /** The characters after the leading run of '1's. */
  function Digits(s: seq<byte>): seq<byte> {
    s[LeadingOnes(s)..]
  }

  /** The number the digits after the '1' run denote. */
  function DigitsValue(s: seq<byte>): nat
    requires AllDigitChars(Digits(s))
  {
    Value(DigitsOf(Digits(s)), 58)
  }

  /** `b58tobin` succeeds exactly on alphabet text whose value fits in
      `binsz` bytes. */
  predicate Decodable(s: seq<byte>, binsz: nat) {
    AllDigitChars(Digits(s)) && DigitsValue(s) < Pow(256, binsz)
  }

  /** The state after `b58tobin(bin, &binsz, b58, b58sz)`: on success the
      first `binsz` bytes of the buffer hold the value right-aligned, and the
      size is the number of leading '1's plus the value's minimal byte length;
      on failure nothing changes. */
  function Decode(bin: seq<byte>, binsz: nat, b58: seq<byte>, b58sz: nat): Reply
    requires binsz <= |bin| && b58sz <= |b58|
  {
    var s := InputOf(b58, b58sz);
    if Decodable(s, binsz) then
      var v := DigitsValue(s);
      Reply(true, ToDigits(v, binsz, 256) + bin[binsz..], LeadingOnes(s) + |MinDigits(v, 256)|)
    else
      Reply(false, bin, binsz)
  }

  /** The decoded bytes as the caller reads them back: the last `size`
      bytes of the first `binsz`, a zero byte for each leading '1' followed
      by the value's significant bytes. */
  function DecodedBytes(s: seq<byte>): seq<byte>
    requires AllDigitChars(Digits(s))
  {
    Repeat(0, LeadingOnes(s)) + MinDigits(DigitsValue(s), 256)
  }

  /** `Decode` with the size checked against the capacity: a result needing
      more bytes than the buffer holds is a failure, as every other
      overflow is. This is one reading of what a caller may want; the other,
      the header's two-call protocol, keeps the oversized success so that
      its size can be asked for again (`RoundTrip.DecodeGrabSize`). */
  function DecodeChecked(bin: seq<byte>, binsz: nat, b58: seq<byte>, b58sz: nat): Reply
    requires binsz <= |bin| && b58sz <= |b58|
  {
    var r := Decode(bin, binsz, b58, b58sz);
    if r.ok && r.size > binsz then Reply(false, bin, binsz) else r
  }

  /** `Decode` reports a size larger than the buffer: "12" (a zero byte
      then the byte 1) decodes into a one-byte buffer, and the call succeeds
      with size 2. */
  lemma OversizedSuccess()
    ensures var r := Decode([0], 1, [ZeroSymbol, 50], 2);
            r.ok && r.size == 2 && r.buffer == [1]
    ensures !DecodeChecked([0], 1, [ZeroSymbol, 50], 2).ok
  {
    var s: seq<byte> := [ZeroSymbol, 50];
    assert InputOf([ZeroSymbol, 50], 2) == s;
    OneTwo();
    OneByte();
  }

  /** "12": one leading '1', then the digit 1. */
  lemma OneTwo()
    ensures var s: seq<byte> := [ZeroSymbol, 50];
            && LeadingOnes(s) == 1 && Decodable(s, 1) && DigitsValue(s) == 1
  {
    var s: seq<byte> := [ZeroSymbol, 50];
    assert s[1..] == [50] && LeadingRun([50], ZeroSymbol) == 0;
    assert Digits(s) == [50];
    assert DigitsMap[50] == 1;
    assert DigitsOf([50]) == [1];
    assert Value([1], 58) == 1 by { assert [1][..0] == []; }
    assert Pow(256, 1) == 256;
  }

  /** The value 1 in one byte. */
  lemma OneByte()
    ensures ToDigits(1, 1, 256) == [1] && MinDigits(1, 256) == [1]
  {
    assert MinDigits(0, 256) == [];
  }

  /** Byte `k` of a 32-bit word as it lies in a little-endian host's memory. */
  function WordByte(w: nat, k: nat): byte {
    w / Pow(256, k) % 256
  }

  // ---------------------------------------------------------------------
  // The algorithm

  method B58ToBin(bin: seq<byte>, binsz: nat, b58: seq<byte>, b58sz: nat)
    returns (ok: bool, bin': seq<byte>, binsz': nat)
    requires binsz <= |bin| && b58sz <= |b58|
    requires LeadingOnes(InputOf(b58, b58sz)) < 0x1_0000_0000
    ensures Reply(ok, bin', binsz') == Decode(bin, binsz, b58, b58sz)
    ensures ok <==> Decodable(InputOf(b58, b58sz), binsz)
    ensures !ok ==> bin' == bin && binsz' == binsz
    ensures ok ==> var s := InputOf(b58, b58sz);
                   && Value(bin'[..binsz], 256) == DigitsValue(s)
                   && bin'[binsz..] == bin[binsz..]
                   && binsz' == LeadingOnes(s) + |MinDigits(DigitsValue(s), 256)|
  {
    var outsz := (binsz + 3) / 4;
    var out := Repeat(0, outsz);
    var bytesleft := binsz % 4;
    var zeromask := ZeroMask(bytesleft);
    var zerocount := 0;

    var len := b58sz;
    if len == 0 {
      len := StrLen(b58);
    }
    assert b58[..len] == InputOf(b58, b58sz);

    // Leading zeros, just count.
    zerocount := CountLeading(b58[..len], ZeroSymbol);

    var fits;
    fits, out := ReadDigits(out, b58[..len], zerocount, binsz, zeromask);
    if !fits {
      return false, bin, binsz;
    }

    var written := SerializeWords(out, binsz);
    var size := SignificantSize(written, binsz);
    SuccessReply(bin, binsz, b58, b58sz, written, size);
    return true, written + bin[binsz..], size + zerocount;
  }

  /** `b58tobin` with the size check: the reply `DecodeChecked` describes,
      and on success the last `size` of the first `binsz` bytes are the
      decoded bytes. */
  method B58ToBinChecked(bin: seq<byte>, binsz: nat, b58: seq<byte>, b58sz: nat)
    returns (ok: bool, bin': seq<byte>, binsz': nat)
    requires binsz <= |bin| && b58sz <= |b58|
    requires LeadingOnes(InputOf(b58, b58sz)) < 0x1_0000_0000
    ensures Reply(ok, bin', binsz') == DecodeChecked(bin, binsz, b58, b58sz)
    ensures ok <==> var s := InputOf(b58, b58sz);
                    Decodable(s, binsz) && |DecodedBytes(s)| <= binsz
    ensures !ok ==> bin' == bin && binsz' == binsz
    ensures ok ==> && binsz' <= binsz
                   && bin'[binsz - binsz'..binsz] == DecodedBytes(InputOf(b58, b58sz))
                   && bin'[..binsz - binsz'] == Repeat(0, binsz - binsz')
                   && bin'[binsz..] == bin[binsz..]
  {
    ok, bin', binsz' := B58ToBin(bin, binsz, b58, b58sz);
    if ok && binsz' > binsz {
      ok, bin', binsz' := false, bin, binsz;
    }
    CheckedShape(bin, binsz, b58, b58sz);
  }

  /** The reply `DecodeChecked` describes, case by case. */
  lemma CheckedShape(bin: seq<byte>, binsz: nat, b58: seq<byte>, b58sz: nat)
    requires binsz <= |bin| && b58sz <= |b58|
    ensures var r, s := DecodeChecked(bin, binsz, b58, b58sz), InputOf(b58, b58sz);
            && (r.ok <==> Decodable(s, binsz) && |DecodedBytes(s)| <= binsz)
            && (!r.ok ==> r.buffer == bin && r.size == binsz)
            && (r.ok ==> && r.size <= binsz
                         && r.buffer[binsz - r.size..binsz] == DecodedBytes(s)
                         && r.buffer[..binsz - r.size] == Repeat(0, binsz - r.size)
                         && r.buffer[binsz..] == bin[binsz..])
  {
    var r, s := DecodeChecked(bin, binsz, b58, b58sz), InputOf(b58, b58sz);
    if r.ok {
      var v := DigitsValue(s);
      RightAligned(v, binsz, LeadingOnes(s));
      var written := ToDigits(v, binsz, 256);
      assert r.buffer == written + bin[binsz..];
      assert r.buffer[..binsz] == written;
    }
  }

  /** What the words hold after the characters `s[start..i]` are read:
      the value of those digits, below the capacity, nonzero once a digit
      has been read. */
  ghost predicate ReadSoFar(ws: seq<nat>, s: seq<byte>, start: nat, i: nat, binsz: nat) {
    && start == LeadingOnes(s) && start <= i <= |s|
    && AllDigitChars(s[start..i])
    && |ws| == (binsz + 3) / 4 && IsDigits(ws, WordModulus)
    && Value(ws, WordModulus) == Value(DigitsOf(s[start..i]), 58)
    && Value(ws, WordModulus) < Pow(256, binsz)
    && (i > start ==> Value(ws, WordModulus) > 0)
  }

  /** Before the main loop the words are zero and no digit has been read. */
  lemma ReadNothing(ws: seq<nat>, s: seq<byte>, start: nat, binsz: nat)
    requires start == LeadingOnes(s) && |ws| == (binsz + 3) / 4
    requires forall k :: 0 <= k < |ws| ==> ws[k] == 0
    ensures ReadSoFar(ws, s, start, start, binsz)
  {
    ValueOfZeroDigits(ws, WordModulus);
    assert s[start..start] == [];
    ZeroCapacityValue(binsz);
  }

  /** After the main loop, the words hold the value of all the digits. */
  lemma ReadAll(ws: seq<nat>, s: seq<byte>, start: nat, binsz: nat)
    requires ReadSoFar(ws, s, start, |s|, binsz)
    ensures Decodable(s, binsz)
    ensures IsDigits(ws, WordModulus) && Value(ws, WordModulus) == DigitsValue(s)
  {
    assert s[start..] == s[start..|s|];
  }

  /** The main loop: every character after the '1' run is checked against
      the alphabet and multiplied into the (zero-initialised) words, failing
      as soon as the value no longer fits in `binsz` bytes. */
  method ReadDigits(words: seq<nat>, s: seq<byte>, start: nat, binsz: nat, zeromask: nat)
    returns (fits: bool, out: seq<nat>)
    requires start == LeadingOnes(s)
    requires |words| == (binsz + 3) / 4 && zeromask == ZeroMask(binsz % 4)
    requires forall k :: 0 <= k < |words| ==> words[k] == 0
    ensures fits <==> Decodable(s, binsz)
    ensures fits ==> && |out| == |words| && IsDigits(out, WordModulus)
                     && Value(out, WordModulus) == DigitsValue(s)
  {
    out := words;
    ReadNothing(out, s, start, binsz);
    var i := start;
    while i < |s|
      invariant ReadSoFar(out, s, start, i, binsz)
    {
      fits, out := ReadDigit(out, s, start, i, binsz, zeromask);
      if !fits {
        return false, out;
      }
      i := i + 1;
    }
    ReadAll(out, s, start, binsz);
    return true, out;
  }

  /** One pass of the main loop, on character `i`. */
  method ReadDigit(words: seq<nat>, s: seq<byte>, start: nat, i: nat, binsz: nat, zeromask: nat)
    returns (fits: bool, out: seq<nat>)
    requires i < |s| && zeromask == ZeroMask(binsz % 4)
    requires ReadSoFar(words, s, start, i, binsz)
    ensures fits ==> ReadSoFar(out, s, start, i + 1, binsz)
    ensures !fits ==> !Decodable(s, binsz)
  {
    var ch := s[i];
    HighBitTest(ch);
    if BitAnd(ch, 0x80) != 0 {
      // High bit set on an invalid digit.
      RejectedCharacterFails(s, start, i);
      return false, words;
    }
    if DigitsMap[ch] == -1 {
      // Invalid Base58 digit.
      RejectedCharacterFails(s, start, i);
      return false, words;
    }
    fits, out := AddDigit(words, s, start, i, binsz, zeromask, DigitOf(ch));
  }

  /** The accepted character `s[i]`, of digit value `c`, multiplied into the
      words, followed by the two overflow tests. */
  method AddDigit(words: seq<nat>, ghost s: seq<byte>, ghost start: nat, ghost i: nat,
                  binsz: nat, zeromask: nat, c: nat)
    returns (fits: bool, out: seq<nat>)
    requires i < |s| && IsDigitChar(s[i]) && c == DigitOf(s[i])
    requires zeromask == ZeroMask(binsz % 4)
    requires ReadSoFar(words, s, start, i, binsz)
    ensures fits ==> ReadSoFar(out, s, start, i + 1, binsz)
    ensures !fits ==> !Decodable(s, binsz)
  {
    // out := words * 58 + c, least significant word first.
    var carry;
    out, carry := MulAddWords(words, c);
    ghost var v := Value(out, WordModulus) + carry * Pow(WordModulus, |out|);
    DigitStep(s, start, i, Value(words, WordModulus), v);
    if carry != 0 {
      // Output number too big (carry to the next word).
      CarryOverflow(out, carry, binsz, v);
      PrefixOverflowFails(s, start, i + 1, binsz);
      return false, out;
    }
    ZeroMaskOverflow(out, binsz, v);
    if BitAnd(out[0], zeromask) != 0 {
      // Output number too big (top word filled too far).
      PrefixOverflowFails(s, start, i + 1, binsz);
      return false, out;
    }
    return true, out;
  }

  /** One digit of input: `words * 58 + c` over the words, least
      significant first, with the carry out of the top word. */
  method MulAddWords(words: seq<nat>, c: nat) returns (out: seq<nat>, carry: nat)
    requires c < 58 && IsDigits(words, WordModulus)
    ensures |out| == |words| && carry < 58 && IsDigits(out, WordModulus)
    ensures Value(out, WordModulus) + carry * Pow(WordModulus, |out|)
            == 58 * Value(words, WordModulus) + c
  {
    out, carry := words, c;
    var i: nat := |words|;  // words i.. are done; the source's j is i - 1
    while i > 0
      invariant i <= |words| && |out| == |words| && carry < 58
      invariant out[..i] == words[..i] && IsDigits(out, WordModulus)
      invariant Value(out[i..], WordModulus) + carry * Pow(WordModulus, |words| - i)
                == 58 * Value(words[i..], WordModulus) + c
    {
      out, carry := MulAddWord(words, out, i - 1, carry, c);
      i := i - 1;
    }
    assert out[0..] == out && words[0..] == words;
  }

  /** Word `j` of the multiply loop: `t = out[j] * 58 + c` becomes the word
      `t & 0xffffffff` and the carry `(t >> 32) & 0x3f`. */
  method MulAddWord(ghost words: seq<nat>, ws: seq<nat>, j: nat, c: nat, ghost d: nat)
    returns (out: seq<nat>, carry: nat)
    requires |words| == |ws| && j < |ws| && c < 58
    requires ws[..j + 1] == words[..j + 1] && IsDigits(ws, WordModulus)
    requires Value(ws[j + 1..], WordModulus) + c * Pow(WordModulus, |ws| - 1 - j)
             == 58 * Value(words[j + 1..], WordModulus) + d
    ensures |out| == |ws| && out[..j] == words[..j] && IsDigits(out, WordModulus) && carry < 58
    ensures Value(out[j..], WordModulus) + carry * Pow(WordModulus, |ws| - j)
            == 58 * Value(words[j..], WordModulus) + d
  {
    var t := ws[j] * 58 + c;
    MulAddBound(ws[j], c, WordModulus, 58);
    var high := t / WordModulus;
    assert high < 58;
    carry := high % 64;                // (t >> 32) & 0x3f, all of t >> 32
    out := ws[j := t % WordModulus];   // t & 0xffffffff
    MulAddStep(words, ws, out, j, c, high, d, WordModulus, 58);
  }

  /** The words as `binsz` big-endian bytes: the low `binsz % 4` bytes of a
      partial top word, then four bytes per word. */
  method SerializeWords(out: seq<nat>, binsz: nat) returns (written: seq<byte>)
    requires |out| == (binsz + 3) / 4 && IsDigits(out, WordModulus)
    requires Value(out, WordModulus) < Pow(256, binsz)
    ensures written == ToDigits(Value(out, WordModulus), binsz, 256)
  {
    var bytesleft := binsz % 4;
    if bytesleft > 0 {
      PartialWord(out, binsz);
      var top := TopWordBytes(out[0], bytesleft);
      written := FullWords(out, 1, top);
    } else {
      assert 4 * |out| == binsz;
      written := FullWords(out, 0, []);
    }
  }

  /** Words `j..` as four big-endian bytes each, after the bytes of the
      words before them. */
  method FullWords(out: seq<nat>, j: nat, prefix: seq<byte>) returns (written: seq<byte>)
    requires j <= |out| && IsDigits(out, WordModulus)
    requires Value(out[..j], WordModulus) < Pow(256, |prefix|)
    requires prefix == ToDigits(Value(out[..j], WordModulus), |prefix|, 256)
    ensures written == ToDigits(Value(out, WordModulus), |prefix| + 4 * (|out| - j), 256)
  {
    var i := j;
    written := prefix;
    while i < |out|
      invariant j <= i <= |out|
      invariant |written| == |prefix| + 4 * (i - j)
      invariant Value(out[..i], WordModulus) < Pow(256, |written|)
      invariant written == ToDigits(Value(out[..i], WordModulus), |written|, 256)
    {
      var w := out[i];
      FullWordBytes(out[..i], w, |written|);
      written := written + [WordByte(w, 3), WordByte(w, 2), WordByte(w, 1), WordByte(w, 0)];
      assert out[..i + 1] == out[..i] + [w];
      i := i + 1;
    }
    assert out[..i] == out;
  }

  /** The partial top word: `bytesleft` bytes, most significant first,
      falling through from case 3 to case 1. */
  method TopWordBytes(w: nat, bytesleft: nat) returns (bytes: seq<byte>)
    requires 0 < bytesleft < 4 && w < Pow(256, bytesleft)
    ensures bytes == ToDigits(w, bytesleft, 256)
  {
    bytes := [];
    if bytesleft == 3 {
      bytes := bytes + [WordByte(w, 2)];
    }
    if bytesleft >= 2 {
      bytes := bytes + [WordByte(w, 1)];
    }
    bytes := bytes + [WordByte(w, 0)];
    TopWordDigits(w, bytesleft);
  }

  /** The size before the '1' count is added: `binsz` less the leading zero
      bytes of the buffer. */
  method SignificantSize(written: seq<byte>, binsz: nat) returns (size: nat)
    requires binsz <= |written|
    ensures size == binsz - LeadingRun(written[..binsz], 0)
  {
    size := binsz;
    var i := 0;
    while i < binsz && written[i] == 0
      invariant i <= binsz && size == binsz - i
      invariant forall k :: 0 <= k < i ==> written[k] == 0
    {
      size := size - 1;
      i := i + 1;
    }
    LeadingRunIs(written[..binsz], 0, i);
  }

  // ---------------------------------------------------------------------
  // Lemmas for B58ToBin

  /** The reply of a successful run is the one `Decode` describes. */
  lemma SuccessReply(bin: seq<byte>, binsz: nat, b58: seq<byte>, b58sz: nat, written: seq<byte>, size: nat)
    requires binsz <= |bin| && b58sz <= |b58|
    requires Decodable(InputOf(b58, b58sz), binsz)
    requires written == ToDigits(DigitsValue(InputOf(b58, b58sz)), binsz, 256)
    requires size == binsz - LeadingRun(written[..binsz], 0)
    ensures var s := InputOf(b58, b58sz);
            Decode(bin, binsz, b58, b58sz)
            == Reply(true, written + bin[binsz..], size + LeadingOnes(s))
    ensures Value((written + bin[binsz..])[..binsz], 256) == DigitsValue(InputOf(b58, b58sz))
  {
    var v := DigitsValue(InputOf(b58, b58sz));
    assert written[..binsz] == written;
    LeadingZerosOfToDigits(v, binsz, 256);
    ValueOfToDigits(v, binsz, 256);
    assert (written + bin[binsz..])[..binsz] == written;
  }

  lemma ZeroCapacityValue(binsz: nat)
    ensures Pow(256, binsz) > 0
  {
  }

  lemma HighBitTest(ch: byte)
    ensures BitAnd(ch, 0x80) != 0 <==> ch >= 128
  {
    PowersOfTwo();
    assert Pow(2, 7) == 128 by { PowAdd(2, 7, 1); }
    PowMonotone(2, 7, 8);
    BitAndHighMask(ch, 8, 7);
    DivNonzero(ch, 128);
  }

  /** One character of input, accepted: 58 times the value so far plus the
      new digit is the value of the digits read so far, and it is nonzero. */
  lemma DigitStep(s: seq<byte>, start: nat, i: nat, before: nat, after: nat)
    requires start == LeadingOnes(s) && start <= i < |s|
    requires AllDigitChars(s[start..i]) && IsDigitChar(s[i])
    requires before == Value(DigitsOf(s[start..i]), 58)
    requires i > start ==> before > 0
    requires after == 58 * before + DigitOf(s[i])
    ensures AllDigitChars(s[start..i + 1])
    ensures after == Value(DigitsOf(s[start..i + 1]), 58) > 0
  {
    var read := s[start..i];
    SliceSnoc(s, start, i);
    DigitsSnoc(read, s[i]);
    if i == start {
      assert s[i] != ZeroSymbol;
      ZeroSymbolIsDigitZero(s[i]);
    }
  }

  /** Reading one more digit is Horner's step on the value. */
  lemma DigitsSnoc(a: seq<byte>, c: byte)
    requires AllDigitChars(a) && IsDigitChar(c)
    ensures AllDigitChars(a + [c])
    ensures Value(DigitsOf(a + [c]), 58) == 58 * Value(DigitsOf(a), 58) + DigitOf(c)
  {
    DigitsOfSnoc(a, c);
    ValueSnoc(DigitsOf(a), DigitOf(c), 58);
  }

  /** A carry out of the top word means the value reached the capacity. */
  lemma CarryOverflow(ws: seq<nat>, carry: nat, binsz: nat, v: nat)
    requires |ws| == (binsz + 3) / 4 && carry > 0
    requires Value(ws, WordModulus) + carry * Pow(WordModulus, |ws|) == v
    ensures v >= Pow(256, binsz)
  {
    CapacityOfWords(binsz);
    MulMonotone(1, carry, Pow(WordModulus, |ws|));
  }

  /** Without a carry, the zeromask test on the top word decides whether the
      (nonzero) value reached the capacity. */
  lemma ZeroMaskOverflow(ws: seq<nat>, binsz: nat, v: nat)
    requires |ws| == (binsz + 3) / 4 && IsDigits(ws, WordModulus)
    requires Value(ws, WordModulus) + 0 * Pow(WordModulus, |ws|) == v > 0
    ensures |ws| > 0
    ensures BitAnd(ws[0], ZeroMask(binsz % 4)) != 0 <==> v >= Pow(256, binsz)
  {
    ZeroMaskTest(ws[0], binsz % 4);
    TopWordTest(ws, binsz);
  }

  /** A character outside the alphabet after the '1' run makes the call fail. */
  lemma RejectedCharacterFails(s: seq<byte>, start: nat, i: nat)
    requires start == LeadingOnes(s) && start <= i < |s|
    requires !IsDigitChar(s[i])
    ensures !Decodable(s, 0) && forall binsz :: !Decodable(s, binsz)
  {
    assert Digits(s)[i - start] == s[i];
  }

  /** A prefix of the digits that already reaches the capacity makes the call fail. */
  lemma PrefixOverflowFails(s: seq<byte>, start: nat, k: nat, binsz: nat)
    requires start == LeadingOnes(s) && start <= k <= |s|
    requires AllDigitChars(s[start..k])
    requires Value(DigitsOf(s[start..k]), 58) >= Pow(256, binsz)
    ensures !Decodable(s, binsz)
  {
    if AllDigitChars(Digits(s)) {
      var a, b := s[start..k], s[k..];
      assert Digits(s) == a + b;
      assert AllDigitChars(b) by {
        forall i | 0 <= i < |b| ensures IsDigitChar(b[i]) {
          assert b[i] == Digits(s)[|a| + i];
        }
      }
      DigitsOfConcat(a, b);
      ValuePrefix(DigitsOf(a), DigitsOf(b), 58);
    }
  }

  /** `(binsz + 3) / 4` words hold at least `binsz` bytes. */
  lemma CapacityOfWords(binsz: nat)
    ensures Pow(256, binsz) <= Pow(WordModulus, (binsz + 3) / 4)
  {
    PowersOfTwo();
    PowPow(256, 4, (binsz + 3) / 4);
    PowMonotone(256, binsz, 4 * ((binsz + 3) / 4));
  }

  /** The capacity bound on the whole word array is the zeromask test on its
      top word (or no test at all, for a whole number of words). */
  lemma TopWordTest(ws: seq<nat>, binsz: nat)
    requires |ws| == (binsz + 3) / 4 > 0 && IsDigits(ws, WordModulus)
    ensures Value(ws, WordModulus) < Pow(256, binsz)
            <==> !(binsz % 4 > 0 && ws[0] >= Pow(256, binsz % 4))
  {
    var bl, k := binsz % 4, |ws| - 1;
    PowersOfTwo();
    PowPow(256, 4, k);
    ValueBound(ws, WordModulus);
    if bl == 0 {
      assert binsz == 4 * |ws|;
      PowPow(256, 4, |ws|);
    } else {
      assert binsz == bl + 4 * k;
      PowAdd(256, bl, 4 * k);
      LeadingDigitBound(ws, WordModulus, Pow(256, bl));
    }
  }

  /** With a partial top word, the first word alone is a number below
      `256^(binsz % 4)`, and the remaining words fill whole groups of four
      bytes. */
  lemma PartialWord(ws: seq<nat>, binsz: nat)
    requires |ws| == (binsz + 3) / 4 && IsDigits(ws, WordModulus) && binsz % 4 > 0
    requires Value(ws, WordModulus) < Pow(256, binsz)
    ensures |ws| > 0 && ws[0] < Pow(256, binsz % 4)
    ensures Value(ws[..1], WordModulus) == ws[0]
    ensures binsz % 4 + 4 * (|ws| - 1) == binsz
  {
    var q := binsz / 4;
    assert binsz == 4 * q + binsz % 4;
    assert (binsz + 3) / 4 == q + 1;
    TopWordTest(ws, binsz);
    ValueSnoc([], ws[0], WordModulus);
    assert [] + [ws[0]] == ws[..1];
  }

  /** The `bytesleft`-byte representation of a word, as byte extractions. */
  lemma TopWordDigits(w: nat, bytesleft: nat)
    requires 0 < bytesleft < 4
    ensures ToDigits(w, bytesleft, 256)
            == (if bytesleft == 3 then [WordByte(w, 2)] else [])
             + (if bytesleft >= 2 then [WordByte(w, 1)] else [])
             + [WordByte(w, 0)]
  {
    var r := ToDigits(w, bytesleft, 256);
    forall i | 0 <= i < bytesleft
      ensures r[i] == WordByte(w, bytesleft - 1 - i)
    {
      ToDigitsIndex(w, bytesleft, 256, i);
    }
  }

  /** A full word is written as its four bytes, most significant first, and
      extends the number written so far by one base-2^32 digit. */
  lemma FullWordBytes(prefix: seq<nat>, w: nat, m: nat)
    requires w < WordModulus && Value(prefix, WordModulus) < Pow(256, m)
    ensures ToDigits(Value(prefix, WordModulus), m, 256)
            + [WordByte(w, 3), WordByte(w, 2), WordByte(w, 1), WordByte(w, 0)]
            == ToDigits(Value(prefix + [w], WordModulus), m + 4, 256)
    ensures Value(prefix + [w], WordModulus) < Pow(256, m + 4)
  {
    PowersOfTwo();
    var r := ToDigits(w, 4, 256);
    forall i | 0 <= i < 4
      ensures r[i] == WordByte(w, 3 - i)
    {
      ToDigitsIndex(w, 4, 256, i);
    }
    assert r == [WordByte(w, 3), WordByte(w, 2), WordByte(w, 1), WordByte(w, 0)];
    var hi := Value(prefix, WordModulus);
    ToDigitsConcat(hi, w, m, 4, 256);
    ValueSnoc(prefix, w, WordModulus);
    MulAddBound(hi, w, Pow(256, m), Pow(256, 4));
    PowAdd(256, m, 4);
  }

  /** The `binsz`-byte representation ends with any `k` zero bytes and the
      significant bytes that fit, and begins with zeros. */
  lemma RightAligned(v: nat, binsz: nat, k: nat)
    requires v < Pow(256, binsz) && k + |MinDigits(v, 256)| <= binsz
    ensures var r, n := ToDigits(v, binsz, 256), k + |MinDigits(v, 256)|;
            && r[binsz - n..] == Repeat(0, k) + MinDigits(v, 256)
            && r[..binsz - n] == Repeat(0, binsz - n)
  {
    ToDigitsIsPaddedMinDigits(v, binsz, 256);
    var m := MinDigits(v, 256);
    var r := ToDigits(v, binsz, 256);
    var pad := binsz - |m|;
    assert r == Repeat(0, pad) + m;
    assert r[pad - k..] == Repeat(0, k) + m;
  }
}
