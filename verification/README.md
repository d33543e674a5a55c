# libbase58 in Dafny

A model of the core of libbase58: the Base58 codec with the Bitcoin alphabet.
It covers `b58tobin`, which decodes text to bytes, and `b58enc`, which encodes
bytes to text. It also covers the two constant tables the codec uses:
`b58digits_map` maps a character to its digit, and `b58digits_ordered` maps a
digit to its character.

Each C function is a Dafny method that follows the source loop by loop. The
decoder keeps the 32-bit word array with its 58-multiply-and-add, the carry
test and the `zeromask` test. The encoder keeps the digit buffer of
`n * 138 / 100 + 1` digits, the fold bounded by the high-water mark `high`,
and the leading-zero-digit skip. Each method is proved equal to a short
definition on mathematical values:

- `Decoder.Decode` and `Encoder.Encode` describe a call's effect: the value
  returned, the caller's output buffer afterwards, and the in/out size
  afterwards.
- A caller buffer is a `seq<byte>`. A call returns the new buffer and does not
  modify it in place, so "a failed call changes nothing" is an ordinary
  postcondition.

The modules:

| file | module | contents |
|---|---|---|
| positional.dfy | Positional | bytes; `Pow`; big-endian `Value`; fixed-width (`ToDigits`) and minimal (`MinDigits`) representations; leading runs; the multiply-and-add step |
| libbase58.dfy | LibBase58 | the calling convention shared by both functions (`Reply`) and `strlen` |
| alphabet.dfy | Alphabet | both tables, kept literally, each proved equal to a definition by character ranges, and their inverse properties |
| wordmask.dfy | WordMask | bitwise AND on naturals and the 32-bit `zeromask`, proved to mean "the top word holds more than `bytesleft` bytes" |
| decoder.dfy | Decoder | `b58tobin`, plus a variant that compares the reported size with the capacity (see Findings) |
| encoder.dfy | Encoder | `b58enc` and the proof that its digit buffer is always large enough |
| roundtrip.dfy | RoundTrip | encode then decode, decode then encode, empty and all-zero inputs, the size protocol |

## Model

| member | source | states |
|---|---|---|
| Positional.CountLeading | base58_c.cpp:53-54 | the scan stops at the first element that is not `x`, so its count is the leading run: every element before it is `x`. The same scan counts the zero bytes at lines 129-130 and skips the zero digits at line 146 |
| LibBase58.StrLen | base58_c.cpp:49-50 | the length stops at the first terminator: every earlier character is nonzero, and the character at the length is the terminator (or the buffer ends there) |
| Alphabet.DigitsOrderedIsSymbolOf | base58_c.cpp:122 | the 58-symbol table is the digits '1'..'9', then upper case, then lower case letters, with '0', 'I', 'O' and 'l' skipped |
| Alphabet.DigitsMapIsValueOfSymbol | base58_c.cpp:23-32 | the 128-entry map gives each alphabet character its position and -1 to every other 7-bit code |
| Alphabet.TablesInverse | base58_c.cpp:23-32 | looking up a digit's symbol in the map gives the digit back, and every symbol is a 7-bit code |
| Alphabet.TablesInverseConverse | base58_c.cpp:23-32 | every code the map accepts has a digit in 0..57 whose symbol is that code |
| Alphabet.AcceptsExactlyAlphabet | base58_c.cpp:58-67 | the decoder accepts a character (high bit clear and mapped) exactly when it is one of the 58 symbols |
| Alphabet.RejectsLookalikes | base58_c.cpp:58-67 | '0', 'O', 'I', 'l', the terminator and every code with the high bit set are rejected |
| Alphabet.ZeroSymbolIsDigitZero | base58_c.cpp:53-54 | '1' is the only accepted character with digit value 0, so the counted run of '1's is the run of zero digits |
| Alphabet.DigitOf | base58_c.cpp:68 | the digit of an accepted character is below 58, and the ordered table spells it as that character |
| Alphabet.DigitsOfSpell | base58_c.cpp:157-158 | reading back the characters the encoder writes for some digits gives those digits |
| Alphabet.SpellHasNoNul | base58_c.cpp:157-160 | no written symbol is the terminator, so the terminator written after the text ends it |
| WordMask.ZeroMaskValue | base58_c.cpp:46 | `0xffffffff << (bytesleft * 8)` in 32 bits is 2^32 - 256^bytesleft |
| WordMask.ZeroMaskTest | base58_c.cpp:80-84 | `out[0] & zeromask` is nonzero exactly when the top word needs more than `bytesleft` bytes; with a whole number of words it never fires |
| WordMask.BitAndHighMask | base58_c.cpp:80 | ANDing with the mask of bits m..n-1 leaves the word rounded down to a multiple of 2^m |
| Decoder.B58ToBin | base58_c.cpp:35-121 | the call has the effect `Decode` describes. It succeeds exactly when everything after the leading '1's is alphabet text whose value is below 256^capacity. On success the first `capacity` bytes are that value, big-endian and zero-padded, the rest of the buffer is untouched, and the size is the '1' count plus the value's minimal byte length, whatever the capacity. On failure the buffer and the size are unchanged. |
| Decoder.ReadDigits | base58_c.cpp:56-85 | the main loop finishes with the words holding the digits' value exactly when the call should succeed, and stops early exactly when it should fail |
| Decoder.ReadDigit | base58_c.cpp:58-84 | one character: a rejected character, or a value that outgrows the capacity, means the whole input cannot decode; otherwise the words gain the character's digit |
| Decoder.AddDigit | base58_c.cpp:68-84 | after the multiply-and-add, a leftover carry or a firing `zeromask` means the value so far, and so the whole input, exceeds 256^capacity; otherwise the words hold 58 times the old value plus the digit |
| Decoder.MulAddWords | base58_c.cpp:69-74 | the words, as a base-2^32 number, plus the carry out of the top word times 2^(32·outsz), equal 58 times the old words plus the digit |
| Decoder.MulAddWord | base58_c.cpp:71-73 | one word: the low 32 bits of `word * 58 + c` stay, and the next carry is all of the rest (below 58, so the `& 0x3f` loses nothing) |
| Decoder.CarryOverflow | base58_c.cpp:75-79 | a nonzero carry out of the top word means the value has reached 256^capacity |
| Decoder.ZeroMaskOverflow | base58_c.cpp:80-84 | with no carry and a nonzero value, the `zeromask` test fires exactly when the value has reached 256^capacity |
| Decoder.HighBitTest | base58_c.cpp:58 | `c & 0x80` is nonzero exactly for codes of 128 and above |
| Decoder.DigitStep | base58_c.cpp:68-74 | 58 times the value of the digits read so far, plus the new digit, is the value of the digits read including it, and is nonzero |
| Decoder.RejectedCharacterFails | base58_c.cpp:58-67 | a rejected character anywhere after the '1' run makes the input undecodable at every capacity |
| Decoder.PrefixOverflowFails | base58_c.cpp:75-84 | once the digits read so far reach 256^capacity, more digits cannot bring the value back down |
| Decoder.TopWordTest | base58_c.cpp:40-46 | words of `(binsz + 3) / 4` hold a value below 256^binsz exactly when the partial top word fits in `binsz % 4` bytes |
| Decoder.SerializeWords | base58_c.cpp:87-109 | the bytes written are the `binsz`-byte big-endian representation of the words' value |
| Decoder.TopWordBytes | base58_c.cpp:88-102 | the fall-through switch writes the partial top word as its `bytesleft` big-endian bytes |
| Decoder.FullWords | base58_c.cpp:104-109 | each full word, byte-reversed in place and stored, adds its four big-endian bytes after the ones before it |
| Decoder.FullWordBytes | base58_c.cpp:106-107 | appending a word's four bytes, most significant first, to a representation gives the representation of the longer word sequence |
| Decoder.SignificantSize | base58_c.cpp:111-117 | the size decremented once per leading zero byte is `binsz` less the leading zero run of the written bytes |
| Decoder.SuccessReply | base58_c.cpp:87-118 | the written bytes with the '1' count added to the significant size are exactly the reply `Decode` gives on success |
| Decoder.OversizedSuccess | base58_c.cpp:110-118 | "12" decoded into a one-byte buffer succeeds with the byte 1 and size 2, more than the buffer holds; the checked variant refuses it |
| Decoder.B58ToBinChecked | base58_c.cpp:110-118 | with the size checked, a call succeeds exactly when the input decodes and its bytes fit the capacity. The size then never exceeds the capacity, the last `size` of the first `binsz` bytes are a zero byte per '1' followed by the value's significant bytes, and the bytes before them are zeros. |
| Decoder.RightAligned | base58_c.cpp:87-118 | the `binsz`-byte representation is zeros followed by any `k` zero bytes and the significant bytes, when they fit |
| Encoder.B58Enc | base58_c.cpp:124-163 | the call has the effect `Encode` describes. The size always becomes the text's length plus one. The call succeeds exactly when the buffer is at least that large. A failed call writes nothing. A successful one writes the '1's, the symbols and the terminator, and leaves the rest of the buffer alone. |
| Encoder.PayloadDigits | base58_c.cpp:129-146 | the leading zero count and the digits after the buffer's leading zeros are the zero-byte count and the minimal base-58 digits of the remaining bytes' value |
| Encoder.FoldBytes | base58_c.cpp:133-144 | folding every byte after the leading zeros into the zeroed buffer leaves base-58 digits whose value is the bytes' value |
| Encoder.FoldByte | base58_c.cpp:136-143 | one byte: the buffer's value becomes 256 times the old value plus the byte, the digits stay below 58, and the new high-water mark keeps everything up to it zero |
| Encoder.FoldDigit | base58_c.cpp:139-141 | one digit: the remainder by 58 of `carry + 256 * digit` stays, and the quotient (below 256) carries on |
| Encoder.StaysInBuffer | base58_c.cpp:137-140 | while the inner loop runs, `j` is at least 0: a carry left past the first digit would make the value reach 58^size |
| Encoder.FoldDone | base58_c.cpp:137-143 | when the inner loop stops, the digits it never reached are zeros of both buffers, so the whole buffer holds 256 times the old value plus the byte, and is zero up to the new `high` |
| Encoder.DigitCapacitySuffices | base58_c.cpp:131 | `n * 138 / 100 + 1` base-58 digits hold every `n`-byte value: 256^n <= 58^(n·138/100+1) |
| Encoder.DigitsOfBuffer | base58_c.cpp:146 | skipping the buffer's leading zero digits leaves the minimal digits of the value, so `zcount + size - j` is the text length |
| Encoder.WriteText | base58_c.cpp:154-161 | the '1's from `memset`, then the symbol of each digit, then the terminator, written over the start of the buffer, with the rest unchanged |
| Encoder.EncodeShape | base58_c.cpp:148-162 | in `Encode`, the size is always the length needed, success is exactly "buffer at least that large", and only success writes |
| Encoder.EncodeOutcome | base58_c.cpp:146-152 | the needed size `zcount + size - j + 1` is the text length plus one, and the reply in each case is spelled in terms of the buffer's digits |
| RoundTrip.LeadingZerosBecomeOnes | base58_c.cpp:154-158 | the text's leading '1's are exactly the input's leading zero bytes, and the text after them spells, and decodes to, the value of the remaining bytes |
| RoundTrip.PayloadSplit | base58_c.cpp:129-130 | bytes are their leading zeros followed by the minimal big-endian bytes of the rest |
| RoundTrip.InputOfEncoded | base58_c.cpp:160-161 | the text the encoder writes reads back the same whether its length is passed or its terminator is relied on |
| RoundTrip.EncodeThenDecode | base58_c.cpp:35-163 | decoding a successful encoding's text into a buffer of the original length succeeds, with or without the length, giving back the original bytes and their length, checked or not |
| RoundTrip.DecodeText | base58_c.cpp:35-121 | any input read as the encoder's text for some bytes decodes to those bytes at their length |
| RoundTrip.DecodeThenEncode | base58_c.cpp:35-163 | re-encoding the bytes a checked decode produced gives back the decoded text, so every accepted text is the encoder's spelling of its bytes |
| RoundTrip.DecodedBytesEncode | base58_c.cpp:154-158 | the encoder spells the decoded bytes (a zero byte per '1', then the value's significant bytes) as the decoded text |
| RoundTrip.OversizedDoesNotRoundTrip | base58_c.cpp:110-118 | without the size check, "12" decoded into one byte succeeds with a size above the capacity and does not re-encode to "12" |
| RoundTrip.EncodeOneByte | base58_c.cpp:124-163 | the byte 1 is spelled "2" |
| RoundTrip.ZerosEncodeAsOnes | base58_c.cpp:154-155 | `n` zero bytes encode as `n` '1's and nothing else |
| RoundTrip.EncodeEmpty | base58_c.cpp:148-162 | no bytes encode as the terminator alone: size 1, failing only with a zero size |
| RoundTrip.DecodeEmpty | base58_c.cpp:87-118 | the empty string (length 0, terminator first) decodes in any buffer to size 0, with the first `binsz` bytes cleared |
| RoundTrip.EncodeCapacityProbe | base58_c.cpp:148-152 | a call with size 0 fails, writes nothing and reports the size needed; a second call with that size succeeds and reports it again |
| RoundTrip.DecodeGrabSize | libbase58.h:11-12 | the two-call protocol on `b58tobin`: the size a successful call reports (base58_c.cpp:110-118), even one above its capacity, is a capacity at which a second call succeeds, reports the same size, and fills exactly that many bytes with the decoded bytes |
| RoundTrip.DecodeProbeKeepsSize | base58_c.cpp:35-85 | a decoding failure leaves the size as the capacity: "2" into no bytes fails with size 0 |

## Left out

- The `b58_sha256_impl` hook (base58_c.cpp:21) is a function pointer the codec never calls, so there is nothing to model.
- libbase58.h holds only declarations and the comment on `b58tobin` that it is called twice, the first time to get the size. That protocol is RoundTrip.DecodeGrabSize.
- Memory handling (`shared_ptr` allocation at base58_c.cpp:41 and 132) is left out. Buffers are sequences and the words and digits start at zero, which is what `new T[n]()` gives.
- Byte-level pointer reinterpretation (base58_c.cpp:91-107) is left out. It assumes a little-endian host: byte `k` of `out[0]` is `w / 256^k % 256`, and `std::reverse` followed by a `uint32_t` store puts a word's bytes most significant first. The model states the result as a big-endian serialisation and does not model memory layout or alignment.
- `strlen` on a buffer with no terminator is undefined in C. `StrLen` then returns the whole buffer.
- Decoder.B58ToBin: requires fewer than 2^32 leading '1's in the input. Only such a run wraps the `unsigned int zerocount` (base58_c.cpp:47 and 54), and the model does not reproduce the wrap.
- Encoder.B58Enc: requires `(n - zcount) * 138 / 100 + 1` to be below 2^32. Above that the `unsigned int size` truncates, and `(binsz - zcount) * 138` can wrap in `size_t`. The model leaves those inputs out.
- Decoder.B58ToBin: on a failed decode the size stays as the capacity, because the code never reports a needed size. A caller of the two-call protocol therefore learns a size only from a call that succeeds (RoundTrip.DecodeProbeKeepsSize).
- There is no Base58Check or checksum layer, because the core has none.
- The alphabet table's trailing NUL (the 59th byte of `b58digits_ordered`) is never indexed, so only the 58 symbols are modelled.

## Findings

| source | as written | input that shows it | evidently intended | confidence | as-written member | corrected member |
|---|---|---|---|---|---|---|
| base58_c.cpp:110-118 | the size is the leading '1' count plus the significant byte count, and it is never compared with the capacity, so a caller that reads the last `size` of the first `capacity` bytes reads before the buffer | "12" with capacity 1: succeeds, writes the byte 1, reports size 2, but the result needs the two bytes 00 01 | unclear. The comment on `b58tobin` at libbase58.h:11 asks for two calls, the first one to get the size. Read that way the oversized success is deliberate, and a second call at the reported size returns the bytes (RoundTrip.DecodeGrabSize). Read as a single call, a success would report a size no larger than the capacity and fail otherwise; Decoder.B58ToBinChecked models that alternative | low, not executed | Decoder.B58ToBin, Decoder.OversizedSuccess, RoundTrip.OversizedDoesNotRoundTrip | Decoder.B58ToBinChecked, RoundTrip.DecodeThenEncode |
