/** The two constant tables of the codec: the ordered Bitcoin alphabet
    (`b58digits_ordered`) and its inverse, the digit map from a 7-bit
    character code to a digit value (`b58digits_map`).

    Both tables are kept literally, row by row as the C source lays them out,
    and each is proved equal to a short reference definition by character
    ranges; the inverse properties are then stated on the tables themselves.
 */
module Alphabet {
  import opened Positional

  // "123456789ABCDEFGHJKLMNPQRSTUVWXYZabcdefghijkmnopqrstuvwxyz", as codes.
  const OrderedDigits: seq<byte> := [49, 50, 51, 52, 53, 54, 55, 56, 57]
  const OrderedUpper: seq<byte> :=
    [65, 66, 67, 68, 69, 70, 71, 72, 74, 75, 76, 77, 78, 80, 81, 82, 83, 84, 85, 86, 87, 88, 89, 90]
  const OrderedLower: seq<byte> :=
    [97, 98, 99, 100, 101, 102, 103, 104, 105, 106, 107, 109, 110, 111, 112, 113, 114, 115, 116, 117, 118, 119, 120, 121, 122]

  /** The 58 symbols in digit order: digit 0 is '1', digit 57 is 'z'. */
  const DigitsOrdered: seq<byte> := OrderedDigits + OrderedUpper + OrderedLower

  const MapRow0: seq<int> := [-1,-1,-1,-1,-1,-1,-1,-1, -1,-1,-1,-1,-1,-1,-1,-1]
  const MapRow1: seq<int> := [-1,-1,-1,-1,-1,-1,-1,-1, -1,-1,-1,-1,-1,-1,-1,-1]
  const MapRow2: seq<int> := [-1,-1,-1,-1,-1,-1,-1,-1, -1,-1,-1,-1,-1,-1,-1,-1]
  const MapRow3: seq<int> := [-1, 0, 1, 2, 3, 4, 5, 6,  7, 8,-1,-1,-1,-1,-1,-1]
  const MapRow4: seq<int> := [-1, 9,10,11,12,13,14,15, 16,-1,17,18,19,20,21,-1]
  const MapRow5: seq<int> := [22,23,24,25,26,27,28,29, 30,31,32,-1,-1,-1,-1,-1]
  const MapRow6: seq<int> := [-1,33,34,35,36,37,38,39, 40,41,42,43,-1,44,45,46]
  const MapRow7: seq<int> := [47,48,49,50,51,52,53,54, 55,56,57,-1,-1,-1,-1,-1]

  /** For each 7-bit code, its digit value, or -1 for a code outside the alphabet. */
  const DigitsMap: seq<int> :=
    MapRow0 + MapRow1 + MapRow2 + MapRow3 + MapRow4 + MapRow5 + MapRow6 + MapRow7

  /** The character code of the zero symbol '1'. */
  const ZeroSymbol: byte := 49

  /** The string terminator. */
  const Nul: byte := 0

  // ---------------------------------------------------------------------
  // Reference definitions by character ranges

  /** The symbol for digit `d`: the digits, upper case and lower case letters
      in code order, skipping '0', 'I', 'O' and 'l'. */
  function SymbolOf(d: nat): nat {
    if d < 9 then d + 49            // '1'..'9'
    else if d < 17 then d + 56      // 'A'..'H'
    else if d < 22 then d + 57      // 'J'..'N'
    else if d < 33 then d + 58      // 'P'..'Z'
    else if d < 44 then d + 64      // 'a'..'k'
    else d + 65                     // 'm'..'z'
  }

  /** The digit a character code stands for, -1 if none. */
  function ValueOfSymbol(c: nat): int {
    if 49 <= c <= 57 then c - 49
    else if 65 <= c <= 72 then c - 56
    else if 74 <= c <= 78 then c - 57
    else if 80 <= c <= 90 then c - 58
    else if 97 <= c <= 107 then c - 64
    else if 109 <= c <= 122 then c - 65
    else -1
  }

  lemma OrderedAgreesDigits(d: nat)
    requires d < 9
    ensures DigitsOrdered[d] == SymbolOf(d)
  {
    assert DigitsOrdered[d] == OrderedDigits[d];
  }

  lemma OrderedAgreesUpper(d: nat)
    requires 9 <= d < 33
    ensures DigitsOrdered[d] == SymbolOf(d)
  {
    assert DigitsOrdered[d] == OrderedUpper[d - 9];
  }

  lemma OrderedAgreesLower(d: nat)
    requires 33 <= d < 58
    ensures DigitsOrdered[d] == SymbolOf(d)
  {
    assert DigitsOrdered[d] == OrderedLower[d - 33];
  }

  /** The ordered table is the range definition. */
  lemma DigitsOrderedIsSymbolOf(d: nat)
    requires d < 58
    ensures |DigitsOrdered| == 58
    ensures DigitsOrdered[d] == SymbolOf(d)
  {
    if d < 9 {
      OrderedAgreesDigits(d);
    } else if d < 33 {
      OrderedAgreesUpper(d);
    } else {
      OrderedAgreesLower(d);
    }
  }

  lemma MapAgreesRow0(c: nat)
    requires c < 16
    ensures DigitsMap[c] == ValueOfSymbol(c)
  {
    assert DigitsMap[c] == MapRow0[c];
  }

  lemma MapAgreesRow1(c: nat)
    requires 16 <= c < 32
    ensures DigitsMap[c] == ValueOfSymbol(c)
  {
    assert DigitsMap[c] == MapRow1[c - 16];
  }

  lemma MapAgreesRow2(c: nat)
    requires 32 <= c < 48
    ensures DigitsMap[c] == ValueOfSymbol(c)
  {
    assert DigitsMap[c] == MapRow2[c - 32];
  }

  lemma MapAgreesRow3(c: nat)
    requires 48 <= c < 64
    ensures DigitsMap[c] == ValueOfSymbol(c)
  {
    assert DigitsMap[c] == MapRow3[c - 48];
  }

  lemma MapAgreesRow4(c: nat)
    requires 64 <= c < 80
    ensures DigitsMap[c] == ValueOfSymbol(c)
  {
    assert DigitsMap[c] == MapRow4[c - 64];
  }

  lemma MapAgreesRow5(c: nat)
    requires 80 <= c < 96
    ensures DigitsMap[c] == ValueOfSymbol(c)
  {
    assert DigitsMap[c] == MapRow5[c - 80];
  }

  lemma MapAgreesRow6(c: nat)
    requires 96 <= c < 112
    ensures DigitsMap[c] == ValueOfSymbol(c)
  {
    assert DigitsMap[c] == MapRow6[c - 96];
  }

  lemma MapAgreesRow7(c: nat)
    requires 112 <= c < 128
    ensures DigitsMap[c] == ValueOfSymbol(c)
  {
    assert DigitsMap[c] == MapRow7[c - 112];
  }

  /** The digit map is the range definition on all 128 codes. */
  lemma DigitsMapIsValueOfSymbol(c: nat)
    requires c < 128
    ensures |DigitsMap| == 128
    ensures DigitsMap[c] == ValueOfSymbol(c)
  {
    if c < 16 { MapAgreesRow0(c); }
    else if c < 32 { MapAgreesRow1(c); }
    else if c < 48 { MapAgreesRow2(c); }
    else if c < 64 { MapAgreesRow3(c); }
    else if c < 80 { MapAgreesRow4(c); }
    else if c < 96 { MapAgreesRow5(c); }
    else if c < 112 { MapAgreesRow6(c); }
    else { MapAgreesRow7(c); }
  }

  // ---------------------------------------------------------------------
  // The decoder's view of a character

  /** A character the decoder accepts as a digit: high bit clear and mapped. */
  predicate IsDigitChar(c: byte) {
    c < 128 && DigitsMap[c] != -1
  }

  predicate AllDigitChars(s: seq<byte>) {
    forall i :: 0 <= i < |s| ==> IsDigitChar(s[i])
  }

  /** The digit value of an accepted character; spelling it gives the character back. */
  function DigitOf(c: byte): (d: nat)
    requires IsDigitChar(c)
    ensures d < 58
    ensures DigitsOrdered[d] == c
  {
    DigitsMapIsValueOfSymbol(c);
    DigitsOrderedIsSymbolOf(DigitsMap[c]);
    DigitsMap[c]
  }

  /** The digit values of a string of alphabet characters. */
  function DigitsOf(s: seq<byte>): (ds: seq<nat>)
    requires AllDigitChars(s)
    ensures |ds| == |s|
    ensures IsDigits(ds, 58)
    ensures forall i :: 0 <= i < |s| ==> ds[i] == DigitOf(s[i])
  {
    seq(|s|, i requires 0 <= i < |s| => DigitOf(s[i]))
  }

  lemma DigitsOfConcat(a: seq<byte>, b: seq<byte>)
    requires AllDigitChars(a) && AllDigitChars(b)
    ensures AllDigitChars(a + b)
    ensures DigitsOf(a + b) == DigitsOf(a) + DigitsOf(b)
  {
  }

  lemma DigitsOfSnoc(s: seq<byte>, c: byte)
    requires AllDigitChars(s) && IsDigitChar(c)
    ensures AllDigitChars(s + [c])
    ensures DigitsOf(s + [c]) == DigitsOf(s) + [DigitOf(c)]
  {
  }

  /** The alphabet characters spelling a sequence of digit values. */
  function Spell(ds: seq<nat>): (s: seq<byte>)
    requires IsDigits(ds, 58)
    ensures |s| == |ds|
    ensures AllDigitChars(s)
    ensures forall i :: 0 <= i < |ds| ==> DigitOf(s[i]) == ds[i]
  {
    var s := seq(|ds|, i requires 0 <= i < |ds| => DigitsOrdered[ds[i]]);
    assert forall i :: 0 <= i < |ds| ==> IsDigitChar(s[i]) && DigitOf(s[i]) == ds[i] by {
      forall i | 0 <= i < |ds|
        ensures IsDigitChar(s[i]) && DigitOf(s[i]) == ds[i]
      {
        TablesInverse(ds[i]);
      }
    }
    s
  }

  // ---------------------------------------------------------------------
  // Properties of the tables

  /** Looking up a symbol's code in the digit map gives back its digit. */
  lemma TablesInverse(d: nat)
    requires d < 58
    ensures DigitsOrdered[d] < 128
    ensures DigitsMap[DigitsOrdered[d]] == d
  {
    DigitsOrderedIsSymbolOf(d);
    DigitsMapIsValueOfSymbol(DigitsOrdered[d]);
  }

  /** Every code the digit map accepts is the symbol of its digit. */
  lemma TablesInverseConverse(c: nat)
    requires c < 128 && DigitsMap[c] != -1
    ensures 0 <= DigitsMap[c] < 58
    ensures DigitsOrdered[DigitsMap[c]] == c
  {
    DigitsMapIsValueOfSymbol(c);
    DigitsOrderedIsSymbolOf(DigitsMap[c]);
  }

  /** The decoder accepts exactly the 58 symbols of the alphabet. */
  lemma AcceptsExactlyAlphabet(c: byte)
    ensures IsDigitChar(c) <==> exists d :: 0 <= d < 58 && DigitsOrdered[d] == c
  {
    if IsDigitChar(c) {
      TablesInverseConverse(c);
    }
    if exists d :: 0 <= d < 58 && DigitsOrdered[d] == c {
      var d :| 0 <= d < 58 && DigitsOrdered[d] == c;
      TablesInverse(d);
    }
  }

  /** '0', 'O', 'I', 'l', the terminator and every code with the high bit set
      are rejected. */
  lemma RejectsLookalikes(c: byte)
    requires c in {48, 79, 73, 108, 0} || c >= 128
    ensures !IsDigitChar(c)
  {
    if c < 128 {
      DigitsMapIsValueOfSymbol(c);
    }
  }

  /** '1' is the only character with digit value 0. */
  lemma ZeroSymbolIsDigitZero(c: byte)
    requires IsDigitChar(c)
    ensures DigitOf(c) == 0 <==> c == ZeroSymbol
  {
    DigitsMapIsValueOfSymbol(c);
  }

  /** Spelling a digit sequence and reading it back are inverse. */
  lemma DigitsOfSpell(ds: seq<nat>)
    requires IsDigits(ds, 58)
    ensures DigitsOf(Spell(ds)) == ds
  {
  }

  /** Reading alphabet text and spelling the digits back are inverse. */
  lemma SpellOfDigitsOf(s: seq<byte>)
    requires AllDigitChars(s)
    ensures Spell(DigitsOf(s)) == s
  {
  }

  /** No symbol is the terminator. */
  lemma SpellHasNoNul(ds: seq<nat>)
    requires IsDigits(ds, 58)
    ensures Nul !in Spell(ds)
  {
    var s := Spell(ds);
    forall i | 0 <= i < |s|
      ensures s[i] != Nul
    {
      RejectsLookalikes(Nul);
    }
  }
}
