/** Addresses from /proc/net: carto/src/connections.c, `hex_to_ipv4` and `hex_to_ipv6`. */
module HexAddresses {
  import opened CTypes

  /** The value of a hexadecimal digit, or -1. */
  function DigitValue(c: byte): int {
    if 48 <= c <= 57 then c - 48
    else if 65 <= c <= 70 then c - 55
    else if 97 <= c <= 102 then c - 87
    else -1
  }

  predicate IsDigit(c: byte) {
    DigitValue(c) >= 0
  }

  /** The digits in order of their values, in either case, and nothing else. */
  lemma DigitValues(c: byte, v: nat)
    requires v < 16
    ensures DigitValue("0123456789abcdef"[v] as int) == DigitValue("0123456789ABCDEF"[v] as int) == v
    ensures IsDigit(c) <==> c as char in "0123456789abcdefABCDEF"
    ensures !IsDigit(c) ==> DigitValue(c) == -1
  {
  }

  predicate IsSpace(c: byte) {
    c == 32 || 9 <= c <= 13
  }

  /** `strtol(s, NULL, 16)` on a string of at most two characters: a blank or a sign may
      stand before one digit, and conversion stops at the first other character. */
  function Strtol(c0: byte, c1: byte): (v: int)
    ensures -15 <= v <= 255
  {
    if IsDigit(c0) then
      if IsDigit(c1) then 16 * DigitValue(c0) + DigitValue(c1) else DigitValue(c0)
    else if (IsSpace(c0) || c0 == 43) && IsDigit(c1) then DigitValue(c1)
    else if c0 == 45 && IsDigit(c1) then -DigitValue(c1)
    else 0
  }

  function AfterSpace(s: seq<byte>): seq<byte> {
    if s != [] && IsSpace(s[0]) then AfterSpace(s[1..]) else s
  }

  /** The number that the leading digits make, continuing from `v`. */
  function Accumulated(s: seq<byte>, v: nat): nat
    decreases |s|
  {
    if s != [] && IsDigit(s[0]) then Accumulated(s[1..], 16 * v + DigitValue(s[0])) else v
  }

  /** `strtol(s, NULL, 16)` as section 7.22.1.4 of ISO C11 describes it, while the value fits
      a long: blanks, a sign, a "0x" before a digit, then digits. */
  function LibraryStrtol(s: seq<byte>): int {
    var t := AfterSpace(s);
    var unsigned := if t != [] && (t[0] == 43 || t[0] == 45) then t[1..] else t;
    var digits := if |unsigned| >= 3 && unsigned[0] == 48 && (unsigned[1] == 88 || unsigned[1] == 120) &&
                     IsDigit(unsigned[2]) then unsigned[2..] else unsigned;
    var value: int := Accumulated(digits, 0);
    if t != [] && t[0] == 45 then -value else value
  }

  /** On two characters the library function comes down to `Strtol`. */
  lemma StrtolIsLibrary(c0: byte, c1: byte)
    ensures Strtol(c0, c1) == LibraryStrtol([c0, c1])
  {
    var s := [c0, c1];
    assert s[1..] == [c1] && [c1][1..] == [];
    assert AfterSpace([c1]) == if IsSpace(c1) then [] else [c1];
    forall v: nat
      ensures Accumulated([c1], v) == if IsDigit(c1) then 16 * v + DigitValue(c1) else v
    {
    }
    assert AfterSpace(s) == if IsSpace(c0) then AfterSpace([c1]) else s;
    assert Accumulated(s, 0) == if IsDigit(c0) then Accumulated([c1], DigitValue(c0)) else 0;
  }

  /** One step of the loops: `word <<= 8; word += byte` on an `unsigned int`. */
  function ShiftAdd(word: uint32, v: int): uint32 {
    (word * 0x100 % TWO_TO_THE_32 + v) % TWO_TO_THE_32
  }

  /** What the four character pairs at `offset` convert to. */
  function Pairs(hex: seq<byte>, offset: nat): (values: seq<int>)
    requires offset + 8 <= |hex|
    ensures |values| == 4
  {
    [Strtol(hex[offset], hex[offset + 1]), Strtol(hex[offset + 2], hex[offset + 3]),
     Strtol(hex[offset + 4], hex[offset + 5]), Strtol(hex[offset + 6], hex[offset + 7])]
  }

  lemma PairAtIndex(hex: seq<byte>, offset: nat, j: nat)
    requires offset + 8 <= |hex| && j < 4
    ensures Pairs(hex, offset)[j] == Strtol(hex[offset + 2 * j], hex[offset + 2 * j + 1])
  {
  }

  /** The big-endian number of four byte values. */
  function BigEndian(values: seq<int>): int
    requires |values| == 4
  {
    0x100_0000 * values[0] + 0x1_0000 * values[1] + 0x100 * values[2] + values[3]
  }

  /** Four steps flush the word: nothing of what it held before is left. */
  lemma FourStepsFlush(word: uint32, a: int, b: int, c: int, d: int)
    ensures ShiftAdd(ShiftAdd(ShiftAdd(ShiftAdd(word, a), b), c), d) ==
            (0x100_0000 * a + 0x1_0000 * b + 0x100 * c + d) % TWO_TO_THE_32
  {
  }

  /** The word after the first `j` steps. */
  function Folded(word: uint32, values: seq<int>, j: nat): uint32
    requires j <= |values|
  {
    if j == 0 then word else ShiftAdd(Folded(word, values, j - 1), values[j - 1])
  }

  lemma FoldingFlushes(word: uint32, values: seq<int>)
    requires |values| == 4
    ensures Folded(word, values, 4) == BigEndian(values) % TWO_TO_THE_32
  {
    var a, b, c, d := values[0], values[1], values[2], values[3];
    assert Folded(word, values, 1) == ShiftAdd(word, a);
    assert Folded(word, values, 2) == ShiftAdd(ShiftAdd(word, a), b);
    assert Folded(word, values, 3) == ShiftAdd(ShiftAdd(ShiftAdd(word, a), b), c);
    FourStepsFlush(word, a, b, c, d);
  }

  /** `hex_to_ipv4`, on any eight characters. */
  method HexToIpv4(hex: seq<byte>) returns (sAddr: uint32)
    requires 8 <= |hex|
    ensures sAddr == BigEndian(Pairs(hex, 0)) % TWO_TO_THE_32
  {
    sAddr := 0;
    var i := 0;
    ghost var values := Pairs(hex, 0);
    while i < 4
      invariant 0 <= i <= 4 && sAddr == Folded(0, values, i)
    {
      PairAtIndex(hex, 0, i);
      sAddr := sAddr * 0x100 % TWO_TO_THE_32;
      sAddr := (sAddr + Strtol(hex[2 * i], hex[2 * i + 1])) % TWO_TO_THE_32;
      i := i + 1;
    }
    FoldingFlushes(0, values);
  }

  /** `hex_to_ipv6`, on any thirty-two characters and whatever the words held before:
      the loop never clears them. */
  method HexToIpv6(hex: seq<byte>, addrWords: array<uint32>)
    requires 32 <= |hex| && addrWords.Length == 4
    modifies addrWords
    ensures forall i | 0 <= i < 4 :: addrWords[i] == BigEndian(Pairs(hex, 8 * i)) % TWO_TO_THE_32
  {
    var i := 0;
    while i < 4
      invariant 0 <= i <= 4
      invariant forall k | 0 <= k < i :: addrWords[k] == BigEndian(Pairs(hex, 8 * k)) % TWO_TO_THE_32
    {
      ghost var word, values := addrWords[i], Pairs(hex, 8 * i);
      var j := 0;
      while j < 4
        invariant 0 <= j <= 4 && addrWords[i] == Folded(word, values, j)
        invariant forall k | 0 <= k < i :: addrWords[k] == BigEndian(Pairs(hex, 8 * k)) % TWO_TO_THE_32
      {
        PairAtIndex(hex, 8 * i, j);
        addrWords[i] := addrWords[i] * 0x100 % TWO_TO_THE_32;
        addrWords[i] := (addrWords[i] + Strtol(hex[8 * i + 2 * j], hex[8 * i + 2 * j + 1])) % TWO_TO_THE_32;
        j := j + 1;
      }
      FoldingFlushes(word, values);
      i := i + 1;
    }
  }

  /// Printing, as /proc/net does

  function HexDigit(v: int): (c: byte)
    requires 0 <= v < 16
    ensures DigitValue(c) == v
  {
    if v < 10 then 48 + v else 55 + v
  }

  function PrintByte(b: byte): seq<byte> {
    [HexDigit(b / 16), HexDigit(b % 16)]
  }

  lemma BytesOfWord(u: uint32)
    ensures u == 0x100_0000 * (u / 0x100_0000) + 0x1_0000 * (u / 0x1_0000 % 0x100) +
                 0x100 * (u / 0x100 % 0x100) + u % 0x100
  {
    assert u / 0x100 / 0x100 == u / 0x1_0000;
    assert u / 0x1_0000 / 0x100 == u / 0x100_0000;
  }

  function BytesOf(w: uint32): (bytes: seq<byte>)
    ensures |bytes| == 4 && BigEndian(bytes) == w
  {
    BytesOfWord(w);
    [w / 0x100_0000, w / 0x1_0000 % 0x100, w / 0x100 % 0x100, w % 0x100]
  }

  /** "%08X" */
  function PrintWord(w: uint32): (hex: seq<byte>)
    ensures |hex| == 8
  {
    var bytes := BytesOf(w);
    PrintByte(bytes[0]) + PrintByte(bytes[1]) + PrintByte(bytes[2]) + PrintByte(bytes[3])
  }

  lemma StrtolInvertsPrint(b: byte)
    ensures Strtol(PrintByte(b)[0], PrintByte(b)[1]) == b
  {
  }

  lemma PairAt(hex: seq<byte>, offset: nat, w: uint32, k: nat)
    requires offset + 8 <= |hex| && hex[offset..offset + 8] == PrintWord(w) && k < 4
    ensures Pairs(hex, offset)[k] == BytesOf(w)[k]
  {
    var text := hex[offset..offset + 8];
    assert hex[offset + 2 * k] == text[2 * k];
    assert hex[offset + 2 * k + 1] == text[2 * k + 1];
    StrtolInvertsPrint(BytesOf(w)[k]);
  }

  lemma PairsOfPrint(hex: seq<byte>, offset: nat, w: uint32)
    requires offset + 8 <= |hex| && hex[offset..offset + 8] == PrintWord(w)
    ensures Pairs(hex, offset) == BytesOf(w)
  {
    PairAt(hex, offset, w, 0);
    PairAt(hex, offset, w, 1);
    PairAt(hex, offset, w, 2);
    PairAt(hex, offset, w, 3);
  }

  /** Parsing inverts printing, wherever in a longer text the word was printed. */
  lemma ParsingInvertsPrinting(hex: seq<byte>, offset: nat, w: uint32)
    requires offset + 8 <= |hex| && hex[offset..offset + 8] == PrintWord(w)
    ensures BigEndian(Pairs(hex, offset)) % TWO_TO_THE_32 == w
  {
    var values := Pairs(hex, offset);
    PairsOfPrint(hex, offset, w);
    assert BigEndian(values) == BigEndian(BytesOf(w)) == w;
  }

  /** For hexadecimal digits no addition wraps, whatever the word holds: the shift leaves
      eight zero bits for the byte. */
  lemma DigitsDoNotWrap(word: uint32, c0: byte, c1: byte)
    requires IsDigit(c0) && IsDigit(c1)
    ensures word * 0x100 % TWO_TO_THE_32 + Strtol(c0, c1) < TWO_TO_THE_32
    ensures ShiftAdd(word, Strtol(c0, c1)) == word * 0x100 % TWO_TO_THE_32 + Strtol(c0, c1)
  {
    var shifted := word * 0x100 % TWO_TO_THE_32;
    assert shifted == 0x100 * (word % 0x100_0000);
    assert word % 0x100_0000 <= 0xFF_FFFF;
  }

  /** So the word read is the big-endian value itself. */
  lemma DigitsGiveTheValue(hex: seq<byte>, offset: nat)
    requires offset + 8 <= |hex| && forall k | offset <= k < offset + 8 :: IsDigit(hex[k])
    ensures BigEndian(Pairs(hex, offset)) % TWO_TO_THE_32 == BigEndian(Pairs(hex, offset))
  {
  }
}
