/** The C values the freezer works on: fixed-width integers, NUL-terminated strings
    and the library comparison of two such strings. */
module CTypes {

  const TWO_TO_THE_32: int := 0x1_0000_0000

  type byte = x: int | 0 <= x < 0x100
  type uint32 = x: int | 0 <= x < 0x1_0000_0000
  type int32 = x: int | -0x8000_0000 <= x < 0x8000_0000

  datatype Option<+T> = None | Some(value: T)

  /** The conversion of an `int` operand to `unsigned int`. */
  function AsUnsigned(i: int32): uint32 {
    i % TWO_TO_THE_32
  }

  /** Storing an `unsigned int` in an `int` slot, as gcc defines it. */
  function AsSigned(u: uint32): (i: int32)
    ensures AsUnsigned(i) == u
  {
    if u < 0x8000_0000 then u else u - TWO_TO_THE_32
  }

  /** The two conversions are inverse, so comparing slots as `int` (the hooks) and
      as `unsigned int` (the table operations) is the same test. */
  lemma SignedUnsignedInverse(i: int32, u: uint32)
    ensures AsSigned(AsUnsigned(i)) == i
    ensures AsUnsigned(i) == u <==> i == AsSigned(u)
    ensures i >= 0 ==> AsUnsigned(i) == i
    ensures i < 0 ==> AsUnsigned(i) == i + 0x1_0000_0000
  {
  }

  /** The characters of a C string, without the terminating NUL. */
  type CText = s: seq<byte> | 0 !in s

  lemma PrefixIsProper(s: CText, longer: CText)
    requires s <= longer
    ensures s == longer || s < longer
  {
    if |s| == |longer| {
      assert s == longer;
    }
  }

  /** The characters behind a pointer; a null pointer counts as the empty string. */
  function TextOf(pointer: Option<CText>): CText {
    if pointer.Some? then pointer.value else []
  }

  /** A heap string. Its address is the object's identity; nobody writes to it after
      it was filled, so the characters are constant. */
  class CString {
    const text: CText

    constructor (text: CText)
      ensures this.text == text
    {
      this.text := text;
    }
  }

  /** Character `i` of the memory behind a C string: past the last character
      comes the NUL. */
  function CharAt(s: CText, i: nat): byte {
    if i < |s| then s[i] else 0
  }

  /** `strncmp` from position `i` on: the difference of the first differing pair
      among the first `n` characters, 0 when there is none or both strings end first. */
  function Strncmp(a: CText, b: CText, n: nat, i: nat := 0): int
    decreases n - i
  {
    if i >= n then 0
    else if CharAt(a, i) != CharAt(b, i) then CharAt(a, i) - CharAt(b, i)
    else if CharAt(a, i) == 0 then 0
    else Strncmp(a, b, n, i + 1)
  }

  lemma {:induction false} StrncmpFrom(a: CText, b: CText, i: nat)
    requires i <= |b| && i <= |a| && a[..i] == b[..i]
    ensures Strncmp(a, b, |b|, i) == 0 <==> b <= a
    decreases |b| - i
  {
    if i == |b| {
      assert b == b[..i];
    } else if i < |a| && a[i] == b[i] {
      assert a[..i + 1] == a[..i] + [a[i]];
      assert b[..i + 1] == b[..i] + [b[i]];
      StrncmpFrom(a, b, i + 1);
    } else {
      assert b[i] in b;
    }
  }

  /** Bounding the comparison by the length of the second string accepts exactly the
      strings `a` that start with `b`: the *second* operand is the prefix. */
  lemma StrncmpIsPrefixTest(a: CText, b: CText)
    ensures Strncmp(a, b, |b|) == 0 <==> b <= a
  {
    StrncmpFrom(a, b, 0);
  }

  lemma {:induction false} StrncmpSymmetric(a: CText, b: CText, n: nat, i: nat)
    ensures Strncmp(a, b, n, i) == 0 <==> Strncmp(b, a, n, i) == 0
    decreases n - i
  {
    if i < n && CharAt(a, i) == CharAt(b, i) {
      StrncmpSymmetric(a, b, n, i + 1);
    }
  }

  /** Bounding by the length of the first string tests whether that one is the prefix. */
  lemma StrncmpIsPrefixOf(a: CText, b: CText)
    ensures Strncmp(a, b, |a|) == 0 <==> a <= b
  {
    StrncmpSymmetric(a, b, |a|, 0);
    StrncmpIsPrefixTest(b, a);
  }

  /** The bounded comparison tests equality exactly when the requested string does not stop
      short inside the stored one. */
  lemma PrefixTestIsEqualityIff(stored: CText, requested: CText)
    ensures (Strncmp(stored, requested, |requested|) == 0 <==> stored == requested) <==> !(requested < stored)
  {
    StrncmpIsPrefixTest(stored, requested);
  }
}
