/** The two string hashes of the hash map: a polynomial rolling hash and 64-bit FNV-1a.
    Both read the characters of a string as small non-negative numbers; a character at or
    above 0x80 would be sign-extended on platforms with a signed `char`, so inputs are
    restricted to seven-bit characters. */
module HashFunctions {

  /** A character of a `std::string`, read as its code. */
  newtype Byte = b: int | 0 <= b < 256

  /** The characters every hash accepts: seven-bit codes. */
  ghost predicate Ascii(str: seq<Byte>)
  {
    forall i :: 0 <= i < |str| ==> str[i] < 0x80
  }

  /** `size_t` is 64 bits wide. */
  const Word: nat := 0x1_0000_0000_0000_0000

  /** The base and the modulus of the polynomial hash. */
  const Base: nat := 19
  const Modulus: nat := 3298534883309

  /** The power that multiplies character `i`: `p_0 == 1` and `p_{i+1} == p_i * 19 mod m`. */
  function Power(i: nat): (p: nat)
    ensures p < Modulus
  {
    if i == 0 then 1 else (Power(i - 1) * Base) % Modulus
  }

  /** The term a character contributes at position `i`. */
  function Term(c: Byte, i: nat): nat
  {
    c as nat * Power(i)
  }

  /** The exact sum of the first `n` terms `str[k] * p_k`, before any wrap-around. */
  function PolySum(str: seq<Byte>, n: nat): nat
    requires n <= |str|
  {
    if n == 0 then 0 else PolySum(str, n - 1) + Term(str[n - 1], n - 1)
  }

  /** The polynomial hash: the sum of `str[i] * p_i`, reduced modulo 2^64. */
  function PolyHash(str: seq<Byte>): (h: nat)
    ensures h < Word
  {
    PolySum(str, |str|) % Word
  }

  /** Neither product in the loop wraps: `p * 19` and `str[i] * p` stay below 2^64. */
  lemma ProductsFit(i: nat, c: Byte)
    requires c < 0x80
    ensures Power(i) * Base < Word && Term(c, i) < Word
  {
    var p := Power(i);
    assert p * Base <= Modulus * Base;
    assert c as nat * p <= 0x80 * Modulus;
  }

  /** Reducing the accumulator after every step gives the same value as reducing once. */
  lemma AddMod(a: nat, x: nat)
    ensures (a % Word + x) % Word == (a + x) % Word
  {
    var q := a / Word;
    assert a == q * Word + a % Word;
    assert a + x == (a % Word + x) + q * Word;
  }

  /** `polynomial_rolling_hash::operator()`: one pass accumulating `str[i] * p` into a wrapping
      64-bit sum while stepping `p` to the next power. */
  method PolynomialRollingHash(str: seq<Byte>) returns (hash: nat)
    requires Ascii(str)
    ensures hash == PolyHash(str)
  {
    hash := 0;
    var p: nat := 1;
    var i := 0;
    while i < |str|
      invariant i <= |str| && p == Power(i) && hash == PolySum(str, i) % Word
    {
      ProductsFit(i, str[i]);
      AddMod(PolySum(str, i), Term(str[i], i));
      hash := (hash + str[i] as nat * p) % Word;
      p := (p * Base) % Modulus;
      i := i + 1;
    }
  }

  /** The hash of the empty string is 0. */
  lemma PolyHashEmpty()
    ensures PolyHash([]) == 0
  {
  }

  /** The sum over a prefix of `str + [c]` ignores `c`. */
  lemma {:induction false} PolySumPrefix(str: seq<Byte>, c: Byte, n: nat)
    requires n <= |str|
    ensures PolySum(str + [c], n) == PolySum(str, n)
  {
    if n > 0 {
      PolySumPrefix(str, c, n - 1);
      assert (str + [c])[n - 1] == str[n - 1];
    }
  }

  /** Rolling: appending a character adds its term at the next power. */
  lemma PolyHashAppend(str: seq<Byte>, c: Byte)
    ensures PolyHash(str + [c]) == (PolyHash(str) + Term(c, |str|)) % Word
  {
    var x, a := Term(c, |str|), PolySum(str, |str|);
    PolySumPrefix(str, c, |str|);
    assert (str + [c])[|str|] == c;
    assert PolySum(str + [c], |str| + 1) == a + x;
    AddMod(a, x);
  }

  /** "ab" hashes to `97 + 98 * 19`. */
  lemma PolyHashExample()
    ensures PolyHash([97, 98]) == 1959
  {
    assert Power(1) == 19;
    assert PolySum([97, 98], 1) == 97;
    assert PolySum([97, 98], 2) == 97 + 98 * 19;
  }

  /** The 64-bit FNV offset basis and FNV prime of section 2 of the IETF draft
      draft-eastlake-fnv. */
  const OffsetBasis: bv64 := 0xCBF2_9CE4_8422_2325
  const FnvPrime: bv64 := 0x0000_0100_0000_01B3

  /** One FNV-1a step: exclusive-or the octet in, then multiply by the prime modulo 2^64. */
  function FnvStep(hash: bv64, c: Byte): bv64
  {
    (hash ^ c as bv64) * FnvPrime
  }

  /** FNV-1a of a string: the offset basis with every character folded in, first to last. */
  function Fnv1a(str: seq<Byte>): bv64
  {
    if str == [] then OffsetBasis else FnvStep(Fnv1a(str[..|str| - 1]), str[|str| - 1])
  }

  /** `fnv1a_hash::operator()`: start at the offset basis and fold every character in. */
  method Fnv1aHash(str: seq<Byte>) returns (hash: bv64)
    requires Ascii(str)
    ensures hash == Fnv1a(str)
  {
    hash := OffsetBasis;
    var i := 0;
    while i < |str|
      invariant i <= |str| && hash == Fnv1a(str[..i])
    {
      assert str[..i + 1][..i] == str[..i];
      hash := FnvStep(hash, str[i]);
      i := i + 1;
    }
    assert str[..i] == str;
  }

  /** The hash of the empty string is the offset basis. */
  lemma Fnv1aEmpty()
    ensures Fnv1a([]) == 0xCBF2_9CE4_8422_2325
  {
  }

  /** Appending a character is one more FNV-1a step. */
  lemma Fnv1aAppend(str: seq<Byte>, c: Byte)
    ensures Fnv1a(str + [c]) == FnvStep(Fnv1a(str), c)
  {
    assert (str + [c])[..|str|] == str;
  }

  /** The published test value: FNV-1a 64 of "a" is 0xAF63DC4C8601EC8C. */
  lemma Fnv1aExample()
    ensures Fnv1a([97]) == 0xAF63_DC4C_8601_EC8C
  {
    assert [97 as Byte][..0] == [];
    assert Fnv1a([97]) == FnvStep(OffsetBasis, 97);
  }
}
