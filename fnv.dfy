/**
 * `FNVHashUtils`: 64-bit FNV-1 (`hash64`) and FNV-1a (`hash64_`) as defined
 * in section 2 of the IETF draft draft-eastlake-fnv, with the 16-bit Java
 * `char` as the data unit. The source computes on an unbounded `BigInteger`
 * and masks with 2^64 - 1 once at the end.
 */
module Fnv {

  /** A Java `char`: one UTF-16 code unit, as its numeric value. */
  type JavaChar = x: int | 0 <= x < 0x1_0000

  const OFFSET_BASIS: nat := 14695981039346656037
  const PRIME: nat := 1099511628211
  /** 2^64; `and(2^64 - 1)` on a non-negative value is `% TWO_64`. */
  const TWO_64: nat := 0x1_0000_0000_0000_0000
  const TWO_16: nat := 65536

  /** `BigInteger.xor` of a non-negative value with a char value: only the
      low 16 bits change. */
  function XorChar(a: nat, c: JavaChar): nat {
    a - a % TWO_16 + XorLow(a % TWO_16, c)
  }

  /** The low 16 bits after the xor. */
  function XorLow(low: nat, c: JavaChar): nat {
    XorBits(low, c, 16)
  }

  /** Bitwise exclusive or of the low `n` bits of `a` and `b`. */
  function XorBits(a: nat, b: nat, n: nat): nat {
    if n == 0 then 0
    else 2 * XorBits(a / 2, b / 2, n - 1) + (if a % 2 == b % 2 then 0 else 1)
  }

  function Pow2(n: nat): (r: nat)
    ensures r > 0
  {
    if n == 0 then 1 else 2 * Pow2(n - 1)
  }

  lemma {:induction false} XorBitsBound(a: nat, b: nat, n: nat)
    ensures XorBits(a, b, n) < Pow2(n)
  {
    if n > 0 {
      XorBitsBound(a / 2, b / 2, n - 1);
    }
  }

  lemma XorLowBound(low: nat, c: JavaChar)
    ensures XorLow(low, c) < TWO_16
  {
    XorBitsBound(low, c, 16);
    assert Pow2(1) == 2;
    assert Pow2(2) == 4;
    assert Pow2(3) == 8;
    assert Pow2(4) == 16;
    assert Pow2(5) == 32;
    assert Pow2(6) == 64;
    assert Pow2(7) == 128;
    assert Pow2(8) == 256;
    assert Pow2(9) == 512;
    assert Pow2(10) == 1024;
    assert Pow2(11) == 2048;
    assert Pow2(12) == 4096;
    assert Pow2(13) == 8192;
    assert Pow2(14) == 16384;
    assert Pow2(15) == 32768;
    assert Pow2(16) == 65536;
  }

  /** The unmasked value of `hash` in `hash64` after the loop has consumed `s`:
      multiply, then xor, per character. */
  function Fnv1Raw(s: seq<JavaChar>): nat
    decreases |s|
  {
    if s == [] then OFFSET_BASIS
    else XorChar(Fnv1Raw(s[..|s| - 1]) * PRIME, s[|s| - 1])
  }

  /** The unmasked value of `hash` in `hash64_`: xor, then multiply. */
  function Fnv1aRaw(s: seq<JavaChar>): nat
    decreases |s|
  {
    if s == [] then OFFSET_BASIS
    else XorChar(Fnv1aRaw(s[..|s| - 1]), s[|s| - 1]) * PRIME
  }

  /** FNV-1 as the draft states it: every step is reduced mod 2^64. */
  function Fnv1(s: seq<JavaChar>): (h: nat)
    ensures h < TWO_64
    decreases |s|
  {
    if s == [] then OFFSET_BASIS
    else
      XorCharBound((Fnv1(s[..|s| - 1]) * PRIME) % TWO_64, s[|s| - 1]);
      XorChar((Fnv1(s[..|s| - 1]) * PRIME) % TWO_64, s[|s| - 1])
  }

  /** FNV-1a as the draft states it. */
  function Fnv1a(s: seq<JavaChar>): (h: nat)
    ensures h < TWO_64
    decreases |s|
  {
    if s == [] then OFFSET_BASIS
    else (XorChar(Fnv1a(s[..|s| - 1]), s[|s| - 1]) * PRIME) % TWO_64
  }

  /** `hash64(text)`: FNV-1 of the text, a value in [0, 2^64). */
  method Hash64(text: seq<JavaChar>) returns (h: nat)
    ensures h == Fnv1(text) && h < TWO_64
  {
    var hash: nat := OFFSET_BASIS;
    for i := 0 to |text|
      invariant hash == Fnv1Raw(text[..i])
    {
      assert text[..i + 1][..i] == text[..i];
      hash := hash * PRIME;
      hash := XorChar(hash, text[i]);
    }
    assert text[..|text|] == text;
    h := hash % TWO_64;
    MaskOnceFnv1(text);
  }

  /** `hash64_(text)`: FNV-1a of the text, a value in [0, 2^64). */
  method Hash64a(text: seq<JavaChar>) returns (h: nat)
    ensures h == Fnv1a(text) && h < TWO_64
  {
    var hash: nat := OFFSET_BASIS;
    for i := 0 to |text|
      invariant hash == Fnv1aRaw(text[..i])
    {
      assert text[..i + 1][..i] == text[..i];
      hash := XorChar(hash, text[i]);
      hash := hash * PRIME;
    }
    assert text[..|text|] == text;
    h := hash % TWO_64;
    MaskOnceFnv1a(text);
  }

  /** On the empty string both hashes are the offset basis. */
  lemma EmptyIsOffsetBasis()
    ensures Fnv1([]) == 14695981039346656037 && Fnv1a([]) == 14695981039346656037
  {
  }

  /** Masking once at the end equals reducing after every step (FNV-1). */
  lemma {:induction false} MaskOnceFnv1(s: seq<JavaChar>)
    ensures Fnv1Raw(s) % TWO_64 == Fnv1(s)
    decreases |s|
  {
    if s != [] {
      var p, c := s[..|s| - 1], s[|s| - 1];
      MaskOnceFnv1(p);
      var r := Fnv1Raw(p);
      MulMod(r);
      XorMod(r * PRIME, c);
    }
  }

  /** Masking once at the end equals reducing after every step (FNV-1a). */
  lemma {:induction false} MaskOnceFnv1a(s: seq<JavaChar>)
    ensures Fnv1aRaw(s) % TWO_64 == Fnv1a(s)
    decreases |s|
  {
    if s != [] {
      var p, c := s[..|s| - 1], s[|s| - 1];
      MaskOnceFnv1a(p);
      var r := Fnv1aRaw(p);
      XorMod(r, c);
      MulMod(XorChar(r, c));
      XorCharBound(r % TWO_64, c);
      assert XorChar(r, c) % TWO_64 == XorChar(r % TWO_64, c);
    }
  }

  lemma XorCharBound(a: nat, c: JavaChar)
    ensures a < TWO_64 ==> XorChar(a, c) < TWO_64
  {
    var lo := a % TWO_16;
    XorLowBound(lo, c);
    var hi := a / TWO_16;
    assert a == hi * TWO_16 + lo;
    if a < TWO_64 {
      assert hi < TWO_64 / TWO_16;
    }
  }

  /** Reducing the multiplicand first does not change the product by the
      prime mod 2^64. */
  lemma MulMod(a: nat)
    ensures (a * PRIME) % TWO_64 == ((a % TWO_64) * PRIME) % TWO_64
  {
    var q, r := a / TWO_64, a % TWO_64;
    assert a * PRIME == (q * PRIME) * TWO_64 + r * PRIME;
    var s := r * PRIME;
    ModUnique64(s, s / TWO_64, s % TWO_64);
    ModUnique64(a * PRIME, q * PRIME + s / TWO_64, s % TWO_64);
  }

  /** xor with a char commutes with reduction mod 2^64, since 2^16 divides 2^64. */
  lemma XorMod(a: nat, c: JavaChar)
    ensures XorChar(a, c) % TWO_64 == XorChar(a % TWO_64, c)
  {
    var q, am := a / TWO_64, a % TWO_64;
    assert a == q * TWO_64 + am;
    LowBitsKept(a, q, am);
    XorCharBound(am, c);
    XorShift(a, am, q, c);
    ModUnique64(XorChar(a, c), q, XorChar(am, c));
  }

  lemma XorShift(a: nat, am: nat, q: nat, c: JavaChar)
    requires a == q * TWO_64 + am && a % TWO_16 == am % TWO_16
    ensures XorChar(a, c) == q * TWO_64 + XorChar(am, c)
  {
  }

  /** Reducing mod 2^64 keeps the low 16 bits. */
  lemma LowBitsKept(a: nat, q: nat, am: nat)
    requires am < TWO_64 && a == q * TWO_64 + am
    ensures a % TWO_16 == am % TWO_16
  {
    var hm, lm := am / TWO_16, am % TWO_16;
    assert am == hm * TWO_16 + lm;
    assert a == (q * 0x1_0000_0000_0000 + hm) * TWO_16 + lm;
    ModUnique16(a, q * 0x1_0000_0000_0000 + hm, lm);
  }

  lemma ModUnique64(x: nat, q: nat, r: nat)
    requires r < TWO_64 && x == q * TWO_64 + r
    ensures x % TWO_64 == r
  {
  }

  lemma ModUnique16(x: nat, q: nat, r: nat)
    requires r < TWO_16 && x == q * TWO_16 + r
    ensures x % TWO_16 == r
  {
  }
}
