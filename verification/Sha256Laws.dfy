/** What SHA-256's constants and functions are, and that together they hash as the standard says. */
module Sha256Laws {
  import Numbers
  import opened Sha256Spec

  // ------------------------------------------------------- the primes

  ghost predicate IsPrime(q: nat) { q >= 2 && forall d: nat :: 2 <= d < q ==> q % d != 0 }

  /** `q` is the first prime after `p`. */
  ghost predicate NextPrime(p: nat, q: nat) { IsPrime(p) && p < q && IsPrime(q) && forall n: nat :: p < n < q ==> !IsPrime(n) }

  /** The first 64 primes, eight a row. */
  function PrimeRow(r: nat): (q: seq<nat>)
    requires r < 8
    ensures |q| == 8
  {
    match r
    case 0 => [2, 3, 5, 7, 11, 13, 17, 19]
    case 1 => [23, 29, 31, 37, 41, 43, 47, 53]
    case 2 => [59, 61, 67, 71, 73, 79, 83, 89]
    case 3 => [97, 101, 103, 107, 109, 113, 127, 131]
    case 4 => [137, 139, 149, 151, 157, 163, 167, 173]
    case 5 => [179, 181, 191, 193, 197, 199, 211, 223]
    case 6 => [227, 229, 233, 239, 241, 251, 257, 263]
    case _ => [269, 271, 277, 281, 283, 293, 307, 311]
  }

  function Prime(t: nat): nat
    requires t < 64
  {
    PrimeRow(t / 8)[t % 8]
  }

  /** No prime below 19 divides `n`, except `n` itself. */
  predicate Sieved(n: nat) {
    (n == 2 || n % 2 != 0) && (n == 3 || n % 3 != 0) && (n == 5 || n % 5 != 0) && (n == 7 || n % 7 != 0) &&
    (n == 11 || n % 11 != 0) && (n == 13 || n % 13 != 0) && (n == 17 || n % 17 != 0)
  }

  lemma Multiple(n: nat, q: nat, g: nat)
    requires g >= 2 && n == q * g
    requires q == 2 || q == 3 || q == 5 || q == 7 || q == 11 || q == 13 || q == 17
    ensures !Sieved(n)
  {
    assert n != q && n % q == 0 by { Divides(n, q, g); }
  }

  lemma Divides(n: nat, q: nat, g: nat)
    requires q >= 2 && g >= 2 && n == q * g
    ensures n != q && n % q == 0
  {
    Numbers.DivUnique(n, q, g, 0);
    Numbers.MulMonotone(2, g, q);
  }

  lemma SmallFactor(n: nat, f: nat, g: nat)
    requires n == f * g && 2 <= f <= 18 && g >= 2
    ensures !Sieved(n)
  {
    hide Sieved;
    match f
    case 4 => Multiple(n, 2, 2 * g);
    case 6 => Multiple(n, 2, 3 * g);
    case 8 => Multiple(n, 2, 4 * g);
    case 9 => Multiple(n, 3, 3 * g);
    case 10 => Multiple(n, 2, 5 * g);
    case 12 => Multiple(n, 2, 6 * g);
    case 14 => Multiple(n, 2, 7 * g);
    case 15 => Multiple(n, 3, 5 * g);
    case 16 => Multiple(n, 2, 8 * g);
    case 18 => Multiple(n, 2, 9 * g);
    case _ => Multiple(n, f, g);
  }

  lemma Quotient(n: nat, d: nat, e: nat)
    requires n == d * e && 2 <= d < n < 361
    ensures e >= 2 && (d <= 18 || e <= 18)
  {
    Numbers.MulMonotone(e, 1, d);
    Numbers.MulMonotone(19, d, e);
    Numbers.MulMonotone(19, e, 19);
  }

  /** Below 19 squared the sieve finds exactly the primes. */
  lemma SievedIsPrime(n: nat)
    requires 2 <= n < 361
    ensures Sieved(n) <==> IsPrime(n)
  {
    hide Sieved;
    forall d: nat | 2 <= d < n && n % d == 0 ensures !Sieved(n) {
      var e := n / d;
      assert n == d * e;
      Quotient(n, d, e);
      if d <= 18 { SmallFactor(n, d, e); } else { SmallFactor(n, e, d); }
    }
    if !Sieved(n) { NotSieved(n); }
  }

  lemma NotSieved(n: nat)
    requires n >= 2 && !Sieved(n)
    ensures !IsPrime(n)
  {
    assert n % 2 == 0 || n % 3 == 0 || n % 5 == 0 || n % 7 == 0 || n % 11 == 0 || n % 13 == 0 || n % 17 == 0;
  }

  /** `q` is the first number above `p` to pass the sieve. */
  predicate NextSieved(p: nat, q: nat)
    requires p < q
    decreases q - p
  {
    if p + 1 == q then Sieved(q) else !Sieved(p + 1) && NextSieved(p + 1, q)
  }

  lemma {:induction false} NextSievedMeans(p: nat, q: nat)
    requires p < q && NextSieved(p, q)
    ensures Sieved(q) && forall n: nat :: p < n < q ==> !Sieved(n)
    decreases q - p
  {
    hide Sieved;
    if p + 1 < q { NextSievedMeans(p + 1, q); }
  }

  predicate Listed(t: nat)
    requires t + 1 < 64
  {
    var p, q := Prime(t), Prime(t + 1);
    2 <= p < q < 361 && NextSieved(p, q)
  }

  lemma Gaps0()
    ensures NextSieved(2, 3) && NextSieved(3, 5) && NextSieved(5, 7) && NextSieved(7, 11)
    ensures NextSieved(11, 13) && NextSieved(13, 17) && NextSieved(17, 19) && NextSieved(19, 23)
  {
  }

  lemma Gaps1()
    ensures NextSieved(23, 29) && NextSieved(29, 31) && NextSieved(31, 37) && NextSieved(37, 41)
    ensures NextSieved(41, 43) && NextSieved(43, 47) && NextSieved(47, 53) && NextSieved(53, 59)
  {
  }

  lemma Gaps2()
    ensures NextSieved(59, 61) && NextSieved(61, 67) && NextSieved(67, 71) && NextSieved(71, 73)
    ensures NextSieved(73, 79) && NextSieved(79, 83) && NextSieved(83, 89) && NextSieved(89, 97)
  {
  }

  lemma Gaps3()
    ensures NextSieved(97, 101) && NextSieved(101, 103) && NextSieved(103, 107) && NextSieved(107, 109)
    ensures NextSieved(109, 113) && NextSieved(113, 127) && NextSieved(127, 131) && NextSieved(131, 137)
  {
  }

  lemma Gaps4()
    ensures NextSieved(137, 139) && NextSieved(139, 149) && NextSieved(149, 151) && NextSieved(151, 157)
    ensures NextSieved(157, 163) && NextSieved(163, 167) && NextSieved(167, 173) && NextSieved(173, 179)
  {
  }

  lemma Gaps5()
    ensures NextSieved(179, 181) && NextSieved(181, 191) && NextSieved(191, 193) && NextSieved(193, 197)
    ensures NextSieved(197, 199) && NextSieved(199, 211) && NextSieved(211, 223) && NextSieved(223, 227)
  {
  }

  lemma Gaps6()
    ensures NextSieved(227, 229) && NextSieved(229, 233) && NextSieved(233, 239) && NextSieved(239, 241)
    ensures NextSieved(241, 251) && NextSieved(251, 257) && NextSieved(257, 263) && NextSieved(263, 269)
  {
  }

  lemma Gaps7()
    ensures NextSieved(269, 271) && NextSieved(271, 277) && NextSieved(277, 281) && NextSieved(281, 283)
    ensures NextSieved(283, 293) && NextSieved(293, 307) && NextSieved(307, 311)
  {
  }

  /** The entries of the list are each the next to pass the sieve. */
  lemma ListedLow(t: nat)
    requires 0 <= t < 32
    ensures Listed(t)
  {
    hide NextSieved;
    match t / 8
    case 0 => Gaps0();
    case 1 => Gaps1();
    case 2 => Gaps2();
    case _ => Gaps3();
  }

  lemma ListedHigh(t: nat)
    requires 32 <= t < 63
    ensures Listed(t)
  {
    hide NextSieved;
    match t / 8
    case 4 => Gaps4();
    case 5 => Gaps5();
    case 6 => Gaps6();
    case _ => Gaps7();
  }

  /** The list is that of the first 64 primes: it starts at 2 and each entry is followed by the next prime. */
  lemma {:induction false} PrimesInOrder(t: nat)
    requires t + 1 < 64
    ensures Prime(0) == 2 && NextPrime(Prime(t), Prime(t + 1))
  {
    hide Sieved, IsPrime, PrimeRow, NextSieved, Prime;
    var p, q := Prime(t), Prime(t + 1);
    if t < 32 { ListedLow(t); } else { ListedHigh(t); }
    NextSievedMeans(p, q);
    SievedIsPrime(q);
    SievedIsPrime(p);
    forall n: nat | p < n < q ensures !IsPrime(n) { SievedIsPrime(n); }
    FirstPrime();
    if t > 0 {
      if t <= 32 { ListedLow(t - 1); } else { ListedHigh(t - 1); }
      NextSievedMeans(Prime(t - 1), p);
    }
  }

  lemma FirstPrime()
    ensures Prime(0) == 2 && Sieved(2)
  {
  }

  // ------------------------------------------------------- the constants

  /** `k` is the first 32 bits of the fractional part of the cube root of `q`, whose whole part is `c`. */
  predicate CubeRoot(q: nat, c: nat, k: nat) {
    var x := c * 0x1_0000_0000 + k;
    k < 0x1_0000_0000 && x * x * x <= q * 0x1_0000_0000_0000_0000_0000_0000 < (x + 1) * (x + 1) * (x + 1)
  }

  predicate SquareRoot(q: nat, c: nat, k: nat) {
    var x := c * 0x1_0000_0000 + k;
    k < 0x1_0000_0000 && x * x <= q * 0x1_0000_0000_0000_0000 < (x + 1) * (x + 1)
  }

  function WholeRoot(q: nat): nat {
    if q < 8 then 1 else if q < 27 then 2 else if q < 64 then 3 else if q < 125 then 4 else if q < 216 then 5 else 6
  }

  predicate FromRoot(r: nat, i: nat)
    requires r < 8 && i < 8
  {
    CubeRoot(PrimeRow(r)[i], WholeRoot(PrimeRow(r)[i]), KRow(r)[i] as nat)
  }

  lemma Constants0() ensures FromRoot(0, 0) && FromRoot(0, 1) && FromRoot(0, 2) && FromRoot(0, 3) {}
  lemma Constants1() ensures FromRoot(0, 4) && FromRoot(0, 5) && FromRoot(0, 6) && FromRoot(0, 7) {}
  lemma Constants2() ensures FromRoot(1, 0) && FromRoot(1, 1) && FromRoot(1, 2) && FromRoot(1, 3) {}
  lemma Constants3() ensures FromRoot(1, 4) && FromRoot(1, 5) && FromRoot(1, 6) && FromRoot(1, 7) {}
  lemma Constants4() ensures FromRoot(2, 0) && FromRoot(2, 1) && FromRoot(2, 2) && FromRoot(2, 3) {}
  lemma Constants5() ensures FromRoot(2, 4) && FromRoot(2, 5) && FromRoot(2, 6) && FromRoot(2, 7) {}
  lemma Constants6() ensures FromRoot(3, 0) && FromRoot(3, 1) && FromRoot(3, 2) && FromRoot(3, 3) {}
  lemma Constants7() ensures FromRoot(3, 4) && FromRoot(3, 5) && FromRoot(3, 6) && FromRoot(3, 7) {}
  lemma Constants8() ensures FromRoot(4, 0) && FromRoot(4, 1) && FromRoot(4, 2) && FromRoot(4, 3) {}
  lemma Constants9() ensures FromRoot(4, 4) && FromRoot(4, 5) && FromRoot(4, 6) && FromRoot(4, 7) {}
  lemma Constants10() ensures FromRoot(5, 0) && FromRoot(5, 1) && FromRoot(5, 2) && FromRoot(5, 3) {}
  lemma Constants11() ensures FromRoot(5, 4) && FromRoot(5, 5) && FromRoot(5, 6) && FromRoot(5, 7) {}
  lemma Constants12() ensures FromRoot(6, 0) && FromRoot(6, 1) && FromRoot(6, 2) && FromRoot(6, 3) {}
  lemma Constants13() ensures FromRoot(6, 4) && FromRoot(6, 5) && FromRoot(6, 6) && FromRoot(6, 7) {}
  lemma Constants14() ensures FromRoot(7, 0) && FromRoot(7, 1) && FromRoot(7, 2) && FromRoot(7, 3) {}
  lemma Constants15() ensures FromRoot(7, 4) && FromRoot(7, 5) && FromRoot(7, 6) && FromRoot(7, 7) {}

  lemma KAt(r: nat, i: nat)
    requires r < 8 && i < 8
    ensures K()[8 * r + i] == KRow(r)[i]
  {
    hide KRow;
  }

  /** Section 4.2.2 of FIPS 180-4: the t-th constant is the first 32 bits of the fractional part of the cube root of the
      t-th prime. */
  lemma ConstantsAreCubeRoots(t: nat) returns (c: nat)
    requires t < 64
    ensures CubeRoot(Prime(t), c, K()[t] as nat)
  {
    hide CubeRoot, PrimeRow, KRow, K, WholeRoot;
    Constants0(); Constants1(); Constants2(); Constants3(); Constants4(); Constants5(); Constants6(); Constants7();
    Constants8(); Constants9(); Constants10(); Constants11(); Constants12(); Constants13(); Constants14(); Constants15();
    KAt(t / 8, t % 8);
    assert FromRoot(t / 8, t % 8);
    c := WholeRoot(Prime(t));
  }

  /** Section 5.3.3: the initial state likewise from the square roots of the first eight primes. */
  lemma InitialIsSquareRoots(i: nat) returns (c: nat)
    requires i < 8
    ensures SquareRoot(Prime(i), c, Initial()[i] as nat)
  {
    c := if i < 2 then 1 else if i < 4 then 2 else if i < 6 then 3 else 4;
    InitialRoots();
    hide SquareRoot, Initial, PrimeRow;
  }

  lemma InitialRoots()
    ensures SquareRoot(Prime(0), 1, Initial()[0] as nat) && SquareRoot(Prime(1), 1, Initial()[1] as nat)
    ensures SquareRoot(Prime(2), 2, Initial()[2] as nat) && SquareRoot(Prime(3), 2, Initial()[3] as nat)
    ensures SquareRoot(Prime(4), 3, Initial()[4] as nat) && SquareRoot(Prime(5), 3, Initial()[5] as nat)
    ensures SquareRoot(Prime(6), 4, Initial()[6] as nat) && SquareRoot(Prime(7), 4, Initial()[7] as nat)
  {
  }

  // ------------------------------------------------------- the functions, bit by bit

  lemma OrBit(x: Word, y: Word, i: Word)
    requires i < 32
    ensures ((x | y) >> i) & 1 == ((x >> i) & 1) | ((y >> i) & 1)
  {
  }

  lemma RightBit(x: Word, n: Word, i: Word)
    requires n < 32 && i < 32
    ensures ((x >> n) >> i) & 1 == if i + n < 32 then (x >> (i + n)) & 1 else 0
  {
  }

  lemma LeftBit(x: Word, n: Word, i: Word)
    requires n < 32 && i < 32
    ensures ((x << n) >> i) & 1 == if i >= n then (x >> (i - n)) & 1 else 0
  {
  }

  /** Bit i of a word rotated right by n is bit i + n, counted around the word. */
  lemma RotrBits(x: Word, n: Word, i: Word)
    requires 0 < n < 32 && i < 32
    ensures (Rotr(x, n) >> i) & 1 == if i + n < 32 then (x >> (i + n)) & 1 else (x >> (i + n - 32)) & 1
  {
    OrBit(x >> n, x << (32 - n), i);
    RightBit(x, n, i);
    LeftBit(x, 32 - n, i);
  }

  /** `Ch` is y where x has ones and z where it has zeros. */
  lemma ChBits(x: Word, y: Word, z: Word)
    ensures (Ch(x, y, z) ^ y) & x == 0 && (Ch(x, y, z) ^ z) & !x == 0
  {
  }

  /** `Maj` agrees with any two that agree. */
  lemma MajBits(x: Word, y: Word, z: Word, i: Word)
    requires i < 32
    ensures var a, b, c, m := (x >> i) & 1, (y >> i) & 1, (z >> i) & 1, (Maj(x, y, z) >> i) & 1;
      (a == b ==> m == a) && (a == c ==> m == a) && (b == c ==> m == b)
  {
  }

  lemma XorBits(x: Word, y: Word, z: Word, i: Word)
    requires i < 32
    ensures ((x ^ y ^ z) >> i) & 1 == ((x >> i) & 1) ^ ((y >> i) & 1) ^ ((z >> i) & 1)
  {
  }

  /** Bit i of x, counted around the word. */
  function Around(x: Word, i: Word): Word
    requires i < 64
  {
    if i < 32 then (x >> i) & 1 else (x >> (i - 32)) & 1
  }

  /** Bit i of x, zero beyond its end. */
  function Above(x: Word, i: Word): Word
    requires i < 64
  {
    if i < 32 then (x >> i) & 1 else 0
  }

  lemma RotrAround(x: Word, n: Word, i: Word)
    requires 0 < n < 32 && i < 32
    ensures i + n < 64 && (Rotr(x, n) >> i) & 1 == Around(x, i + n)
  {
    hide Rotr;
    RotrBits(x, n, i);
  }

  lemma ShiftAbove(x: Word, n: Word, i: Word)
    requires n < 32 && i < 32
    ensures i + n < 64 && ((x >> n) >> i) & 1 == Above(x, i + n)
  {
    RightBit(x, n, i);
  }

  /** Section 4.1.2: each bit is the parity of three others, or of two where the shift has run out. */
  lemma BigSigma0Bits(x: Word, i: Word)
    requires i < 32
    ensures (BigSigma0(x) >> i) & 1 == Around(x, i + 2) ^ Around(x, i + 13) ^ Around(x, i + 22)
  {
    hide Rotr, Around;
    RotrAround(x, 2, i); RotrAround(x, 13, i); RotrAround(x, 22, i);
    XorBits(Rotr(x, 2), Rotr(x, 13), Rotr(x, 22), i);
  }

  lemma BigSigma1Bits(x: Word, i: Word)
    requires i < 32
    ensures (BigSigma1(x) >> i) & 1 == Around(x, i + 6) ^ Around(x, i + 11) ^ Around(x, i + 25)
  {
    hide Rotr, Around;
    RotrAround(x, 6, i); RotrAround(x, 11, i); RotrAround(x, 25, i);
    XorBits(Rotr(x, 6), Rotr(x, 11), Rotr(x, 25), i);
  }

  lemma SmallSigma0Bits(x: Word, i: Word)
    requires i < 32
    ensures (SmallSigma0(x) >> i) & 1 == Around(x, i + 7) ^ Around(x, i + 18) ^ Above(x, i + 3)
  {
    hide Rotr, Around, Above;
    RotrAround(x, 7, i); RotrAround(x, 18, i); ShiftAbove(x, 3, i);
    XorBits(Rotr(x, 7), Rotr(x, 18), x >> 3, i);
  }

  lemma SmallSigma1Bits(x: Word, i: Word)
    requires i < 32
    ensures (SmallSigma1(x) >> i) & 1 == Around(x, i + 17) ^ Around(x, i + 19) ^ Above(x, i + 10)
  {
    hide Rotr, Around, Above;
    RotrAround(x, 17, i); RotrAround(x, 19, i); ShiftAbove(x, 10, i);
    XorBits(Rotr(x, 17), Rotr(x, 19), x >> 10, i);
  }

  /** A word is the number its four bytes spell, most significant first, and they are read back from it. */
  lemma WordBytes(a: Octet, b: Octet, c: Octet, d: Octet)
    ensures BigEndianWord(a, b, c, d) == a as Word * 0x100_0000 + b as Word * 0x1_0000 + c as Word * 0x100 + d as Word
    ensures var w := BigEndianWord(a, b, c, d);
      WordByte(w, 0) == a && WordByte(w, 1) == b && WordByte(w, 2) == c && WordByte(w, 3) == d
  {
  }

  /** The digest spells the eight words. */
  lemma DigestWords(s: State, j: nat)
    requires j < 8
    ensures var d := Serialise(s); BigEndianWord(d[4 * j], d[4 * j + 1], d[4 * j + 2], d[4 * j + 3]) == s[j]
  {
    hide WordByte, BigEndianWord;
    BytesOfWord(s[j]);
  }

  lemma BytesOfWord(w: Word)
    ensures BigEndianWord(WordByte(w, 0), WordByte(w, 1), WordByte(w, 2), WordByte(w, 3)) == w
  {
  }

  /** Section 2 of RFC 2104: for the two 64-byte blocks that differ from the key, hashed first when longer than a block and
      filled up with zeros, by 0x36 and 0x5c in every byte. */
  lemma HmacExactly(key: seq<Octet>, message: seq<Octet>, inner: seq<Octet>, outer: seq<Octet>)
    requires |inner| == 64 && |outer| == 64
    requires var k := if |key| > 64 then Hash(key) else key;
      forall i :: 0 <= i < 64 ==>
        inner[i] ^ 0x36 == (if i < |k| then k[i] else 0) && outer[i] ^ 0x5c == (if i < |k| then k[i] else 0)
    ensures Hmac(key, message) == Hash(outer + Hash(inner + message))
  {
    hide Hash;
    var block := BlockKey(key);
    forall i | 0 <= i < 64 ensures inner[i] == XorAll(block, 0x36)[i] && outer[i] == XorAll(block, 0x5c)[i] {
      XorTwice(inner[i], 0x36, block[i]);
      XorTwice(outer[i], 0x5c, block[i]);
    }
    assert inner == XorAll(block, 0x36) && outer == XorAll(block, 0x5c);
  }

  lemma XorTwice(x: Octet, pad: Octet, k: Octet)
    ensures x ^ pad == k <==> x == k ^ pad
  {
  }

  // ------------------------------------------------------- padding

  lemma {:induction false} LEAt(n: nat, v: nat, k: nat)
    requires k < n
    ensures Numbers.LE(n, v)[k] == (v / Numbers.Pow256(k)) % 256
    decreases n
  {
    Numbers.LEAppend(n - 1, v);
    if k < n - 1 { LEAt(n - 1, v, k); }
  }

  lemma Powers()
    ensures Numbers.Pow256(0) == 1 && Numbers.Pow256(1) == 0x100 && Numbers.Pow256(2) == 0x1_0000 && Numbers.Pow256(3) == 0x100_0000
    ensures Numbers.Pow256(4) == 0x1_0000_0000 && Numbers.Pow256(5) == 0x100_0000_0000
    ensures Numbers.Pow256(6) == 0x1_0000_0000_0000 && Numbers.Pow256(7) == 0x100_0000_0000_0000
    ensures Numbers.Pow256(8) == 0x1_0000_0000_0000_0000
  {
  }

  lemma LengthAt(bits: nat, k: nat)
    requires k < 8
    ensures Length64(bits)[7 - k] == ByteOf(bits, Numbers.Pow256(k))
  {
    hide ByteOf, Numbers.Pow256;
    Powers();
    match k
    case 0 => case 1 => case 2 => case 3 => case 4 => case 5 => case 6 => case _ =>
  }

  lemma ByteIs(v: nat, shift: nat, digit: nat)
    requires shift > 0 && digit == (v / shift) % 256
    ensures ByteOf(v, shift) == digit as Octet
  {
  }

  /** The length field is the little-endian number read backwards. */
  lemma LengthBytes(bits: nat, k: nat)
    requires k < 8
    ensures Length64(bits)[7 - k] == Numbers.LE(8, bits)[k] as Octet
  {
    hide Numbers.Pow256, Numbers.LE, ByteOf, Length64;
    LengthAt(bits, k);
    LEAt(8, bits, k);
    ByteIs(bits, Numbers.Pow256(k), Numbers.LE(8, bits)[k]);
  }

  /** Section 5.1.1: the message, a one bit, the fewest zeros that complete a block, and the length in bits as eight bytes
      that spell it, most significant first. */
  lemma PaddedExactly(message: seq<Octet>)
    ensures var m, n := Padded(message), |message|;
      |m| % 64 == 0 && n + 9 <= |m| < n + 73 && m[..n] == message && m[n] == 0x80 &&
      (forall i :: n < i < |m| - 8 ==> m[i] == 0) &&
      (forall k :: 0 <= k < 8 ==> m[|m| - 1 - k] == Numbers.LE(8, 8 * n)[k] as Octet) &&
      (8 * n < 0x1_0000_0000_0000_0000 ==> Numbers.FromLE(Numbers.LE(8, 8 * n)) == 8 * n)
  {
    hide PadZeros, Length64, Numbers.Pow256, Numbers.LE, Numbers.FromLE;
    var m, n := Padded(message), |message|;
    var l := Length64(8 * n);
    assert m[|m| - 8..] == l;
    forall k | 0 <= k < 8 ensures m[|m| - 1 - k] == Numbers.LE(8, 8 * n)[k] as Octet {
      LengthBytes(8 * n, k);
      assert m[|m| - 1 - k] == l[7 - k];
    }
    Powers();
    if 8 * n < 0x1_0000_0000_0000_0000 { Numbers.LEInverse(8, 8 * n); }
  }

  // ------------------------------------------------------- a known answer

  /** The schedule of the padded message "abc", eight words a row. */
  function W0(): (w: seq<Word>) ensures |w| == 8 {
    [0x61626380, 0x00000000, 0x00000000, 0x00000000, 0x00000000, 0x00000000, 0x00000000, 0x00000000]
  }
  function W1(): (w: seq<Word>) ensures |w| == 8 {
    [0x00000000, 0x00000000, 0x00000000, 0x00000000, 0x00000000, 0x00000000, 0x00000000, 0x00000018]
  }
  function W2(): (w: seq<Word>) ensures |w| == 8 {
    [0x61626380, 0x000f0000, 0x7da86405, 0x600003c6, 0x3e9d7b78, 0x0183fc00, 0x12dcbfdb, 0xe2e2c38e]
  }
  function W3(): (w: seq<Word>) ensures |w| == 8 {
    [0xc8215c1a, 0xb73679a2, 0xe5bc3909, 0x32663c5b, 0x9d209d67, 0xec8726cb, 0x702138a4, 0xd3b7973b]
  }
  function W4(): (w: seq<Word>) ensures |w| == 8 {
    [0x93f5997f, 0x3b68ba73, 0xaff4ffc1, 0xf10a5c62, 0x0a8b3996, 0x72af830a, 0x9409e33e, 0x24641522]
  }
  function W5(): (w: seq<Word>) ensures |w| == 8 {
    [0x9f47bf94, 0xf0a64f5a, 0x3e246a79, 0x27333ba3, 0x0c4763f2, 0x840abf27, 0x7a290d5d, 0x065c43da]
  }
  function W6(): (w: seq<Word>) ensures |w| == 8 {
    [0xfb3e89cb, 0xcc7617db, 0xb9e66c34, 0xa9993667, 0x84badedd, 0xc21462bc, 0x1487472c, 0xb20f7a99]
  }
  function W7(): (w: seq<Word>) ensures |w| == 8 {
    [0xef57b9cd, 0xebe6b238, 0x9fe3095e, 0x78bc8d4b, 0xa43fcf15, 0x668b2ff8, 0xeeaba2cc, 0x12b1edeb]
  }

  /** The working variables after every eight rounds. */
  function V0(): Vars { Vars(0x6a09e667, 0xbb67ae85, 0x3c6ef372, 0xa54ff53a, 0x510e527f, 0x9b05688c, 0x1f83d9ab, 0x5be0cd19) }
  function V1(): Vars { Vars(0x85a07b5f, 0xe5030380, 0x2b4209f5, 0x04409a6a, 0x0c657a79, 0x9b27a401, 0x714260ad, 0x43ada245) }
  function V2(): Vars { Vars(0xb0fa238e, 0xc0645fde, 0xd932eb16, 0x87912990, 0x07590dcd, 0x0b92f20c, 0x745a48de, 0x1e578218) }
  function V3(): Vars { Vars(0xc5d53d8d, 0xa7a3623f, 0xc2606d6d, 0x9dc68b63, 0xaa47c347, 0x49f5114a, 0xe1257970, 0x8ada8930) }
  function V4(): Vars { Vars(0x73b33bf5, 0xea992a22, 0xa0060b30, 0x363482c9, 0xba591112, 0x0109ab3a, 0xade79437, 0x6112a3b7) }
  function V5(): Vars { Vars(0x79ea687a, 0x6dc57a8a, 0x34df1604, 0x41a65cb1, 0x1efbc0a0, 0xf0781bc8, 0xa507a53d, 0x0772a26b) }
  function V6(): Vars { Vars(0x4172328d, 0xa14c14b0, 0x72ab4b91, 0x26628815, 0xfecf0bc6, 0xd57b94a9, 0xb7755da1, 0xa80f11f0) }
  function V7(): Vars { Vars(0x38cc9913, 0x3ec45cdb, 0xf5702fdb, 0x101fd28f, 0x54cb266b, 0xe50e1b4f, 0x9f4787c3, 0x529e7d00) }
  function V8(): Vars { Vars(0x506e3058, 0xd39a2165, 0x04d24d6c, 0xb85e2ce9, 0x5ef50f24, 0xfb121210, 0x948d25b6, 0x961f4894) }

  /** Eight rounds. */
  function Octave(v: Vars, k: seq<Word>, w: seq<Word>): Vars
    requires |k| == 8 && |w| == 8
  {
    var v4 := Round(Round(Round(Round(v, k[0], w[0]), k[1], w[1]), k[2], w[2]), k[3], w[3]);
    Round(Round(Round(Round(v4, k[4], w[4]), k[5], w[5]), k[6], w[6]), k[7], w[7])
  }

  /** Eight words of a schedule from the sixteen before them. */
  function NextRow(a: seq<Word>, b: seq<Word>): (c: seq<Word>)
    requires |a| == 8 && |b| == 8
    ensures |c| == 8
  {
    var c0, c1 := NextWord(b[6], b[1], a[1], a[0]), NextWord(b[7], b[2], a[2], a[1]);
    var c2, c3 := NextWord(c0, b[3], a[3], a[2]), NextWord(c1, b[4], a[4], a[3]);
    var c4, c5 := NextWord(c2, b[5], a[5], a[4]), NextWord(c3, b[6], a[6], a[5]);
    var c6, c7 := NextWord(c4, b[7], a[7], a[6]), NextWord(c5, c0, b[0], a[7]);
    [c0, c1, c2, c3, c4, c5, c6, c7]
  }

  lemma Row2() ensures NextRow(W0(), W1()) == W2() {}
  lemma Row3() ensures NextRow(W1(), W2()) == W3() {}
  lemma Row4() ensures NextRow(W2(), W3()) == W4() {}
  lemma Row5() ensures NextRow(W3(), W4()) == W5() {}
  lemma Row6() ensures NextRow(W4(), W5()) == W6() {}
  lemma Row7() ensures NextRow(W5(), W6()) == W7() {}

  lemma Octave0() ensures Octave(V0(), KRow(0), W0()) == V1() {}
  lemma Octave1() ensures Octave(V1(), KRow(1), W1()) == V2() {}
  lemma Octave2() ensures Octave(V2(), KRow(2), W2()) == V3() {}
  lemma Octave3() ensures Octave(V3(), KRow(3), W3()) == V4() {}
  lemma Octave4() ensures Octave(V4(), KRow(4), W4()) == V5() {}
  lemma Octave5() ensures Octave(V5(), KRow(5), W5()) == V6() {}
  lemma Octave6() ensures Octave(V6(), KRow(6), W6()) == V7() {}
  lemma Octave7() ensures Octave(V7(), KRow(7), W7()) == V8() {}

  ghost predicate HasRow(chunk: Chunk, t: nat, w: seq<Word>)
    requires |w| == 8
  {
    Schedule(chunk, t) == w[0] && Schedule(chunk, t + 1) == w[1] && Schedule(chunk, t + 2) == w[2] && Schedule(chunk, t + 3) == w[3] &&
    Schedule(chunk, t + 4) == w[4] && Schedule(chunk, t + 5) == w[5] && Schedule(chunk, t + 6) == w[6] && Schedule(chunk, t + 7) == w[7]
  }

  lemma RowFollows(chunk: Chunk, t: nat, a: seq<Word>, b: seq<Word>)
    requires |a| == 8 && |b| == 8 && HasRow(chunk, t, a) && HasRow(chunk, t + 8, b)
    ensures HasRow(chunk, t + 16, NextRow(a, b))
  {
    hide NextWord, Schedule;
    ScheduleStep(chunk, t + 16); ScheduleStep(chunk, t + 17); ScheduleStep(chunk, t + 18); ScheduleStep(chunk, t + 19);
    ScheduleStep(chunk, t + 20); ScheduleStep(chunk, t + 21); ScheduleStep(chunk, t + 22); ScheduleStep(chunk, t + 23);
  }

  lemma ScheduleStep(chunk: Chunk, t: nat)
    requires t >= 16
    ensures Schedule(chunk, t) ==
      NextWord(Schedule(chunk, t - 2), Schedule(chunk, t - 7), Schedule(chunk, t - 15), Schedule(chunk, t - 16))
  {
    hide NextWord;
  }

  lemma RoundStep(start: Vars, chunk: Chunk, t: nat)
    requires t < 64
    ensures Rounds(start, chunk, t + 1) == Round(Rounds(start, chunk, t), K()[t], Schedule(chunk, t))
  {
    hide Round, K, Schedule;
  }

  lemma FourFollow(start: Vars, chunk: Chunk, t: nat)
    requires t + 4 <= 64
    ensures Rounds(start, chunk, t + 4) ==
      Round(Round(Round(Round(Rounds(start, chunk, t), K()[t], Schedule(chunk, t)), K()[t + 1], Schedule(chunk, t + 1)),
                  K()[t + 2], Schedule(chunk, t + 2)), K()[t + 3], Schedule(chunk, t + 3))
  {
    hide Round, Schedule, K, Rounds;
    RoundStep(start, chunk, t);
    RoundStep(start, chunk, t + 1);
    RoundStep(start, chunk, t + 2);
    RoundStep(start, chunk, t + 3);
  }

  lemma EightFollow(start: Vars, chunk: Chunk, r: nat, w: seq<Word>)
    requires r < 8 && |w| == 8 && HasRow(chunk, 8 * r, w)
    ensures Rounds(start, chunk, 8 * r + 8) == Octave(Rounds(start, chunk, 8 * r), KRow(r), w)
  {
    hide Round, Schedule, K, KRow, Rounds, HasRow;
    HasRowMeans(chunk, 8 * r, w);
    KAt(r, 0); KAt(r, 1); KAt(r, 2); KAt(r, 3); KAt(r, 4); KAt(r, 5); KAt(r, 6); KAt(r, 7);
    FourFollow(start, chunk, 8 * r);
    FourFollow(start, chunk, 8 * r + 4);
  }

  lemma HasRowMeans(chunk: Chunk, t: nat, w: seq<Word>)
    requires |w| == 8 && HasRow(chunk, t, w)
    ensures Schedule(chunk, t) == w[0] && Schedule(chunk, t + 1) == w[1] && Schedule(chunk, t + 2) == w[2] && Schedule(chunk, t + 3) == w[3]
    ensures Schedule(chunk, t + 4) == w[4] && Schedule(chunk, t + 5) == w[5] && Schedule(chunk, t + 6) == w[6] && Schedule(chunk, t + 7) == w[7]
  {
    hide Schedule;
  }

  /** "abc" and its padding. */
  function Abc(): Chunk { [0x61, 0x62, 0x63] + [0x80] + Zeros(52) + [0, 0, 0, 0, 0, 0, 0, 24] }

  lemma AbcIsPadded()
    ensures Padded([0x61, 0x62, 0x63]) == Abc()
  {
    hide Zeros, Length64, PadZeros;
    AbcPadding();
  }

  lemma AbcPadding()
    ensures PadZeros(3) == 52 && Length64(24) == [0, 0, 0, 0, 0, 0, 0, 24]
  {
    hide ByteOf;
    ByteIs(24, 1, 24); ByteIs(24, 0x100, 0); ByteIs(24, 0x1_0000, 0); ByteIs(24, 0x100_0000, 0);
    ByteIs(24, 0x1_0000_0000, 0); ByteIs(24, 0x100_0000_0000, 0); ByteIs(24, 0x1_0000_0000_0000, 0); ByteIs(24, 0x100_0000_0000_0000, 0);
  }

  lemma AbcStart()
    ensures HasRow(Abc(), 0, W0()) && HasRow(Abc(), 8, W1())
  {
    hide Schedule, Abc, BigEndianWord;
    FirstWords(Abc());
    AbcBytes();
    AbcWords();
  }

  lemma AbcWords()
    ensures BigEndianWord(0x61, 0x62, 0x63, 0x80) == W0()[0] && BigEndianWord(0, 0, 0, 24) == W1()[7]
    ensures BigEndianWord(0, 0, 0, 0) == 0
  {
  }

  lemma FirstWords(c: Chunk)
    ensures forall t :: 0 <= t < 16 ==> Schedule(c, t) == BigEndianWord(c[4 * t], c[4 * t + 1], c[4 * t + 2], c[4 * t + 3])
  {
    hide BigEndianWord, NextWord;
  }

  lemma AbcBytes()
    ensures var c := Abc(); c[0] == 0x61 && c[1] == 0x62 && c[2] == 0x63 && c[3] == 0x80 && c[63] == 24
    ensures forall i :: 4 <= i < 63 ==> Abc()[i] == 0
  {
  }

  lemma AbcRounds()
    ensures Rounds(Load(Initial()), Abc(), 64) == V8()
  {
    hide *;
    AbcStart();
    AbcBegins();
    var v := Load(Initial());
    EightFollow(v, Abc(), 0, W0()); Octave0();
    EightFollow(v, Abc(), 1, W1()); Octave1();
    RowFollows(Abc(), 0, W0(), W1()); Row2();
    EightFollow(v, Abc(), 2, W2()); Octave2();
    RowFollows(Abc(), 8, W1(), W2()); Row3();
    EightFollow(v, Abc(), 3, W3()); Octave3();
    RowFollows(Abc(), 16, W2(), W3()); Row4();
    EightFollow(v, Abc(), 4, W4()); Octave4();
    RowFollows(Abc(), 24, W3(), W4()); Row5();
    EightFollow(v, Abc(), 5, W5()); Octave5();
    RowFollows(Abc(), 32, W4(), W5()); Row6();
    EightFollow(v, Abc(), 6, W6()); Octave6();
    RowFollows(Abc(), 40, W5(), W6()); Row7();
    EightFollow(v, Abc(), 7, W7()); Octave7();
  }

  lemma AbcBegins()
    ensures Rounds(Load(Initial()), Abc(), 0) == V0()
  {
    hide Abc;
  }

  /** The example of FIPS 180-4: the hash of "abc". */
  lemma KnownAnswer()
    ensures Hash([0x61, 0x62, 0x63]) ==
      [0xba, 0x78, 0x16, 0xbf, 0x8f, 0x01, 0xcf, 0xea, 0x41, 0x41, 0x40, 0xde, 0x5d, 0xae, 0x22, 0x23,
       0xb0, 0x03, 0x61, 0xa3, 0x96, 0x17, 0x7a, 0x9c, 0xb4, 0x10, 0xff, 0x61, 0xf2, 0x00, 0x15, 0xad]
  {
    hide *;
    AbcIsPadded();
    AbcRounds();
    OneBlock(Abc());
    AbcState();
    AbcDigest();
    HashIs([0x61, 0x62, 0x63]);
  }

  lemma HashIs(message: seq<Octet>)
    ensures Hash(message) == Serialise(Blocks(Padded(message)))
  {
  }

  function AbcFinal(): State {
    [0xba7816bf, 0x8f01cfea, 0x414140de, 0x5dae2223, 0xb00361a3, 0x96177a9c, 0xb410ff61, 0xf20015ad]
  }

  lemma AbcState()
    ensures AddTo(Initial(), V8()) == AbcFinal()
  {
  }

  lemma AbcSpelled()
    ensures BigEndianWord(0xba, 0x78, 0x16, 0xbf) == AbcFinal()[0]
    ensures BigEndianWord(0x8f, 0x01, 0xcf, 0xea) == AbcFinal()[1]
    ensures BigEndianWord(0x41, 0x41, 0x40, 0xde) == AbcFinal()[2]
    ensures BigEndianWord(0x5d, 0xae, 0x22, 0x23) == AbcFinal()[3]
    ensures BigEndianWord(0xb0, 0x03, 0x61, 0xa3) == AbcFinal()[4]
    ensures BigEndianWord(0x96, 0x17, 0x7a, 0x9c) == AbcFinal()[5]
    ensures BigEndianWord(0xb4, 0x10, 0xff, 0x61) == AbcFinal()[6]
    ensures BigEndianWord(0xf2, 0x00, 0x15, 0xad) == AbcFinal()[7]
  {
  }

  lemma AbcDigest()
    ensures Serialise(AbcFinal()) ==
      [0xba, 0x78, 0x16, 0xbf, 0x8f, 0x01, 0xcf, 0xea, 0x41, 0x41, 0x40, 0xde, 0x5d, 0xae, 0x22, 0x23,
       0xb0, 0x03, 0x61, 0xa3, 0x96, 0x17, 0x7a, 0x9c, 0xb4, 0x10, 0xff, 0x61, 0xf2, 0x00, 0x15, 0xad]
  {
    hide WordByte, BigEndianWord, AbcFinal;
    AbcSpelled();
    WordBytes(0xba, 0x78, 0x16, 0xbf);
    WordBytes(0x8f, 0x01, 0xcf, 0xea);
    WordBytes(0x41, 0x41, 0x40, 0xde);
    WordBytes(0x5d, 0xae, 0x22, 0x23);
    WordBytes(0xb0, 0x03, 0x61, 0xa3);
    WordBytes(0x96, 0x17, 0x7a, 0x9c);
    WordBytes(0xb4, 0x10, 0xff, 0x61);
    WordBytes(0xf2, 0x00, 0x15, 0xad);
  }

  lemma OneBlock(chunk: Chunk)
    ensures |chunk| % 64 == 0 && Blocks(chunk) == AddTo(Initial(), Rounds(Load(Initial()), chunk, 64))
  {
    hide Rounds, AddTo, Load, Initial;
    NoBlocks();
    var m: seq<Octet> := chunk;
    assert m[..|m| - 64] == [] && m[|m| - 64..] == m;
  }

  lemma NoBlocks()
    ensures Blocks([]) == Initial()
  {
    hide Compress, Initial;
  }
}
