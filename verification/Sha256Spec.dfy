/** SHA-256 as FIPS 180-4 defines it, on whole messages, and HMAC as RFC 2104 defines it. */
module Sha256Spec {
  type Word = bv32
  type Octet = bv8
  type State = s: seq<Word> | |s| == 8 witness seq(8, _ => 0)
  type Chunk = s: seq<Octet> | |s| == 64 witness seq(64, _ => 0)

  // ------------------------------------------------------- sections 3.2, 4.1.2 and 4.2.2

  function Rotr(x: Word, n: Word): Word
    requires 0 < n < 32
  {
    (x >> n) | (x << (32 - n))
  }

  function Ch(x: Word, y: Word, z: Word): Word { (x & y) ^ (!x & z) }

  function Maj(x: Word, y: Word, z: Word): Word { (x & y) ^ (x & z) ^ (y & z) }

  function BigSigma0(x: Word): Word { Rotr(x, 2) ^ Rotr(x, 13) ^ Rotr(x, 22) }

  function BigSigma1(x: Word): Word { Rotr(x, 6) ^ Rotr(x, 11) ^ Rotr(x, 25) }

  function SmallSigma0(x: Word): Word { Rotr(x, 7) ^ Rotr(x, 18) ^ (x >> 3) }

  function SmallSigma1(x: Word): Word { Rotr(x, 17) ^ Rotr(x, 19) ^ (x >> 10) }

  /** The constants, eight a row. */
  function KRow(r: nat): (k: seq<Word>)
    requires r < 8
    ensures |k| == 8
  {
    match r
    case 0 => [0x428a2f98, 0x71374491, 0xb5c0fbcf, 0xe9b5dba5, 0x3956c25b, 0x59f111f1, 0x923f82a4, 0xab1c5ed5]
    case 1 => [0xd807aa98, 0x12835b01, 0x243185be, 0x550c7dc3, 0x72be5d74, 0x80deb1fe, 0x9bdc06a7, 0xc19bf174]
    case 2 => [0xe49b69c1, 0xefbe4786, 0x0fc19dc6, 0x240ca1cc, 0x2de92c6f, 0x4a7484aa, 0x5cb0a9dc, 0x76f988da]
    case 3 => [0x983e5152, 0xa831c66d, 0xb00327c8, 0xbf597fc7, 0xc6e00bf3, 0xd5a79147, 0x06ca6351, 0x14292967]
    case 4 => [0x27b70a85, 0x2e1b2138, 0x4d2c6dfc, 0x53380d13, 0x650a7354, 0x766a0abb, 0x81c2c92e, 0x92722c85]
    case 5 => [0xa2bfe8a1, 0xa81a664b, 0xc24b8b70, 0xc76c51a3, 0xd192e819, 0xd6990624, 0xf40e3585, 0x106aa070]
    case 6 => [0x19a4c116, 0x1e376c08, 0x2748774c, 0x34b0bcb5, 0x391c0cb3, 0x4ed8aa4a, 0x5b9cca4f, 0x682e6ff3]
    case _ => [0x748f82ee, 0x78a5636f, 0x84c87814, 0x8cc70208, 0x90befffa, 0xa4506ceb, 0xbef9a3f7, 0xc67178f2]
  }

  function K(): (k: seq<Word>)
    ensures |k| == 64
  {
    KRow(0) + KRow(1) + KRow(2) + KRow(3) + KRow(4) + KRow(5) + KRow(6) + KRow(7)
  }

  /** Section 5.3.3. */
  function Initial(): State {
    [0x6a09e667, 0xbb67ae85, 0x3c6ef372, 0xa54ff53a, 0x510e527f, 0x9b05688c, 0x1f83d9ab, 0x5be0cd19]
  }

  // ------------------------------------------------------- section 5.1.1: padding

  function Zeros(n: nat): (z: seq<Octet>)
    ensures |z| == n && forall i :: 0 <= i < n ==> z[i] == 0
  {
    seq(n, _ => 0)
  }

  function ByteOf(v: nat, shift: nat): Octet
    requires shift > 0
  {
    ((v / shift) % 256) as bv8
  }

  /** A 64-bit length, most significant byte first. */
  function Length64(bits: nat): (l: seq<Octet>)
    ensures |l| == 8
  {
    [ByteOf(bits, 0x100_0000_0000_0000), ByteOf(bits, 0x1_0000_0000_0000), ByteOf(bits, 0x100_0000_0000), ByteOf(bits, 0x1_0000_0000),
     ByteOf(bits, 0x100_0000), ByteOf(bits, 0x1_0000), ByteOf(bits, 0x100), ByteOf(bits, 1)]
  }

  /** The least number of zero bytes that, after the byte 0x80, brings the length to 56 modulo 64. */
  function PadZeros(length: nat): (k: nat)
    ensures k < 64 && (length + 1 + k) % 64 == 56 && (length + 1 + k + 8) % 64 == 0
  {
    (119 - length % 64) % 64
  }

  function Padded(message: seq<Octet>): (m: seq<Octet>)
    ensures |m| % 64 == 0
  {
    hide Length64, PadZeros;
    message + [0x80] + Zeros(PadZeros(|message|)) + Length64(8 * |message|)
  }

  // ------------------------------------------------------- section 6.2.2: the hash computation

  function BigEndianWord(a: Octet, b: Octet, c: Octet, d: Octet): Word {
    ((a as bv32) << 24) | ((b as bv32) << 16) | ((c as bv32) << 8) | (d as bv32)
  }

  function NextWord(w2: Word, w7: Word, w15: Word, w16: Word): Word { SmallSigma1(w2) + w7 + SmallSigma0(w15) + w16 }

  ghost function Schedule(chunk: Chunk, t: nat): Word {
    if t < 16 then BigEndianWord(chunk[4 * t], chunk[4 * t + 1], chunk[4 * t + 2], chunk[4 * t + 3])
    else NextWord(Schedule(chunk, t - 2), Schedule(chunk, t - 7), Schedule(chunk, t - 15), Schedule(chunk, t - 16))
  }

  datatype Vars = Vars(a: Word, b: Word, c: Word, d: Word, e: Word, f: Word, g: Word, h: Word)

  function T1(v: Vars, k: Word, w: Word): Word { v.h + BigSigma1(v.e) + Ch(v.e, v.f, v.g) + k + w }

  function T2(v: Vars): Word { BigSigma0(v.a) + Maj(v.a, v.b, v.c) }

  function Plus(x: Word, y: Word): Word { x + y }

  function Round(v: Vars, k: Word, w: Word): Vars {
    var t1 := T1(v, k, w);
    Vars(Plus(t1, T2(v)), v.a, v.b, v.c, Plus(v.d, t1), v.e, v.f, v.g)
  }

  ghost function Rounds(start: Vars, chunk: Chunk, t: nat): Vars
    requires t <= 64
  {
    if t == 0 then start else Round(Rounds(start, chunk, t - 1), K()[t - 1], Schedule(chunk, t - 1))
  }

  function Load(s: State): Vars { Vars(s[0], s[1], s[2], s[3], s[4], s[5], s[6], s[7]) }

  function AddTo(s: State, v: Vars): State {
    [Plus(s[0], v.a), Plus(s[1], v.b), Plus(s[2], v.c), Plus(s[3], v.d), Plus(s[4], v.e), Plus(s[5], v.f), Plus(s[6], v.g), Plus(s[7], v.h)]
  }

  ghost function Compress(s: State, chunk: Chunk): State { AddTo(s, Rounds(Load(s), chunk, 64)) }

  /** The intermediate hash value after all 64-byte blocks of `m`. */
  ghost function Blocks(m: seq<Octet>): State
    requires |m| % 64 == 0
  {
    if m == [] then Initial() else Compress(Blocks(m[..|m| - 64]), m[|m| - 64..])
  }

  function ByteAt(w: Word, shift: Word): Octet
    requires shift <= 24
  {
    ((w >> shift) & 0xff) as bv8
  }

  /** The i-th byte of a word, most significant first. */
  function WordByte(w: Word, i: nat): Octet
    requires i < 4
  {
    ByteAt(w, if i == 0 then 24 else if i == 1 then 16 else if i == 2 then 8 else 0)
  }

  function Serialise(s: State): (d: seq<Octet>)
    ensures |d| == 32
  {
    seq(32, (k: nat) requires k < 32 => WordByte(s[k / 4], k % 4))
  }

  ghost function Hash(message: seq<Octet>): (d: seq<Octet>)
    ensures |d| == 32
  {
    Serialise(Blocks(Padded(message)))
  }

  // ------------------------------------------------------- section 2 of RFC 2104

  function XorAll(s: seq<Octet>, pad: Octet): (r: seq<Octet>)
    ensures |r| == |s|
  {
    seq(|s|, (i: nat) requires i < |s| => s[i] ^ pad)
  }

  /** The key hashed when longer than a block, then filled with zeros to 64 bytes. */
  ghost function BlockKey(key: seq<Octet>): (k: seq<Octet>)
    ensures |k| == 64
  {
    if |key| > 64 then Hash(key) + Zeros(32) else key + Zeros(64 - |key|)
  }

  ghost function Hmac(key: seq<Octet>, message: seq<Octet>): seq<Octet> {
    Hash(XorAll(BlockKey(key), 0x5c) + Hash(XorAll(BlockKey(key), 0x36) + message))
  }
}
