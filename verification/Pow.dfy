/** The proof-of-work engine: difficulty, header rules, fork choice order, sealing. */
module Pow {
  import opened Core
  import opened Numbers
  import opened Primitives
  import opened Ledger

  const SEAL_SIZE: nat := 8

  function HeaderHash(p: Params, h: BlockHeader): Hash256 { p.hash(EncodeHeader(h)) }

  // ------------------------------------------------------- difficulty

  function Pow2(n: nat): (r: nat)
    ensures r > 0
  {
    if n == 0 then 1 else 2 * Pow2(n - 1)
  }

  lemma {:induction false} Pow2Add(a: nat, b: nat)
    ensures Pow2(a + b) == Pow2(a) * Pow2(b)
  {
    if a > 0 {
      Pow2Add(a - 1, b);
      var x, y := Pow2(a - 1), Pow2(b);
      assert 2 * (x * y) == (2 * x) * y;
    }
  }

  lemma Pow2Monotone(a: nat, b: nat)
    requires a <= b
    ensures Pow2(a) <= Pow2(b)
  {
    Pow2Add(b - a, a);
    MulMonotone(1, Pow2(b - a), Pow2(a));
  }

  lemma {:induction false} Pow256IsPow2(n: nat)
    ensures Pow256(n) == Pow2(8 * n)
  {
    if n > 0 {
      Pow256IsPow2(n - 1);
      Pow2Add(8, 8 * (n - 1));
      assert Pow2(8) == 256;
    }
  }

  /** Zero bits above the highest set bit of a byte. */
  function ByteZeros(v: byte): (z: nat)
    ensures z <= 8
  {
    if v >= 128 then 0 else if v >= 64 then 1 else if v >= 32 then 2 else if v >= 16 then 3
    else if v >= 8 then 4 else if v >= 4 then 5 else if v >= 2 then 6 else if v >= 1 then 7 else 8
  }

  function LeadingZeros(b: Bytes): nat {
    if b == [] then 0 else if b[0] == 0 then 8 + LeadingZeros(b[1..]) else ByteZeros(b[0])
  }

  predicate MeetsDifficulty(p: Params, hash: Hash256) { LeadingZeros(hash) >= p.difficultyBits }

  lemma Pow2Small()
    ensures Pow2(0) == 1 && Pow2(1) == 2 && Pow2(2) == 4 && Pow2(3) == 8 && Pow2(4) == 16
    ensures Pow2(5) == 32 && Pow2(6) == 64 && Pow2(7) == 128 && Pow2(8) == 256
  {
  }

  lemma ByteZerosNumeric(v: byte, k: nat)
    requires k <= 8
    ensures ByteZeros(v) >= k <==> v < Pow2(8 - k)
  {
    Pow2Small();
    match k
    case 0 => case 1 => case 2 => case 3 => case 4 => case 5 => case 6 => case 7 => case 8 =>
  }

  /** A byte string starts with d zero bits exactly when its big-endian number is below 2^(bits - d). */
  lemma {:induction false} LeadingZerosNumeric(b: Bytes, d: nat)
    requires d <= 8 * |b|
    ensures LeadingZeros(b) >= d <==> BE(b) < Pow2(8 * |b| - d)
  {
    hide ByteZeros, Pow2;
    if b == [] {
      assert Pow2(0) == 1 by { Pow2Small(); }
    } else {
      var n := |b| - 1;
      var x: nat, rest, unit := b[0], BE(b[1..]), Pow256(n);
      Pow256IsPow2(n);
      assert BE(b) == x * unit + rest && rest < unit;
      if d <= 8 {
        assert Pow2(8 * |b| - d) == Pow2(8 - d) * unit by { Pow2Add(8 - d, 8 * n); assert 8 * |b| - d == 8 - d + 8 * n; }
        DigitOrder(x, Pow2(8 - d), unit, rest, 0);
        ByteZerosNumeric(b[0], d);
        ByteZerosNumeric(b[0], 8);
        assert Pow2(0) == 1 by { Pow2Small(); }
      } else {
        assert 8 * |b| - d == 8 * n - (d - 8);
        if x == 0 {
          LeadingZerosNumeric(b[1..], d - 8);
        } else {
          MulMonotone(1, x, unit);
          Pow2Monotone(8 * |b| - d, 8 * n);
          assert ByteZeros(b[0]) <= 8;
        }
      }
    }
  }

  /** For every difficulty up to 256 bits the check is a bound on the hash as a 256-bit big-endian integer. */
  lemma DifficultyIsNumericBound(p: Params, hash: Hash256)
    requires p.difficultyBits <= 256
    ensures MeetsDifficulty(p, hash) <==> BE(hash) < Pow2(256 - p.difficultyBits)
  {
    LeadingZerosNumeric(hash, p.difficultyBits);
  }

  /** `(value & mask) == 0` for a mask with the single bit 2^k is `(value / mask) % 2 == 0`. */
  method CheckDifficulty(p: Params, hash: Hash256) returns (ok: bool)
    ensures ok == MeetsDifficulty(p, hash)
  {
    var bits := 0;
    var i := 0;
    while i < |hash|
      invariant i <= |hash|
      invariant bits + LeadingZeros(hash[i..]) == LeadingZeros(hash)
    {
      var value := hash[i];
      assert hash[i..][1..] == hash[i + 1..];
      i := i + 1;
      if value == 0 {
        bits := bits + 8;
        continue;
      }
      var zeros := CountByteZeros(value);
      bits := bits + zeros;
      assert bits == LeadingZeros(hash);
      return bits >= p.difficultyBits;
    }
    return bits >= p.difficultyBits;
  }

  method CountByteZeros(value: byte) returns (zeros: nat)
    requires value != 0
    ensures zeros == ByteZeros(value)
  {
    zeros := 0;
    var mask := 0x80;
    Pow2Small();
    while mask != 0 && (value / mask) % 2 == 0
      invariant zeros <= 8 && value < Pow2(8 - zeros)
      invariant mask == if zeros == 8 then 0 else Pow2(7 - zeros)
      decreases mask
    {
      ShiftMask(zeros, value);
      mask := mask / 2;
      zeros := zeros + 1;
    }
    ByteZerosNumeric(value, zeros);
    if zeros < 8 { ByteZerosNumeric(value, zeros + 1); }
  }

  lemma ShiftMask(zeros: nat, value: byte)
    requires zeros < 8 && value < Pow2(8 - zeros) && (value / Pow2(7 - zeros)) % 2 == 0
    ensures value < Pow2(7 - zeros) && Pow2(7 - zeros) / 2 == if zeros == 7 then 0 else Pow2(6 - zeros)
  {
    Pow2Small();
    match zeros
    case 0 => case 1 => case 2 => case 3 => case 4 => case 5 => case 6 => case 7 =>
  }

  // ------------------------------------------------------- header rules

  predicate Follows(p: Params, h: BlockHeader, parent: BlockHeader) {
    h.height == Add64(parent.height, 1) &&
    h.timestamp > parent.timestamp &&
    |h.consensusSeal| == SEAL_SIZE &&
    MeetsDifficulty(p, HeaderHash(p, h))
  }

  /** writeNonce: the seal is resized to eight bytes, all of them overwritten. */
  function WithNonce(h: BlockHeader, nonce: nat): BlockHeader { h.(consensusSeal := LE(8, nonce)) }

  function Prepare(draft: BlockHeader, parent: BlockHeader): BlockHeader {
    WithNonce(if draft.timestamp <= parent.timestamp then draft.(timestamp := Add64(parent.timestamp, 1)) else draft, 0)
  }

  // ------------------------------------------------------- fork choice

  datatype Order = Less | Equal | Greater

  function Compare(p: Params, l: BlockHeader, r: BlockHeader): Order {
    if l.height < r.height then Less
    else if l.height > r.height then Greater
    else
      var lh, rh := HeaderHash(p, l), HeaderHash(p, r);
      if LexLess(rh, lh) then Less else if LexLess(lh, rh) then Greater else Equal
  }

  predicate Better(p: Params, l: BlockHeader, r: BlockHeader) { Compare(p, l, r) == Greater }

  /** The order is by height, then by the smaller hash as an integer; headers tie only with equal height and hash. */
  lemma CompareIsNumeric(p: Params, l: BlockHeader, r: BlockHeader)
    ensures var x, y := BE(HeaderHash(p, l)), BE(HeaderHash(p, r));
      Compare(p, l, r) == if l.height > r.height || (l.height == r.height && x < y) then Greater
                          else if l.height == r.height && x == y then Equal else Less
    ensures Compare(p, l, r) == Equal <==> l.height == r.height && HeaderHash(p, l) == HeaderHash(p, r)
  {
    var lh, rh := HeaderHash(p, l), HeaderHash(p, r);
    LexIsNumeric(lh, rh);
    LexIsNumeric(rh, lh);
    if BE(lh) == BE(rh) { BEInjective(lh, rh); }
  }

  lemma CompareTotalPreorder(p: Params, a: BlockHeader, b: BlockHeader, c: BlockHeader)
    ensures Compare(p, a, a) == Equal
    ensures Compare(p, a, b) == Less <==> Compare(p, b, a) == Greater
    ensures Compare(p, a, b) != Less && Compare(p, b, c) != Less ==> Compare(p, a, c) != Less
    ensures Compare(p, a, b) == Greater && Compare(p, b, c) != Less ==> Compare(p, a, c) == Greater
    ensures Compare(p, a, b) != Less && Compare(p, b, c) == Greater ==> Compare(p, a, c) == Greater
  {
    hide Compare, HeaderHash, BE;
    CompareIsNumeric(p, a, a);
    CompareIsNumeric(p, a, b);
    CompareIsNumeric(p, b, a);
    CompareIsNumeric(p, b, c);
    CompareIsNumeric(p, a, c);
  }

  /** `prepare` moves the timestamp to the least one that is not before the draft's and after the parent's, where there
      is one, zeroes the seal, and touches nothing else. */
  lemma PrepareExactly(draft: BlockHeader, parent: BlockHeader)
    ensures var h := Prepare(draft, parent);
      h.(timestamp := draft.timestamp, consensusSeal := draft.consensusSeal) == draft &&
      |h.consensusSeal| == 8 && FromLE(h.consensusSeal) == 0 &&
      (parent.timestamp + 1 < U64 ==>
        h.timestamp >= draft.timestamp && h.timestamp > parent.timestamp &&
        (h.timestamp == draft.timestamp || h.timestamp == parent.timestamp + 1))
  {
    assert Pow256(8) == U64;
    LEInverse(8, 0);
  }

  // ------------------------------------------------------- sealing

  datatype SealResult = Sealed(block: Block, nonce: u64) | Cancelled | Exhausted

  /** An eight-byte seal under which the draft meets the difficulty. */
  ghost predicate Solves(p: Params, draft: Block, s: Bytes) {
    |s| == 8 && MeetsDifficulty(p, p.hash(EncodeHeader(draft.header.(consensusSeal := s))))
  }

  /** No seal that spells, little-endian, a number below `n` solves the draft. */
  ghost predicate NoneBelow(p: Params, draft: Block, n: nat) {
    forall s: Bytes :: |s| == 8 && FromLE(s) < n ==> !Solves(p, draft, s)
  }

  lemma NothingBelow(p: Params, draft: Block)
    ensures NoneBelow(p, draft, 0)
  {
  }

  /** The seals are the eight bytes of the numbers below 2^64, so trying one number tries one seal. */
  lemma OneMore(p: Params, draft: Block, n: u64)
    ensures |LE(8, n)| == 8 && FromLE(LE(8, n)) == n
    ensures NoneBelow(p, draft, n + 1) <==> NoneBelow(p, draft, n) && !Solves(p, draft, LE(8, n))
  {
    hide LE, FromLE, Solves;
    assert Pow256(8) == U64 by { SealNumbers(); }
    LEInverse(8, n);
    forall s: Bytes | |s| == 8 && FromLE(s) == n ensures s == LE(8, n) { FromLEInverse(s); }
  }

  lemma SealNumbers()
    ensures Pow256(8) == U64
  {
  }

  lemma AllBelow(p: Params, draft: Block)
    ensures NoneBelow(p, draft, U64) <==> forall s: Bytes :: !Solves(p, draft, s)
  {
    hide FromLE, MeetsDifficulty, EncodeHeader;
    SealNumbers();
    forall s: Bytes | Solves(p, draft, s) ensures |s| == 8 && FromLE(s) < U64 {}
  }

  lemma SolvedHere(p: Params, draft: Block, n: u64)
    requires Solves(p, draft, LE(8, n))
    ensures forall m: nat :: m > n ==> !NoneBelow(p, draft, m)
  {
    hide LE, FromLE, Solves;
    OneMore(p, draft, n);
  }

  /** The nonce search: the seal found spells the least number that solves the draft, and nothing but the seal changes.
      `stopRequested(n)` is what the stop token answers before the n-th seal is tried. */
  method Seal(p: Params, draft: Block, stopRequested: nat -> bool) returns (result: SealResult)
    ensures result.Sealed? ==> var s := result.block.header.consensusSeal;
      result.block == draft.(header := draft.header.(consensusSeal := s)) && Solves(p, draft, s) &&
      FromLE(s) == result.nonce && NoneBelow(p, draft, result.nonce)
    ensures result.Exhausted? <==> (forall s: Bytes :: !Solves(p, draft, s)) && forall n: nat :: n < U64 ==> !stopRequested(n)
    ensures result.Cancelled? <==>
      exists n: nat :: n < U64 && stopRequested(n) && NoneBelow(p, draft, n) && forall m: nat :: m < n ==> !stopRequested(m)
  {
    hide LE, FromLE, MeetsDifficulty, EncodeHeader, NoneBelow;
    var nonce: nat := 0;
    NothingBelow(p, draft);
    while true
      invariant nonce < U64 && NoneBelow(p, draft, nonce)
      invariant forall n: nat :: n < nonce ==> !stopRequested(n)
      decreases U64 - nonce
    {
      OneMore(p, draft, nonce);
      if stopRequested(nonce) {
        return Cancelled;
      }
      var header := WithNonce(draft.header, nonce);
      var meets := CheckDifficulty(p, HeaderHash(p, header));
      if meets {
        assert Solves(p, draft, LE(8, nonce));
        SolvedHere(p, draft, nonce);
        return Sealed(draft.(header := header), nonce);
      }
      assert !Solves(p, draft, LE(8, nonce));
      if nonce == U64 - 1 {
        AllBelow(p, draft);
        return Exhausted;
      }
      nonce := nonce + 1;
    }
  }

  lemma SealedMeets(p: Params, draft: Block, block: Block, nonce: u64)
    requires var s := block.header.consensusSeal;
      block == draft.(header := draft.header.(consensusSeal := s)) && Solves(p, draft, s) && FromLE(s) == nonce
    ensures MeetsDifficulty(p, HeaderHash(p, block.header)) && block.header == WithNonce(draft.header, nonce)
    ensures |block.header.consensusSeal| == SEAL_SIZE
  {
    hide LE, FromLE, MeetsDifficulty, EncodeHeader;
    FromLEInverse(block.header.consensusSeal);
  }
}
