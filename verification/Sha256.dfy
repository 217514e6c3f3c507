/** The streaming hash object, proved to compute the standard's hash however the message is cut into updates. */
module Sha256 {
  import opened Sha256Spec

  const TWO64: nat := 0x1_0000_0000_0000_0000

  // ------------------------------------------------------- blocks and padding

  lemma BlocksAppend(m: seq<Octet>, chunk: Chunk)
    requires |m| % 64 == 0
    ensures (|m| + 64) % 64 == 0 && Blocks(m + chunk) == Compress(Blocks(m), chunk)
  {
    assert (m + chunk)[..|m + chunk| - 64] == m && (m + chunk)[|m + chunk| - 64..] == chunk;
  }

  /** A message is its whole blocks and a rest of fewer than 64 bytes. */
  function Whole(message: seq<Octet>): (w: seq<Octet>)
    ensures |w| % 64 == 0
  {
    message[..|message| - |message| % 64]
  }

  function Rest(message: seq<Octet>): (r: seq<Octet>)
    ensures |r| == |message| % 64 && Whole(message) + r == message
  {
    message[|message| - |message| % 64..]
  }

  /** With at most 55 bytes left over, padding makes one more block. */
  lemma PaddedShort(message: seq<Octet>)
    requires |Rest(message)| < 56
    ensures var r := Rest(message);
      Padded(message) == Whole(message) + (r + [0x80] + Zeros(55 - |r|) + Length64(8 * |message|))
  {
    assert PadZeros(|message|) == 55 - |message| % 64;
    var z, l := Zeros(55 - |Rest(message)|), Length64(8 * |message|);
    assert message + [0x80] + z + l == Whole(message) + (Rest(message) + [0x80] + z + l);
  }

  /** With 56 to 63 bytes left over, the length goes into a second block. */
  lemma PaddedLong(message: seq<Octet>)
    requires |Rest(message)| >= 56
    ensures var r := Rest(message);
      Padded(message) == Whole(message) + (r + [0x80] + Zeros(63 - |r|)) + (Zeros(56) + Length64(8 * |message|))
  {
    hide Length64;
    var r, l := Rest(message), Length64(8 * |message|);
    assert PadZeros(|message|) == 119 - |r|;
    assert Zeros(119 - |r|) == Zeros(63 - |r|) + Zeros(56);
    assert message + [0x80] + Zeros(119 - |r|) + l == Whole(message) + (r + [0x80] + Zeros(63 - |r|)) + (Zeros(56) + l);
  }

  lemma EmptyMessage()
    ensures Whole([]) == [] && Rest([]) == [] && Blocks([]) == Initial()
  {
    hide Compress;
  }

  lemma PushSplit(message: seq<Octet>, x: Octet)
    ensures var after := message + [x];
      if |Rest(message)| == 63 then Whole(after) == Whole(message) + (Rest(message) + [x]) && Rest(after) == []
      else Whole(after) == Whole(message) && Rest(after) == Rest(message) + [x]
  {
  }

  lemma AddModulo(a: nat, b: nat)
    ensures (a % TWO64 + b) % TWO64 == (a + b) % TWO64
  {
    var q := (a + b) / TWO64 - a / TWO64;
    var d := (a % TWO64 + b) / TWO64 - q;
    assert d * TWO64 == (a + b) % TWO64 - (a % TWO64 + b) % TWO64;
  }

  lemma ScheduleFirst(chunk: Chunk, t: nat)
    requires t < 16
    ensures Schedule(chunk, t) == BigEndianWord(chunk[4 * t], chunk[4 * t + 1], chunk[4 * t + 2], chunk[4 * t + 3])
  {
  }

  lemma ScheduleNext(chunk: Chunk, t: nat)
    requires 16 <= t
    ensures Schedule(chunk, t) ==
      NextWord(Schedule(chunk, t - 2), Schedule(chunk, t - 7), Schedule(chunk, t - 15), Schedule(chunk, t - 16))
  {
    hide NextWord, BigEndianWord;
  }

  lemma RoundsNone(start: Vars, chunk: Chunk)
    ensures Rounds(start, chunk, 0) == start
  {
  }

  lemma RoundNext(v: Vars, start: Vars, chunk: Chunk, t: nat)
    requires t < 64 && v == Rounds(start, chunk, t)
    ensures var t1 := T1(v, K()[t], Schedule(chunk, t));
      Rounds(start, chunk, t + 1) == Vars(Plus(t1, T2(v)), v.a, v.b, v.c, Plus(v.d, t1), v.e, v.f, v.g)
  {
    hide T1, T2, Plus, K, Schedule;
  }

  // ------------------------------------------------------- the object

  class Sha256 {
    const data: array<Octet>
    const state: array<Word>
    var blocklen: nat
    var bitlen: nat

    /** The bytes given to `update` since the last reset. */
    ghost var message: seq<Octet>

    ghost predicate Valid()
      reads this, data, state
    {
      data.Length == 64 && state.Length == 8 &&
      blocklen == |message| % 64 && data[..blocklen] == Rest(message) &&
      bitlen == (8 * |Whole(message)|) % TWO64 &&
      state[..] == Blocks(Whole(message))
    }

    constructor ()
      ensures Valid() && message == [] && fresh(data) && fresh(state)
    {
      data := new Octet[64](_ => 0);
      state := new Word[8](_ => 0);
      blocklen, bitlen, message := 0, 0, [];
      new;
      Reset();
    }

    method Reset()
      requires data.Length == 64 && state.Length == 8
      modifies this, state
      ensures Valid() && message == []
    {
      hide Blocks, Whole, Rest;
      EmptyMessage();
      blocklen, bitlen := 0, 0;
      state[0], state[1], state[2], state[3] := 0x6a09e667, 0xbb67ae85, 0x3c6ef372, 0xa54ff53a;
      state[4], state[5], state[6], state[7] := 0x510e527f, 0x9b05688c, 0x1f83d9ab, 0x5be0cd19;
      message := [];
      assert state[..] == Initial();
    }

    method Expand() returns (m: array<Word>)
      requires data.Length == 64
      ensures fresh(m) && m.Length == 64 && forall t :: 0 <= t < 64 ==> m[t] == Schedule(data[..], t)
    {
      hide NextWord, BigEndianWord, Schedule;
      m := new Word[64](_ => 0);
      ghost var chunk: Chunk := data[..];
      var i, j := 0, 0;
      while i < 16
        invariant 0 <= i <= 16 && j == 4 * i && data[..] == chunk
        invariant forall t :: 0 <= t < i ==> m[t] == Schedule(chunk, t)
      {
        ScheduleFirst(chunk, i);
        m[i] := BigEndianWord(data[j], data[j + 1], data[j + 2], data[j + 3]);
        i, j := i + 1, j + 4;
      }
      var k := 16;
      while k < 64
        invariant 16 <= k <= 64 && data[..] == chunk
        invariant forall t :: 0 <= t < k ==> m[t] == Schedule(chunk, t)
      {
        ScheduleNext(chunk, k);
        m[k] := NextWord(m[k - 2], m[k - 7], m[k - 15], m[k - 16]);
        k := k + 1;
      }
    }

    /** One block: the message schedule, 64 rounds, and the addition to the state. */
    method Transform()
      requires data.Length == 64 && state.Length == 8
      modifies state
      ensures state[..] == Compress(old(state[..]), data[..])
    {
      hide T1, T2, Plus, K, Schedule, Rounds, Round;
      var m := Expand();
      ghost var start: State, chunk: Chunk := state[..], data[..];
      var a, b, c, d, e, f, g, h := state[0], state[1], state[2], state[3], state[4], state[5], state[6], state[7];
      RoundsNone(Load(start), chunk);
      var i := 0;
      while i < 64
        invariant 0 <= i <= 64 && state[..] == start && data[..] == chunk
        invariant forall t :: 0 <= t < 64 ==> m[t] == Schedule(chunk, t)
        invariant Vars(a, b, c, d, e, f, g, h) == Rounds(Load(start), chunk, i)
      {
        ghost var v := Vars(a, b, c, d, e, f, g, h);
        var t1 := T1(Vars(a, b, c, d, e, f, g, h), K()[i], m[i]);
        var t2 := T2(Vars(a, b, c, d, e, f, g, h));
        h := g; g := f; f := e;
        e := Plus(d, t1);
        d := c; c := b; b := a;
        a := Plus(t1, t2);
        RoundNext(v, Load(start), chunk, i);
        i := i + 1;
      }
      state[0], state[1], state[2], state[3] := Plus(state[0], a), Plus(state[1], b), Plus(state[2], c), Plus(state[3], d);
      state[4], state[5], state[6], state[7] := Plus(state[4], e), Plus(state[5], f), Plus(state[6], g), Plus(state[7], h);
      assert state[..] == AddTo(start, Vars(a, b, c, d, e, f, g, h));
    }

    method Push(x: Octet)
      requires Valid()
      modifies this, data, state
      ensures Valid() && message == old(message) + [x]
    {
      hide Compress, Blocks, Initial;
      ghost var before, after := message, message + [x];
      ghost var total := 8 * |Whole(before)|;
      data[blocklen] := x;
      blocklen := blocklen + 1;
      message := after;
      PushSplit(before, x);
      assert data[..blocklen] == Rest(before) + [x];
      if blocklen == 64 {
        assert data[..] == data[..blocklen];
        BlocksAppend(Whole(before), Rest(before) + [x]);
        Transform();
        bitlen := (bitlen + 512) % TWO64;
        AddModulo(total, 512);
        blocklen := 0;
      }
    }

    method Update(input: seq<Octet>)
      requires Valid()
      modifies this, data, state
      ensures Valid() && message == old(message) + input
    {
      hide Sha256.Valid;
      var i := 0;
      assert message == old(message) + input[..0];
      while i < |input|
        invariant i <= |input| && Valid() && message == old(message) + input[..i]
      {
        assert input[..i + 1] == input[..i] + [input[i]];
        Push(input[i]);
        i := i + 1;
      }
      assert input[..i] == input;
    }

    /** The byte 0x80 after the data, then zeros up to `end`. */
    method Mark(end: nat)
      requires data.Length == 64 && blocklen < end <= 64
      modifies data
      ensures data[..end] == old(data[..blocklen]) + [0x80] + Zeros(end - 1 - blocklen)
    {
      var i := blocklen;
      data[i] := 0x80;
      i := i + 1;
      while i < end
        invariant blocklen < i <= end && data[..i] == old(data[..blocklen]) + [0x80] + Zeros(i - 1 - blocklen)
      {
        data[i] := 0;
        assert data[..i + 1] == data[..i] + [0];
        assert Zeros(i - blocklen) == Zeros(i - 1 - blocklen) + [0];
        i := i + 1;
      }
    }

    /** memset of the first 56 bytes. */
    method ClearFront()
      requires data.Length == 64
      modifies data
      ensures data[..56] == Zeros(56)
    {
      var i := 0;
      while i < 56
        invariant i <= 56 && data[..i] == Zeros(i)
      {
        data[i] := 0;
        assert data[..i + 1] == data[..i] + [0];
        assert Zeros(i + 1) == Zeros(i) + [0];
        i := i + 1;
      }
    }

    method WriteLength()
      requires data.Length == 64
      modifies data
      ensures data[..56] == old(data[..56]) && data[56..] == Length64(bitlen)
    {
      hide ByteOf;
      data[63], data[62], data[61], data[60] :=
        ByteOf(bitlen, 1), ByteOf(bitlen, 0x100), ByteOf(bitlen, 0x1_0000), ByteOf(bitlen, 0x100_0000);
      data[59], data[58], data[57], data[56] :=
        ByteOf(bitlen, 0x1_0000_0000), ByteOf(bitlen, 0x100_0000_0000), ByteOf(bitlen, 0x1_0000_0000_0000), ByteOf(bitlen, 0x100_0000_0000_0000);
    }

    method Pad()
      requires Valid() && 8 * |message| < TWO64
      modifies this, data, state
      ensures state[..] == Blocks(Padded(message)) && message == old(message)
    {
      hide Compress, Blocks, Zeros, Length64, Padded, PadZeros;
      ghost var rest, whole := Rest(message), Whole(message);
      ghost var r, length := |rest|, Length64(8 * |message|);
      var end := if blocklen < 56 then 56 else 64;
      Mark(end);
      if blocklen >= 56 {
        assert data[..] == data[..64];
        ghost var first: Chunk := rest + [0x80] + Zeros(63 - r);
        BlocksAppend(whole, first);
        Transform();
        ClearFront();
        assert state[..] == Blocks(whole + first);
      }
      ghost var front := data[..56];
      bitlen := (bitlen + blocklen * 8) % TWO64;
      assert bitlen == 8 * |message| by { assert whole + rest == message; }
      WriteLength();
      ghost var last: Chunk := data[..];
      assert last == front + length by { assert data[..] == data[..56] + data[56..]; }
      if r < 56 {
        PaddedShort(message);
        BlocksAppend(whole, last);
        assert last == rest + [0x80] + Zeros(55 - r) + length;
      } else {
        PaddedLong(message);
        ghost var first: Chunk := rest + [0x80] + Zeros(63 - r);
        BlocksAppend(whole + first, last);
        assert last == Zeros(56) + length;
      }
      Transform();
    }

    method Revert(hash: array<Octet>)
      requires state.Length == 8 && hash.Length == 32
      modifies hash
      ensures hash[..] == Serialise(state[..])
    {
      hide WordByte;
      ghost var s: State := state[..];
      var i := 0;
      while i < 4
        invariant i <= 4 && state[..] == s
        invariant forall k: nat :: k < 32 && k % 4 < i ==> hash[k] == WordByte(s[k / 4], k % 4)
      {
        var j := 0;
        while j < 8
          invariant j <= 8 && state[..] == s
          invariant forall k: nat :: k < 32 && (k % 4 < i || (k % 4 == i && k / 4 < j)) ==> hash[k] == WordByte(s[k / 4], k % 4)
        {
          hash[i + j * 4] := WordByte(state[j], i);
          j := j + 1;
        }
        i := i + 1;
      }
    }

    /** The hash of everything given to `update`; the object is ready for a new message. */
    method Digest() returns (digest: seq<Octet>)
      requires Valid() && 8 * |message| < TWO64
      modifies this, data, state
      ensures digest == Hash(old(message)) && Valid() && message == []
    {
      hide Blocks, Padded, Serialise;
      var hash := new Octet[32](_ => 0);
      Pad();
      Revert(hash);
      digest := hash[..];
      Reset();
    }
  }

  method HashRaw(message: seq<Octet>) returns (digest: seq<Octet>)
    requires 8 * |message| < TWO64
    ensures digest == Hash(message)
  {
    hide Hash, Sha256.Valid;
    var h := new Sha256();
    h.Update(message);
    assert [] + message == message;
    digest := h.Digest();
  }

  /** The node's hasher: SHA-256 twice. */
  method HashTwice(message: seq<Octet>) returns (digest: seq<Octet>)
    requires 8 * |message| < TWO64
    ensures digest == Hash(Hash(message))
  {
    hide Hash;
    var first := HashRaw(message);
    digest := HashRaw(first);
  }

  /** However a message is cut into updates, the digest is that of the whole. */
  method HashPieces(pieces: seq<seq<Octet>>) returns (digest: seq<Octet>)
    requires 8 * |Joined(pieces)| < TWO64
    ensures digest == Hash(Joined(pieces))
  {
    hide Hash, Sha256.Valid;
    var h := new Sha256();
    var i := 0;
    assert [] + Joined(pieces) == Joined(pieces);
    while i < |pieces|
      invariant i <= |pieces| && h.Valid() && h.message + Joined(pieces[i..]) == Joined(pieces)
      invariant fresh(h) && fresh(h.data) && fresh(h.state)
    {
      ghost var before := h.message;
      h.Update(pieces[i]);
      assert pieces[i..][1..] == pieces[i + 1..];
      assert before + (pieces[i] + Joined(pieces[i + 1..])) == before + pieces[i] + Joined(pieces[i + 1..]);
      i := i + 1;
    }
    assert h.message + [] == h.message;
    digest := h.Digest();
  }

  function Joined(pieces: seq<seq<Octet>>): seq<Octet> {
    if pieces == [] then [] else pieces[0] + Joined(pieces[1..])
  }

  method HmacRaw(key: seq<Octet>, message: seq<Octet>) returns (digest: seq<Octet>)
    requires 8 * |key| < TWO64 && 8 * (64 + |message|) < TWO64
    ensures digest == Hmac(key, message)
  {
    hide Hash, Sha256.Valid, Zeros, XorAll;
    var k: seq<Octet>;
    if |key| > 64 {
      var dk := HashRaw(key);
      k := dk + Zeros(32);
    } else {
      k := key + Zeros(64 - |key|);
    }
    var ipad := XorWith(k, 0x36);
    var opad := XorWith(k, 0x5c);
    var innerHash := HashBoth(ipad, message);
    digest := HashBoth(opad, innerHash);
  }

  /** update, update, digest. */
  method HashBoth(first: seq<Octet>, second: seq<Octet>) returns (digest: seq<Octet>)
    requires 8 * |first + second| < TWO64
    ensures digest == Hash(first + second)
  {
    hide Hash, Sha256.Valid;
    var h := new Sha256();
    h.Update(first);
    h.Update(second);
    assert [] + first + second == first + second;
    digest := h.Digest();
  }

  method XorWith(k: seq<Octet>, pad: Octet) returns (r: seq<Octet>)
    ensures r == XorAll(k, pad)
  {
    r := [];
    var i := 0;
    while i < |k|
      invariant i <= |k| && |r| == i && forall j :: 0 <= j < i ==> r[j] == k[j] ^ pad
    {
      r := r + [k[i] ^ pad];
      i := i + 1;
    }
  }
}
