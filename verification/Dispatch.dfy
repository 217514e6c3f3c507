/** Which payloads are accepted as which messages: the dispatcher as an if and only if. Control messages must be spelled
    exactly; a block or transaction may be followed by further bytes inside its length-prefixed string. */
module Dispatch {
  import opened Core
  import opened Numbers
  import opened Primitives
  import opened CodecInverse
  import opened Messages

  function PrefixedAll(raws: seq<Bytes>): Bytes {
    if raws == [] then [] else Prefixed(4, raws[0]) + PrefixedAll(raws[1..])
  }

  /** Each string begins with the encoding of its block. */
  ghost predicate Begin(raws: seq<Bytes>, blocks: seq<Block>) {
    |raws| == |blocks| && forall i :: 0 <= i < |raws| ==> |raws[i]| < U32 && EncodeBlock(blocks[i]) <= raws[i]
  }

  ghost predicate Spells(payload: Bytes, m: Message) {
    match m
    case NewBlock(block) => exists raw: Bytes :: payload == Prefixed(4, raw) && |raw| < U32 && EncodeBlock(block) <= raw
    case NewTransaction(t) => exists raw: Bytes :: payload == Prefixed(4, raw) && |raw| < U32 && EncodeTransaction(t) <= raw
    case Blocks(blocks) =>
      |blocks| < U32 && exists raws: seq<Bytes> :: payload == LE(4, |blocks|) + PrefixedAll(raws) && Begin(raws, blocks)
    case _ => payload == Encode(m)
  }

  lemma WholeRead(r: Reader, enc: Bytes)
    requires r.offset == 0 && At(r, enc) && |enc| == |r.data|
    ensures r.data == enc
  {
    assert r.data[0..|r.data|] == r.data;
  }

  // ------------------------------------------------------- control messages

  lemma NonceExactly(payload: Bytes, nonce: u64)
    requires |payload| < SIZE_LIMIT
    ensures DecodeNonce(payload) == Some(nonce) <==> payload == LE(8, nonce)
  {
    hide LE, FromLE, ReadLE, At;
    NonceRoundTrip(nonce);
    if DecodeNonce(payload) == Some(nonce) {
      NumberBackward(Start(payload), 8);
      WholeRead(Start(payload), LE(8, nonce));
    }
  }

  lemma GetBlocksExactly(payload: Bytes, m: Message)
    requires |payload| < SIZE_LIMIT && m.GetBlocks?
    ensures DecodeGetBlocks(payload) == Some(m) <==> payload == Encode(m)
  {
    hide LE, FromLE, ReadLE, At;
    GetBlocksRoundTrip(m);
    if DecodeGetBlocks(payload) == Some(m) {
      var r := Start(payload);
      NumberBackward(r, 8);
      NumberBackward(Skip(r, 8), 4);
      AtJoin(r, LE(8, m.fromHeight), LE(4, m.maxCount));
      WholeRead(r, Encode(m));
    }
  }

  lemma StatusExactly(payload: Bytes, m: Message)
    requires |payload| < SIZE_LIMIT && m.Status?
    ensures DecodeStatus(payload) == Some(m) <==> payload == Encode(m)
  {
    hide LE, FromLE, ReadLE, ReadFixed, At;
    StatusRoundTrip(m);
    if DecodeStatus(payload) == Some(m) {
      var r := Start(payload);
      NumberBackward(r, 4);
      NumberBackward(Skip(r, 4), 8);
      NumberBackward(Skip(r, 12), 8);
      FixedBackward(Skip(r, 20), 32);
      AtJoin(Skip(r, 12), LE(8, m.height), m.headHash);
      AtJoin(Skip(r, 4), LE(8, m.chainId), LE(8, m.height) + m.headHash);
      AtJoin(r, LE(4, m.version), LE(8, m.chainId) + (LE(8, m.height) + m.headHash));
      WholeRead(r, Encode(m));
    }
  }

  // ------------------------------------------------------- blocks and transactions

  lemma WrappedExactly(payload: Bytes, raw: Bytes)
    requires |payload| < SIZE_LIMIT
    ensures DecodeWrapped(payload) == Some(raw) <==> payload == Prefixed(4, raw) && |raw| < U32
  {
    hide LE, ReadBytes, At;
    assert Pow256(4) == U32;
    if |raw| < U32 { WrappedRoundTrip(raw); }
    if DecodeWrapped(payload) == Some(raw) {
      BlobBackward(Start(payload), 4);
      WholeRead(Start(payload), Prefixed(4, raw));
    }
  }

  /** Nothing but a block that begins the bytes is ever decoded from them. */
  lemma DecodedBegins(raw: Bytes, b: Block)
    requires |raw| < SIZE_LIMIT
    ensures DecodeBlock(raw) == Some(b) <==> EncodeBlock(b) <= raw
  {
    hide EncodeBlock, ReadBlock;
    BlockDecodesExactly(raw, b);
    if DecodeBlock(raw) == Some(b) { BlockBackward(Start(raw)); }
  }

  lemma DecodedTransactionBegins(raw: Bytes, t: Transaction)
    requires |raw| < SIZE_LIMIT
    ensures DecodeTransaction(raw) == Some(t) <==> EncodeTransaction(t) <= raw
  {
    hide EncodeTransaction, ReadTransaction;
    TransactionDecodesExactly(raw, t);
    if DecodeTransaction(raw) == Some(t) { TransactionBackward(Start(raw)); }
  }

  lemma {:induction false} ListForward(r: Reader, raws: seq<Bytes>, blocks: seq<Block>)
    requires Ready(r) && At(r, PrefixedAll(raws)) && Begin(raws, blocks)
    ensures ReadBlockList(r, |blocks|) == (Some(blocks), Skip(r, |PrefixedAll(raws)|))
    decreases |raws|
  {
    hide At, LE, EncodeBlock, DecodeBlock, ReadBytes;
    if raws != [] {
      var raw, rest := raws[0], PrefixedAll(raws[1..]);
      assert Pow256(4) == U32;
      BlobForward(r, 4, raw, rest);
      AtSplit(r, Prefixed(4, raw), rest);
      ReadyStays(r, Prefixed(4, raw));
      DecodedBegins(raw, blocks[0]);
      ListForward(Skip(r, 4 + |raw|), raws[1..], blocks[1..]);
      assert blocks == [blocks[0]] + blocks[1..];
    }
  }

  lemma {:induction false} ListBackward(r: Reader, count: nat) returns (raws: seq<Bytes>)
    requires Ready(r) && ReadBlockList(r, count).0.Some?
    ensures var blocks := ReadBlockList(r, count).0.value;
      |blocks| == count && Begin(raws, blocks) && At(r, PrefixedAll(raws)) &&
      ReadBlockList(r, count).1 == Skip(r, |PrefixedAll(raws)|)
    decreases count
  {
    hide At, LE, EncodeBlock, DecodeBlock, ReadBytes;
    raws := [];
    if count == 0 {
      AtEmpty(r);
    } else {
      assert Pow256(4) == U32;
      var raw := ReadBytes(r, 4).0.value;
      BlobBackward(r, 4);
      ReadyStays(r, Prefixed(4, raw));
      var r1 := Skip(r, 4 + |raw|);
      var rest := ListBackward(r1, count - 1);
      var b := DecodeBlock(raw).value;
      DecodedBegins(raw, b);
      raws := [raw] + rest;
      assert raws[1..] == rest;
      AtJoin(r, Prefixed(4, raw), PrefixedAll(rest));
      var more := ReadBlockList(r1, count - 1).0.value;
      forall i | 0 <= i < count ensures |raws[i]| < U32 && EncodeBlock(([b] + more)[i]) <= raws[i] {
        if i > 0 { assert raws[i] == rest[i - 1] && ([b] + more)[i] == more[i - 1]; }
      }
    }
  }

  lemma BlocksExactly(payload: Bytes, m: Message)
    requires |payload| < SIZE_LIMIT && m.Blocks?
    ensures DecodeBlocks(payload) == Some(m) <==> Spells(payload, m)
  {
    hide At, LE, FromLE, ReadLE, ReadBlockList, Begin, PrefixedAll;
    assert Pow256(4) == U32;
    var r, n := Start(payload), |m.blocks|;
    if Spells(payload, m) {
      var raws: seq<Bytes> :| payload == LE(4, n) + PrefixedAll(raws) && Begin(raws, m.blocks);
      WholeAt(payload);
      NumberForward(r, 4, n, PrefixedAll(raws));
      AtSplit(r, LE(4, n), PrefixedAll(raws));
      ReadyStays(r, LE(4, n));
      ListForward(Skip(r, 4), raws, m.blocks);
    }
    if DecodeBlocks(payload) == Some(m) {
      NumberBackward(r, 4);
      ReadyStays(r, LE(4, ReadLE(r, 4).0.value));
      var raws := ListBackward(Skip(r, 4), ReadLE(r, 4).0.value);
      AtJoin(r, LE(4, n), PrefixedAll(raws));
      WholeRead(r, LE(4, n) + PrefixedAll(raws));
    }
  }

  lemma NewBlockExactly(payload: Bytes, block: Block)
    requires |payload| < SIZE_LIMIT
    ensures Decode(0x0100, payload) == Handled(NewBlock(block)) <==> Spells(payload, NewBlock(block))
  {
    hide LE, EncodeBlock, DecodeBlock, DecodeWrapped;
    var raw := DecodeWrapped(payload);
    if raw.Some? {
      WrappedExactly(payload, raw.value);
      DecodedBegins(raw.value, block);
    }
    if Spells(payload, NewBlock(block)) {
      var x: Bytes :| payload == Prefixed(4, x) && |x| < U32 && EncodeBlock(block) <= x;
      WrappedExactly(payload, x);
    }
  }

  lemma NewTransactionExactly(payload: Bytes, t: Transaction)
    requires |payload| < SIZE_LIMIT
    ensures Decode(0x0200, payload) == Handled(NewTransaction(t)) <==> Spells(payload, NewTransaction(t))
  {
    hide LE, EncodeTransaction, DecodeTransaction, DecodeWrapped;
    var raw := DecodeWrapped(payload);
    if raw.Some? {
      WrappedExactly(payload, raw.value);
      DecodedTransactionBegins(raw.value, t);
    }
    if Spells(payload, NewTransaction(t)) {
      var x: Bytes :| payload == Prefixed(4, x) && |x| < U32 && EncodeTransaction(t) <= x;
      WrappedExactly(payload, x);
    }
  }

  /** A payload is taken for a message exactly when its topic is the message's and its bytes spell it. */
  lemma DecodesExactly(topic: u16, payload: Bytes, m: Message)
    requires |payload| < SIZE_LIMIT
    ensures Decode(topic, payload) == Handled(m) <==> topic == Topic(m) && Spells(payload, m)
  {
    hide DecodeStatus, DecodeNonce, DecodeGetBlocks, DecodeWrapped, DecodeBlocks, DecodeBlock, DecodeTransaction, Encode, Spells;
    Kinds(payload);
    ControlSpelled(payload, m);
    match m {
      case Status(_, _, _, _) => StatusExactly(payload, m);
      case Ping(nonce) => NonceExactly(payload, nonce);
      case Pong(nonce) => NonceExactly(payload, nonce);
      case NewBlock(block) => NewBlockExactly(payload, block);
      case GetBlocks(_, _) => GetBlocksExactly(payload, m);
      case Blocks(_) => BlocksExactly(payload, m);
      case NewTransaction(t) => NewTransactionExactly(payload, t);
    }
  }

  lemma Kinds(payload: Bytes)
    ensures DecodeStatus(payload).Some? ==> DecodeStatus(payload).value.Status?
    ensures DecodeGetBlocks(payload).Some? ==> DecodeGetBlocks(payload).value.GetBlocks?
    ensures DecodeBlocks(payload).Some? ==> DecodeBlocks(payload).value.Blocks?
  {
    hide ReadLE, ReadFixed, ReadBlockList;
  }

  lemma ControlSpelled(payload: Bytes, m: Message)
    ensures m.Status? || m.GetBlocks? ==> (Spells(payload, m) <==> payload == Encode(m))
    ensures m.Ping? ==> (Spells(payload, m) <==> payload == LE(8, m.pingNonce))
    ensures m.Pong? ==> (Spells(payload, m) <==> payload == LE(8, m.pongNonce))
  {
    hide LE;
  }

  /** Everything else is malformed on a known topic, which drops the peer, and ignored on any other. */
  lemma NotHandledExactly(topic: u16, payload: Bytes)
    ensures Decode(topic, payload).Unhandled? <==> forall m: Message :: topic != Topic(m)
    ensures forall m: Message :: Topic(m) < 0x1_0000
  {
    hide DecodeStatus, DecodeNonce, DecodeGetBlocks, DecodeWrapped, DecodeBlocks, DecodeBlock, DecodeTransaction, Encode;
    assert Topic(Ping(0)) == 1 && Topic(Pong(0)) == 2 && Topic(GetBlocks(0, 0)) == 0x0101 && Topic(Blocks([])) == 0x0102;
    var h: Hash256 := seq(32, _ => 0);
    var a: Address := seq(20, _ => 0);
    assert Topic(Status(0, 0, 0, h)) == 0;
    assert Topic(NewBlock(Block(BlockHeader(0, h, h, h, 0, 0, a, [], [], []), []))) == 0x0100;
    assert Topic(NewTransaction(Transaction(0, a, a, 0, 0, [], []))) == 0x0200;
  }
}
