/** Protocol messages, the frames that carry them, and the stream they are read back from. */
module Messages {
  import opened Core
  import opened Numbers
  import opened Primitives
  import opened CodecInverse
  import opened ByteBuffers
  import opened PrimitiveCodec

  const U32: nat := 0x1_0000_0000

  datatype Message =
    | Status(version: u32, chainId: u64, height: u64, headHash: Hash256)
    | Ping(pingNonce: u64)
    | Pong(pongNonce: u64)
    | NewBlock(block: Block)
    | GetBlocks(fromHeight: u64, maxCount: u32)
    | Blocks(blocks: seq<Block>)
    | NewTransaction(transaction: Transaction)

  function Topic(m: Message): u16 {
    match m
    case Status(_, _, _, _) => 0x0000
    case Ping(_) => 0x0001
    case Pong(_) => 0x0002
    case NewBlock(_) => 0x0100
    case GetBlocks(_, _) => 0x0101
    case Blocks(_) => 0x0102
    case NewTransaction(_) => 0x0200
  }

  function EncodeBlockList(bs: seq<Block>): Bytes {
    if bs == [] then [] else Prefixed(4, EncodeBlock(bs[0])) + EncodeBlockList(bs[1..])
  }

  function Encode(m: Message): Bytes {
    match m
    case Status(version, chainId, height, headHash) => LE(4, version) + (LE(8, chainId) + (LE(8, height) + headHash))
    case Ping(nonce) => LE(8, nonce)
    case Pong(nonce) => LE(8, nonce)
    case NewBlock(block) => Prefixed(4, EncodeBlock(block))
    case GetBlocks(fromHeight, maxCount) => LE(8, fromHeight) + LE(4, maxCount)
    case Blocks(blocks) => LE(4, |blocks|) + EncodeBlockList(blocks)
    case NewTransaction(transaction) => Prefixed(4, EncodeTransaction(transaction))
  }

  // ------------------------------------------------------- decoding

  predicate Finished(r: Reader) { r.offset == |r.data| }

  function ReadBlockList(r: Reader, count: nat): (Option<seq<Block>>, Reader)
    decreases count
  {
    if count == 0 then (Some([]), r) else
      var (raw, r1) := ReadBytes(r, 4);
      if raw.None? then (None, r1) else
      var block := DecodeBlock(raw.value);
      if block.None? then (None, r1) else
      var (rest, r2) := ReadBlockList(r1, count - 1);
      (if rest.None? then None else Some([block.value] + rest.value), r2)
  }

  function DecodeStatus(payload: Bytes): Option<Message> {
    var (version, r1) := ReadLE(Start(payload), 4);
    var (chainId, r2) := ReadLE(r1, 8);
    var (height, r3) := ReadLE(r2, 8);
    var (headHash, r4) := ReadFixed(r3, 32);
    if version.None? || chainId.None? || height.None? || headHash.None? || !Finished(r4) then None
    else Some(Status(version.value, chainId.value, height.value, headHash.value))
  }

  function DecodeNonce(payload: Bytes): Option<u64> {
    var (nonce, r) := ReadLE(Start(payload), 8);
    if nonce.None? || !Finished(r) then None else Some(nonce.value)
  }

  function DecodeGetBlocks(payload: Bytes): Option<Message> {
    var (fromHeight, r1) := ReadLE(Start(payload), 8);
    var (maxCount, r2) := ReadLE(r1, 4);
    if fromHeight.None? || maxCount.None? || !Finished(r2) then None else Some(GetBlocks(fromHeight.value, maxCount.value))
  }

  /** A payload that is one length-prefixed byte string. */
  function DecodeWrapped(payload: Bytes): Option<Bytes> {
    var (raw, r) := ReadBytes(Start(payload), 4);
    if raw.None? || !Finished(r) then None else raw
  }

  function DecodeBlocks(payload: Bytes): Option<Message> {
    var (count, r1) := ReadLE(Start(payload), 4);
    if count.None? then None else
    var (blocks, r2) := ReadBlockList(r1, count.value);
    if blocks.None? || !Finished(r2) then None else Some(Blocks(blocks.value))
  }

  datatype Decoded = Handled(message: Message) | Malformed | Unhandled

  function Lift(m: Option<Message>): Decoded { if m.None? then Malformed else Handled(m.value) }

  /** What the dispatcher makes of a network message. */
  function Decode(topic: u16, payload: Bytes): Decoded {
    if topic == 0x0000 then Lift(DecodeStatus(payload))
    else if topic == 0x0001 then (var n := DecodeNonce(payload); if n.None? then Malformed else Handled(Ping(n.value)))
    else if topic == 0x0002 then (var n := DecodeNonce(payload); if n.None? then Malformed else Handled(Pong(n.value)))
    else if topic == 0x0100 then
      var raw := DecodeWrapped(payload);
      var block := if raw.None? then None else DecodeBlock(raw.value);
      if block.None? then Malformed else Handled(NewBlock(block.value))
    else if topic == 0x0101 then Lift(DecodeGetBlocks(payload))
    else if topic == 0x0102 then Lift(DecodeBlocks(payload))
    else if topic == 0x0200 then
      var raw := DecodeWrapped(payload);
      var t := if raw.None? then None else DecodeTransaction(raw.value);
      if t.None? then Malformed else Handled(NewTransaction(t.value))
    else Unhandled
  }

  // ------------------------------------------------------- messages round-trip

  lemma WholeAt(data: Bytes)
    requires |data| < SIZE_LIMIT
    ensures Ready(Start(data)) && At(Start(data), data) && At(Start(data), data + [])
    ensures forall n :: Skip(Start(data), n).offset == n && Skip(Start(data), n).data == data
  {
    assert data[0..|data|] == data && data + [] == data;
  }

  lemma StatusRoundTrip(m: Message)
    requires m.Status?
    ensures DecodeStatus(Encode(m)) == Some(m)
  {
    hide LE, FromLE, ReadLE, ReadFixed, At;
    var data := Encode(m);
    WholeAt(data);
    assert Pow256(4) == U32 && Pow256(8) == U64;
    var r := Start(data);
    NumberForward(r, 4, m.version, LE(8, m.chainId) + (LE(8, m.height) + m.headHash));
    NumberForward(Skip(r, 4), 8, m.chainId, LE(8, m.height) + m.headHash);
    NumberForward(Skip(r, 12), 8, m.height, m.headHash);
    assert m.headHash + [] == m.headHash;
    FixedForward(Skip(r, 20), m.headHash, []);
  }

  lemma NonceRoundTrip(nonce: u64)
    ensures DecodeNonce(LE(8, nonce)) == Some(nonce)
  {
    hide LE, FromLE, ReadLE, At;
    WholeAt(LE(8, nonce));
    assert Pow256(8) == U64;
    NumberForward(Start(LE(8, nonce)), 8, nonce, []);
  }

  lemma GetBlocksRoundTrip(m: Message)
    requires m.GetBlocks?
    ensures DecodeGetBlocks(Encode(m)) == Some(m)
  {
    hide LE, FromLE, ReadLE, At;
    var r := Start(Encode(m));
    WholeAt(Encode(m));
    assert Pow256(4) == U32 && Pow256(8) == U64;
    NumberForward(r, 8, m.fromHeight, LE(4, m.maxCount));
    assert LE(4, m.maxCount) + [] == LE(4, m.maxCount);
    NumberForward(Skip(r, 8), 4, m.maxCount, []);
  }

  lemma WrappedRoundTrip(raw: Bytes)
    requires |raw| < U32
    ensures DecodeWrapped(Prefixed(4, raw)) == Some(raw)
  {
    hide LE, ReadBytes, At;
    WholeAt(Prefixed(4, raw));
    assert Pow256(4) == U32;
    BlobForward(Start(Prefixed(4, raw)), 4, raw, []);
  }

  /** The 32-bit length prefix is not just enough but needed: a longer string is never read back. */
  lemma OversizedWrappedIsRejected(raw: Bytes)
    requires U32 <= |raw| && 4 + |raw| < SIZE_LIMIT
    ensures DecodeWrapped(Prefixed(4, raw)).None?
  {
    var (size, r1) := ReadLE(Start(Prefixed(4, raw)), 4);
    assert Pow256(4) == U32;
    hide LE, FromLE, Pow256;
  }

  lemma EncodedDecodes(b: Block)
    requires |EncodeBlock(b)| < SIZE_LIMIT
    ensures DecodeBlock(EncodeBlock(b)) == Some(b)
  {
    hide EncodeBlock, ReadBlock;
    BlockDecodesExactly(EncodeBlock(b), b);
  }

  lemma EncodedTransactionDecodes(t: Transaction)
    requires |EncodeTransaction(t)| < SIZE_LIMIT
    ensures DecodeTransaction(EncodeTransaction(t)) == Some(t)
  {
    hide EncodeTransaction, ReadTransaction;
    TransactionDecodesExactly(EncodeTransaction(t), t);
  }

  lemma {:induction false} BlockListForward(r: Reader, bs: seq<Block>)
    requires Ready(r) && At(r, EncodeBlockList(bs)) && |EncodeBlockList(bs)| < U32
    ensures ReadBlockList(r, |bs|) == (Some(bs), Skip(r, |EncodeBlockList(bs)|))
    decreases |bs|
  {
    hide At, LE, EncodeBlock, DecodeBlock, ReadBytes;
    if bs != [] {
      var enc, rest := EncodeBlock(bs[0]), EncodeBlockList(bs[1..]);
      assert Pow256(4) == U32;
      BlobForward(r, 4, enc, rest);
      AtSplit(r, Prefixed(4, enc), rest);
      ReadyStays(r, Prefixed(4, enc));
      EncodedDecodes(bs[0]);
      BlockListForward(Skip(r, 4 + |enc|), bs[1..]);
      assert bs == [bs[0]] + bs[1..];
    }
  }

  lemma {:induction false} BlockListSize(bs: seq<Block>)
    ensures |EncodeBlockList(bs)| >= 4 * |bs|
  {
    if bs != [] { BlockListSize(bs[1..]); }
  }

  lemma PrefixValue(n: nat)
    ensures FromLE(LE(4, n)) == n % U32
  {
    assert Pow256(4) == U32;
    LowBytes(n);
    LEInverse(4, n % U32);
  }

  /** A proper prefix of an encoded block is not a block. */
  lemma CutBlockFails(b: Block, n: nat)
    requires n < |EncodeBlock(b)| < SIZE_LIMIT
    ensures DecodeBlock(EncodeBlock(b)[..n]).None?
  {
    hide EncodeBlock, ReadBlock;
    var enc := EncodeBlock(b);
    if DecodeBlock(enc[..n]).Some? {
      var c := DecodeBlock(enc[..n]).value;
      BlockBackward(Start(enc[..n]));
      var size := |EncodeBlock(c)|;
      assert EncodeBlock(c) == enc[..n][..size] == enc[..size];
      assert EncodeBlock(c) + enc[size..] == enc == enc + [];
      EncodingsArePrefixFree(c, enc[size..], b, []);
    }
  }

  lemma PartAt(data: Bytes, offset: nat, list: Bytes, k: nat)
    requires offset + k < |data| <= offset + |list| && data[offset..] == list[..|data| - offset]
    ensures data[offset + k] == list[k]
  {
    assert data[offset..][k] == list[..|data| - offset][k];
  }

  /** Where the unread bytes begin with a part of `list`, a read within it gives what is there. */
  lemma PartRead(data: Bytes, offset: nat, list: Bytes, from: nat, to: nat)
    requires offset <= |data| <= offset + |list| && data[offset..] == list[..|data| - offset]
    requires from <= to && offset + to <= |data|
    ensures data[offset + from..offset + to] == list[from..to]
    ensures data[offset + to..] == list[to..|data| - offset]
  {
    forall k | from <= k < |data| - offset ensures data[offset + k] == list[k] { PartAt(data, offset, list, k); }
    SameSlices(data, offset, list, from, to);
    SameSlices(data, offset, list, to, |data| - offset);
    assert data[offset + to..offset + (|data| - offset)] == data[offset + to..];
  }

  lemma SameSlices(data: Bytes, offset: nat, list: Bytes, from: nat, to: nat)
    requires from <= to <= |list| && offset + to <= |data|
    requires forall k :: from <= k < to ==> data[offset + k] == list[k]
    ensures data[offset + from..offset + to] == list[from..to]
  {
    var x, y := data[offset + from..offset + to], list[from..to];
    forall i | 0 <= i < |x| ensures x[i] == y[i] {
      assert x[i] == data[offset + (from + i)];
    }
  }

  lemma FirstPart(a: Bytes, b: Bytes, c: Bytes)
    ensures (a + b + c)[0..|a|] == a
  {
  }

  lemma MiddlePart(a: Bytes, b: Bytes, c: Bytes, size: nat)
    requires size <= |b|
    ensures (a + b + c)[|a|..|a| + size] == b[..size]
  {
  }

  lemma LastPart(a: Bytes, b: Bytes, c: Bytes, size: nat)
    requires size <= |c|
    ensures (a + b + c)[|a| + |b|..|a| + |b| + size] == c[..size]
  {
  }

  /** Reading the length of the first string of a cut list. */
  lemma CutSize(r: Reader, enc: Bytes, rest: Bytes)
    requires r.offset + 4 <= |r.data|
    requires var list := Prefixed(4, enc) + rest;
      |r.data| - r.offset < |list| && r.data[r.offset..] == list[..|r.data| - r.offset]
    ensures Primitives.ReadLE(r, 4) == (Some(|enc| % U32), Skip(r, 4))
  {
    hide LE, FromLE, Pow256;
    var list := Prefixed(4, enc) + rest;
    assert list == LE(4, |enc|) + enc + rest;
    FirstPart(LE(4, |enc|), enc, rest);
    PartRead(r.data, r.offset, list, 0, 4);
    PrefixValue(|enc|);
  }

  /** Reading the string: the part its cut length names, if that much is left. */
  lemma CutRead(r: Reader, enc: Bytes, rest: Bytes)
    requires Ready(r) && r.offset + 4 <= |r.data|
    requires var list := Prefixed(4, enc) + rest;
      |r.data| - r.offset < |list| < SIZE_LIMIT && r.data[r.offset..] == list[..|r.data| - r.offset]
    ensures var size := |enc| % U32; var end := r.offset + 4 + size;
      (end > |r.data| ==> ReadBytes(r, 4).0.None?) &&
      (end <= |r.data| ==> ReadBytes(r, 4) == (Some(enc[..size]), Skip(r, 4 + size))) &&
      (end <= |r.data| && size == |enc| ==> r.data[end..] == rest[..|r.data| - end])
  {
    hide LE, Primitives.ReadLE;
    var list, size := Prefixed(4, enc) + rest, |enc| % U32;
    CutSize(r, enc, rest);
    if r.offset + 4 + size <= |r.data| {
      assert list == LE(4, |enc|) + enc + rest;
      MiddlePart(LE(4, |enc|), enc, rest, size);
      PartRead(r.data, r.offset, list, 4, 4 + size);
      if size == |enc| { LastPart(LE(4, |enc|), enc, rest, |r.data| - r.offset - 4 - size); }
    }
  }

  /** A block list cut short anywhere is never read to its end, also where a length prefix is cut to 32 bits. */
  lemma {:induction false} CutListFails(r: Reader, bs: seq<Block>, list: Bytes)
    requires Ready(r) && list == EncodeBlockList(bs) && |list| < SIZE_LIMIT
    requires |r.data| - r.offset < |list| && r.data[r.offset..] == list[..|r.data| - r.offset]
    ensures ReadBlockList(r, |bs|).0.None?
    decreases |bs|
  {
    hide LE, FromLE, EncodeBlock, DecodeBlock, ReadBytes;
    if bs != [] {
      var enc, rest := EncodeBlock(bs[0]), EncodeBlockList(bs[1..]);
      var size := |enc| % U32;
      if r.offset + 4 > |r.data| {
        NothingToRead(r);
      } else {
        CutRead(r, enc, rest);
        if r.offset + 4 + size <= |r.data| {
          if size < |enc| {
            CutBlockFails(bs[0], size);
          } else {
            assert enc[..size] == enc;
            EncodedDecodes(bs[0]);
            CutListFails(Skip(r, 4 + size), bs[1..], rest);
          }
        }
      }
    }
  }

  lemma NothingToRead(r: Reader)
    requires r.offset + 4 > |r.data|
    ensures ReadBytes(r, 4).0.None?
  {
  }

  lemma BlocksRoundTrip(m: Message)
    requires m.Blocks? && |Encode(m)| < U32
    ensures DecodeBlocks(Encode(m)) == Some(m)
  {
    hide LE, FromLE, ReadLE, At, EncodeBlockList, ReadBlockList;
    var data, list := Encode(m), EncodeBlockList(m.blocks);
    WholeAt(data);
    BlockListSize(m.blocks);
    assert Pow256(4) == U32;
    var r := Start(data);
    NumberForward(r, 4, |m.blocks|, list);
    AtSplit(r, LE(4, |m.blocks|), list);
    ReadyStays(r, LE(4, |m.blocks|));
    BlockListForward(Skip(r, 4), m.blocks);
  }

  /** Every message whose payload length fits the 32-bit frame field is decoded back to itself. */
  lemma MessageRoundTrip(m: Message)
    requires |Encode(m)| < U32
    ensures Decode(Topic(m), Encode(m)) == Handled(m)
  {
    hide DecodeStatus, DecodeNonce, DecodeGetBlocks, DecodeWrapped, DecodeBlocks, DecodeBlock, DecodeTransaction, LE, EncodeBlock, EncodeTransaction;
    match m {
      case Status(_, _, _, _) => StatusRoundTrip(m);
      case Ping(nonce) => NonceRoundTrip(nonce);
      case Pong(nonce) => NonceRoundTrip(nonce);
      case NewBlock(block) => WrappedRoundTrip(EncodeBlock(block)); EncodedDecodes(block);
      case GetBlocks(_, _) => GetBlocksRoundTrip(m);
      case Blocks(_) => BlocksRoundTrip(m);
      case NewTransaction(t) => WrappedRoundTrip(EncodeTransaction(t)); EncodedTransactionDecodes(t);
    }
  }

  // ------------------------------------------------------- frames

  const HEADER_SIZE: nat := 6

  datatype NetMessage = NetMessage(topic: u16, payload: Bytes)

  function Frame(m: NetMessage): Bytes { LE(2, m.topic) + (LE(4, |m.payload|) + m.payload) }

  function FrameTopic(raw: Bytes): nat
    requires |raw| >= HEADER_SIZE
  {
    FromLE(raw[..2])
  }

  function FrameLength(raw: Bytes): nat
    requires |raw| >= HEADER_SIZE
  {
    FromLE(raw[2..6])
  }

  /** What the reader thread delivers from the bytes of a connection: header, length check, payload, repeated until
      the bytes run out or a frame is oversized. */
  function Deliver(stream: Bytes, limit: nat): seq<NetMessage>
    decreases |stream|
  {
    if |stream| < HEADER_SIZE || FrameLength(stream) > limit || |stream| < HEADER_SIZE + FrameLength(stream) then []
    else
      assert Pow256(2) == 0x1_0000;
      [NetMessage(FrameTopic(stream), stream[HEADER_SIZE..HEADER_SIZE + FrameLength(stream)])] +
      Deliver(stream[HEADER_SIZE + FrameLength(stream)..], limit)
  }

  /** Whether the reader thread gives the connection up, which it does at the first frame over the limit. */
  predicate Disconnects(stream: Bytes, limit: nat)
    decreases |stream|
  {
    |stream| >= HEADER_SIZE &&
    (FrameLength(stream) > limit ||
     (|stream| >= HEADER_SIZE + FrameLength(stream) && Disconnects(stream[HEADER_SIZE + FrameLength(stream)..], limit)))
  }

  lemma FrameHead(m: NetMessage, rest: Bytes)
    requires |m.payload| < U32
    ensures var stream := Frame(m) + rest;
      |stream| >= HEADER_SIZE + |m.payload| && FrameTopic(stream) == m.topic && FrameLength(stream) == |m.payload| &&
      stream[HEADER_SIZE..HEADER_SIZE + |m.payload|] == m.payload && stream[HEADER_SIZE + |m.payload|..] == rest
  {
    hide LE, FromLE, Pow256;
    var stream := Frame(m) + rest;
    assert stream[..2] == LE(2, m.topic) && stream[2..6] == LE(4, |m.payload|);
    assert m.topic < Pow256(2) && |m.payload| < Pow256(4) by { FieldBounds(); }
    LEInverse(2, m.topic);
    LEInverse(4, |m.payload|);
  }

  lemma FieldBounds()
    ensures Pow256(2) == 0x1_0000 && Pow256(4) == U32
  {
  }

  function Send(m: Message): NetMessage { NetMessage(Topic(m), Encode(m)) }

  function Stream(ms: seq<Message>): Bytes {
    if ms == [] then [] else Frame(Send(ms[0])) + Stream(ms[1..])
  }

  /** Delivered frames after decoding. */
  function Receive(frames: seq<NetMessage>): seq<Decoded> {
    if frames == [] then [] else [Decode(frames[0].topic, frames[0].payload)] + Receive(frames[1..])
  }

  function AllHandled(ms: seq<Message>): seq<Decoded> {
    if ms == [] then [] else [Handled(ms[0])] + AllHandled(ms[1..])
  }

  /** The whole stack: messages with payloads within the frame limit, encoded, framed and concatenated, come out of
      the stream as they went in, whatever incomplete frame the connection ends with. */
  lemma {:induction false} StreamRoundTrip(ms: seq<Message>, tail: Bytes, limit: nat)
    requires limit < U32 && (forall m <- ms :: |Encode(m)| <= limit)
    requires Deliver(tail, limit) == []
    ensures Receive(Deliver(Stream(ms) + tail, limit)) == AllHandled(ms)
    ensures Disconnects(Stream(ms) + tail, limit) == Disconnects(tail, limit)
    decreases |ms|
  {
    hide Encode, Decode, Frame, FrameTopic, FrameLength;
    if ms == [] {
      assert [] + tail == tail;
    } else {
      var net, rest := Send(ms[0]), Stream(ms[1..]) + tail;
      assert Stream(ms) + tail == Frame(net) + rest;
      FrameHead(net, rest);
      StreamRoundTrip(ms[1..], tail, limit);
      MessageRoundTrip(ms[0]);
      var frames := Deliver(rest, limit);
      assert |net.payload| <= limit && net.payload == Encode(ms[0]);
      assert Deliver(Frame(net) + rest, limit) == [net] + frames;
      assert ([net] + frames)[1..] == frames;
    }
  }

  /** A message over the limit: it and everything sent after it is lost, and the connection with it. */
  lemma OversizedDisconnects(m: Message, rest: Bytes, limit: nat)
    requires limit < |Encode(m)| < U32
    ensures var stream := Frame(Send(m)) + rest; Deliver(stream, limit) == [] && Disconnects(stream, limit)
  {
    hide Encode, Frame, FrameTopic, FrameLength;
    FrameHead(Send(m), rest);
  }

  // ------------------------------------------------------- one message on its way

  /** What a node under a size limit makes of one framed message: the message, or None where it ends the connection,
      because the reader refuses the frame or the dispatcher finds the payload malformed. */
  function Receipt(m: Message, limit: nat): Option<Message> {
    var frames := Deliver(Frame(Send(m)), limit);
    if frames == [] then None else
      var decoded := Decode(frames[0].topic, frames[0].payload);
      if decoded.Handled? then Some(decoded.message) else None
  }

  /** The payload is within the limit and its length within the 32-bit field. */
  predicate Carried(m: Message, limit: nat) { |Encode(m)| <= limit && |Encode(m)| < U32 }

  lemma CarriedIsReceived(m: Message, limit: nat)
    requires Carried(m, limit)
    ensures Receipt(m, limit) == Some(m)
  {
    hide Encode, Decode, Frame, FrameTopic, FrameLength;
    FrameHead(Send(m), []);
    assert Frame(Send(m)) + [] == Frame(Send(m));
    MessageRoundTrip(m);
  }

  /** A frame whose length field was cut to 32 bits. */
  lemma CutFrame(m: NetMessage)
    ensures var stream := Frame(m); var length := |m.payload| % U32;
      |stream| >= HEADER_SIZE + length && FrameTopic(stream) == m.topic && FrameLength(stream) == length &&
      stream[HEADER_SIZE..HEADER_SIZE + length] == m.payload[..length]
  {
    hide LE, FromLE, Pow256;
    var stream := Frame(m);
    assert stream[..2] == LE(2, m.topic) && stream[2..6] == LE(4, |m.payload|);
    assert m.topic < Pow256(2) by { FieldBounds(); }
    LEInverse(2, m.topic);
    PrefixValue(|m.payload|);
  }

  lemma CutPayloadFails(m: Message, n: nat)
    requires m.Blocks? && |m.blocks| < U32 && n < |Encode(m)| < SIZE_LIMIT
    ensures DecodeBlocks(Encode(m)[..n]).None?
  {
    hide LE, FromLE, ReadBlockList, EncodeBlockList;
    var whole, cut := Encode(m), Encode(m)[..n];
    if n >= 4 {
      var list := EncodeBlockList(m.blocks);
      assert cut[0..4] == LE(4, |m.blocks|);
      PrefixValue(|m.blocks|);
      var r := Skip(Start(cut), 4);
      assert cut[4..] == list[..n - 4];
      CutListFails(r, m.blocks, list);
    }
  }

  /** A block list message arrives exactly when it is carried; any other ends the connection. */
  lemma BlocksReceivedExactly(m: Message, limit: nat)
    requires m.Blocks? && |m.blocks| < U32 && |Encode(m)| < SIZE_LIMIT
    ensures Receipt(m, limit) == if Carried(m, limit) then Some(m) else None
  {
    hide Encode, DecodeBlocks, Frame, FrameTopic, FrameLength;
    if Carried(m, limit) {
      CarriedIsReceived(m, limit);
    } else if |Encode(m)| < U32 {
      OversizedDisconnects(m, [], limit);
      assert Frame(Send(m)) + [] == Frame(Send(m));
    } else {
      CutFrame(Send(m));
      CutPayloadFails(m, |Encode(m)| % U32);
    }
  }

  /** The handshake and the requests are far below any practical limit. */
  lemma ControlMessageSizes(m: Message)
    ensures m.Status? ==> |Encode(m)| == 52
    ensures m.GetBlocks? ==> |Encode(m)| == 12
  {
    hide LE;
  }

  /** A proper prefix of a frame delivers nothing. */
  lemma PartialFrameDeliversNothing(m: NetMessage, n: nat, limit: nat)
    requires |m.payload| < U32 && n < |Frame(m)|
    ensures Deliver(Frame(m)[..n], limit) == []
  {
    hide LE, FromLE, Pow256;
    if n >= HEADER_SIZE {
      var part := Frame(m)[..n];
      FrameHead(m, []);
      assert Frame(m) + [] == Frame(m);
      assert part[2..6] == Frame(m)[2..6];
    }
  }

  // ------------------------------------------------------- the code

  method EncodeMessage(m: Message) returns (bytes: Bytes)
    ensures bytes == Encode(m)
  {
    hide LE, EncodeBlock, EncodeTransaction;
    var writer := new ByteWriter();
    match m {
      case Status(version, chainId, height, headHash) =>
        writer.WriteLE(4, version);
        writer.WriteLE(8, chainId);
        writer.WriteLE(8, height);
        writer.WriteFixed(headHash);
      case Ping(nonce) => writer.WriteLE(8, nonce);
      case Pong(nonce) => writer.WriteLE(8, nonce);
      case NewBlock(block) =>
        var raw := EncodeBlockBytes(block);
        writer.WriteBytes(4, raw);
      case GetBlocks(fromHeight, maxCount) =>
        writer.WriteLE(8, fromHeight);
        writer.WriteLE(4, maxCount);
      case Blocks(blocks) =>
        WriteBlockList(writer, blocks);
      case NewTransaction(transaction) =>
        WriteWrappedTransaction(writer, transaction);
    }
    bytes := writer.bytes;
  }

  method WriteBlockList(writer: ByteWriter, blocks: seq<Block>)
    modifies writer
    ensures writer.bytes == old(writer.bytes) + (LE(4, |blocks|) + EncodeBlockList(blocks))
  {
    hide LE, EncodeBlock;
    writer.WriteLE(4, |blocks|);
    ghost var start := writer.bytes;
    var i := 0;
    while i < |blocks|
      invariant i <= |blocks|
      invariant writer.bytes + EncodeBlockList(blocks[i..]) == start + EncodeBlockList(blocks)
    {
      ghost var before, rest := writer.bytes, blocks[i..];
      var raw := EncodeBlockBytes(blocks[i]);
      writer.WriteBytes(4, raw);
      assert rest[1..] == blocks[i + 1..];
      assert writer.bytes + EncodeBlockList(rest[1..]) == before + EncodeBlockList(rest);
      i := i + 1;
    }
    assert writer.bytes == start + EncodeBlockList(blocks);
  }

  method WriteWrappedTransaction(writer: ByteWriter, t: Transaction)
    modifies writer
    ensures writer.bytes == old(writer.bytes) + Prefixed(4, EncodeTransaction(t))
  {
    hide LE, EncodeTransaction;
    var inner := new ByteWriter();
    WriteTransactionTo(inner, t);
    writer.WriteBytes(4, inner.bytes);
  }

  method DecodeBlocksBytes(payload: Bytes) returns (m: Option<Message>)
    ensures m == DecodeBlocks(payload)
  {
    hide Primitives.ReadLE, Primitives.ReadBytes, DecodeBlock;
    var reader := new ByteReader(payload);
    var count := reader.ReadLE(4);
    if count.None? { return None; }
    ghost var start := reader.State();
    var blocks: seq<Block>, i := [], 0;
    PrependedNothing(ReadBlockList(start, count.value));
    while i < count.value
      invariant i <= count.value
      invariant ReadBlockList(start, count.value) == Prepended(blocks, ReadBlockList(reader.State(), count.value - i))
    {
      var raw := reader.ReadBytes(4);
      if raw.None? { return None; }
      var block := DecodeBlockBytes(raw.value);
      if block.None? { return None; }
      PrependedStep(blocks, block.value, ReadBlockList(reader.State(), count.value - i - 1));
      blocks := blocks + [block.value];
      i := i + 1;
    }
    assert blocks + [] == blocks;
    var done := reader.Finished();
    if !done { return None; }
    return Some(Blocks(blocks));
  }

  method EncodeFrame(m: NetMessage) returns (frame: Bytes)
    ensures frame == Frame(m)
  {
    var length := |m.payload| % U32;
    frame := [m.topic % 256, (m.topic / 256) % 256];
    assert frame == LE(2, m.topic) by { assert LE(2, m.topic) == [m.topic % 256] + LE(1, m.topic / 256); }
    var i := 0;
    while i < 4
      invariant i <= 4 && frame == LE(2, m.topic) + LE(i, length)
    {
      LEAppend(i, length);
      frame := frame + [(length / Pow256(i)) % 256];
      i := i + 1;
    }
    LowBytes(|m.payload|);
    frame := frame + m.payload;
  }

  lemma HeaderSlices(stream: Bytes)
    requires |stream| >= HEADER_SIZE
    ensures stream[..HEADER_SIZE][..2] == stream[..2] && stream[..HEADER_SIZE][2..6] == stream[2..6]
  {
    var raw := stream[..HEADER_SIZE];
    assert |raw[2..6]| == |stream[2..6]| && forall k :: 0 <= k < 4 ==> raw[2..6][k] == stream[2..6][k];
  }

  method DecodeFrameHeader(raw: Bytes) returns (topic: nat, length: nat)
    requires |raw| == HEADER_SIZE
    ensures topic == FrameTopic(raw) && length == FrameLength(raw)
  {
    assert raw[..2] == [raw[0], raw[1]] && raw[..2][1..] == [raw[1]];
    var low: nat, high: nat := raw[0], raw[1];
    topic := low + high * 256;
    length := 0;
    var i := 0;
    while i < 4
      invariant i <= 4 && length == FromLE(raw[2..2 + i])
    {
      assert raw[2..2 + i] + [raw[2 + i]] == raw[2..2 + i + 1];
      FromLEAppend(raw[2..2 + i], raw[2 + i]);
      length := length + raw[2 + i] * Pow256(i);
      i := i + 1;
    }
    assert FromLE([raw[1]]) == raw[1];
  }

  /** The reader thread over the bytes a connection brings: exactly six bytes, the length check, exactly the payload.
      `refused` says that it stopped at a frame over the limit. */
  method ReaderLoop(stream: Bytes, limit: nat) returns (delivered: seq<NetMessage>, refused: bool)
    ensures delivered == Deliver(stream, limit) && refused == Disconnects(stream, limit)
  {
    hide LE, FromLE, Pow256;
    delivered, refused := [], false;
    var at := 0;
    while at + HEADER_SIZE <= |stream|
      invariant at <= |stream| && delivered + Deliver(stream[at..], limit) == Deliver(stream, limit)
      invariant !refused && Disconnects(stream[at..], limit) == Disconnects(stream, limit)
      decreases |stream| - at
    {
      ghost var rest := stream[at..];
      var raw := stream[at..at + HEADER_SIZE];
      assert raw == rest[..HEADER_SIZE];
      assert raw[..2] == rest[..2] && raw[2..6] == rest[2..6] by { HeaderSlices(rest); }
      var topic, length := DecodeFrameHeader(raw);
      if length > limit || at + HEADER_SIZE + length > |stream| {
        assert delivered + [] == delivered;
        return delivered, length > limit;
      }
      var payload := stream[at + HEADER_SIZE..at + HEADER_SIZE + length];
      FieldBounds();
      assert topic < 0x1_0000;
      assert payload == rest[HEADER_SIZE..HEADER_SIZE + length];
      assert stream[at + HEADER_SIZE + length..] == rest[HEADER_SIZE + length..];
      assert Deliver(rest, limit) == [NetMessage(topic, payload)] + Deliver(rest[HEADER_SIZE + length..], limit);
      assert delivered + ([NetMessage(topic, payload)] + Deliver(rest[HEADER_SIZE + length..], limit)) ==
        delivered + [NetMessage(topic, payload)] + Deliver(rest[HEADER_SIZE + length..], limit);
      delivered := delivered + [NetMessage(topic, payload)];
      at := at + HEADER_SIZE + length;
    }
    assert delivered + [] == delivered;
  }

  lemma LowBytes(n: nat)
    ensures LE(4, n % U32) == LE(4, n)
  {
    var k := n / U32;
    assert n == n % U32 + k * U32;
    assert n % 256 == (n % U32) % 256 && n / 256 == (n % U32) / 256 + k * 0x100_0000;
    var a, b := (n % U32) / 256, n / 256;
    assert b % 256 == a % 256 && b / 256 == a / 256 + k * 0x1_0000;
    var c, d := a / 256, b / 256;
    assert d % 256 == c % 256 && d / 256 == c / 256 + k * 0x100;
    var e, f := c / 256, d / 256;
    assert f % 256 == e % 256;
    assert LE(4, n) == [n % 256] + LE(3, b) == [n % 256, b % 256] + LE(2, d);
    assert LE(4, n % U32) == [n % 256] + LE(3, a) == [n % 256, a % 256] + LE(2, c);
    assert LE(2, d) == [d % 256, f % 256] && LE(2, c) == [c % 256, e % 256];
  }
}
