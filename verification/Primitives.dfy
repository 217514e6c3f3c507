/** Blocks and their canonical encoding: the byte format and the reader's accept/reject behaviour as functions. */
module Primitives {
  import opened Core
  import opened Numbers

  datatype Extension = Extension(tag: u16, payload: Bytes)

  datatype BlockHeader = BlockHeader(
    version: u32,
    parentHash: Hash256,
    stateRoot: Hash256,
    transactionsRoot: Hash256,
    height: u64,
    timestamp: u64,
    beneficiary: Address,
    extraData: Bytes,
    consensusSeal: Bytes,
    extensions: seq<Extension>)

  datatype Transaction = Transaction(
    kind: u8,
    from: Address,
    to: Address,
    value: u64,
    nonce: u64,
    payload: Bytes,
    signature: Bytes)

  datatype Block = Block(header: BlockHeader, transactions: seq<Transaction>)

  // ---------------------------------------------------------------- encoding

  /** A length prefix of `w` bytes, then the bytes. The prefix keeps only the low bytes of the length. */
  function Prefixed(w: nat, b: Bytes): Bytes { LE(w, |b|) + b }

  function EncodeExtensions(es: seq<Extension>): Bytes {
    if es == [] then [] else LE(2, es[0].tag) + (Prefixed(8, es[0].payload) + EncodeExtensions(es[1..]))
  }

  /** The fields up to the state and transaction roots. */
  function EncodeRoots(h: BlockHeader): Bytes {
    LE(4, h.version) + (h.parentHash + (h.stateRoot + h.transactionsRoot))
  }

  function EncodePosition(h: BlockHeader): Bytes {
    LE(8, h.height) + (LE(8, h.timestamp) + h.beneficiary)
  }

  /** The fields of variable length. */
  function EncodeTail(h: BlockHeader): Bytes {
    Prefixed(8, h.extraData) + (Prefixed(8, h.consensusSeal) + (LE(8, |h.extensions|) + EncodeExtensions(h.extensions)))
  }

  function EncodeHeader(h: BlockHeader): Bytes {
    EncodeRoots(h) + (EncodePosition(h) + EncodeTail(h))
  }

  function EncodeTransfer(t: Transaction): Bytes {
    LE(1, t.kind) + (t.from + (t.to + (LE(8, t.value) + LE(8, t.nonce))))
  }

  function EncodeTransaction(t: Transaction): Bytes {
    EncodeTransfer(t) + (Prefixed(8, t.payload) + Prefixed(8, t.signature))
  }

  function EncodeForSigning(t: Transaction, chainId: u64): Bytes {
    EncodeTransfer(t) + (Prefixed(8, t.payload) + LE(8, chainId))
  }

  function EncodeTransactions(ts: seq<Transaction>): Bytes {
    if ts == [] then [] else EncodeTransaction(ts[0]) + EncodeTransactions(ts[1..])
  }

  function EncodeBlock(b: Block): Bytes {
    EncodeHeader(b.header) + (LE(8, |b.transactions|) + EncodeTransactions(b.transactions))
  }

  // ---------------------------------------------------------------- reading

  /** A read position in a byte view. `undefined` records that a range with its end before its start was
      copied, after which the source's behaviour is undefined and nothing is claimed. */
  datatype Reader = Reader(data: Bytes, offset: nat, undefined: bool)

  ghost predicate Ready(r: Reader) {
    |r.data| < SIZE_LIMIT && r.offset <= |r.data| && !r.undefined
  }

  function ReadLE(r: Reader, n: nat): (res: (Option<nat>, Reader))
    ensures res.0.Some? ==> res.0.value < Pow256(n)
  {
    if r.offset + n > |r.data| then (None, r)
    else (Some(FromLE(r.data[r.offset..r.offset + n])), r.(offset := r.offset + n))
  }

  function ReadFixed(r: Reader, n: nat): (res: (Option<Bytes>, Reader))
    ensures res.0.Some? ==> |res.0.value| == n
  {
    if r.offset + n > |r.data| then (None, r)
    else (Some(r.data[r.offset..r.offset + n]), r.(offset := r.offset + n))
  }

  /** `offset + size` is computed in 64 bits and may wrap to a position before the offset. */
  function ReadBytes(r: Reader, w: nat): (Option<Bytes>, Reader) {
    var (size, r1) := ReadLE(r, w);
    if size.None? then (None, r1) else
      var end := (r1.offset + size.value) % U64;
      if end > |r1.data| then (None, r1)
      else if end < r1.offset then (None, r1.(undefined := true))
      else (Some(r1.data[r1.offset..end]), r1.(offset := end))
  }

  function ReadExtensions(r: Reader, count: nat): (Option<seq<Extension>>, Reader)
    decreases count
  {
    if count == 0 then (Some([]), r) else
      var (tag, r1) := ReadLE(r, 2);
      var (payload, r2) := ReadBytes(r1, 8);
      if tag.None? || payload.None? then (None, r2) else
        var (rest, r3) := ReadExtensions(r2, count - 1);
        (if rest.None? then None else Some([Extension(tag.value, payload.value)] + rest.value), r3)
  }

  /** Each helper below reads the fields between two of the source's error checks. */
  function ReadRoots(r: Reader): (Option<(u32, Hash256, Hash256, Hash256)>, Reader) {
    var (version, r1) := ReadLE(r, 4);
    if version.None? then (None, r1) else
    var (parentHash, r2) := ReadFixed(r1, 32);
    var (stateRoot, r3) := ReadFixed(r2, 32);
    var (transactionsRoot, r4) := ReadFixed(r3, 32);
    if parentHash.None? || stateRoot.None? || transactionsRoot.None? then (None, r4) else
    (Some((version.value, parentHash.value, stateRoot.value, transactionsRoot.value)), r4)
  }

  function ReadPosition(r: Reader): (Option<(u64, u64, Address)>, Reader) {
    var (height, r1) := ReadLE(r, 8);
    var (timestamp, r2) := ReadLE(r1, 8);
    var (beneficiary, r3) := ReadFixed(r2, 20);
    if height.None? || timestamp.None? || beneficiary.None? then (None, r3) else
    (Some((height.value, timestamp.value, beneficiary.value)), r3)
  }

  function ReadTail(r: Reader): (Option<(Bytes, Bytes, seq<Extension>)>, Reader) {
    var (extraData, r1) := ReadBytes(r, 8);
    var (consensusSeal, r2) := ReadBytes(r1, 8);
    var (count, r3) := ReadLE(r2, 8);
    if extraData.None? || consensusSeal.None? || count.None? then (None, r3) else
    var (extensions, r4) := ReadExtensions(r3, count.value);
    if extensions.None? then (None, r4) else
    (Some((extraData.value, consensusSeal.value, extensions.value)), r4)
  }

  function ReadHeader(r: Reader): (Option<BlockHeader>, Reader) {
    var (roots, r1) := ReadRoots(r);
    if roots.None? then (None, r1) else
    var (position, r2) := ReadPosition(r1);
    if position.None? then (None, r2) else
    var (tail, r3) := ReadTail(r2);
    if tail.None? then (None, r3) else
    var (version, parentHash, stateRoot, transactionsRoot) := roots.value;
    var (height, timestamp, beneficiary) := position.value;
    var (extraData, consensusSeal, extensions) := tail.value;
    (Some(BlockHeader(version, parentHash, stateRoot, transactionsRoot, height, timestamp, beneficiary,
                      extraData, consensusSeal, extensions)), r3)
  }

  function ReadTransfer(r: Reader): (Option<(u8, Address, Address, u64, u64)>, Reader) {
    var (kind, r1) := ReadLE(r, 1);
    var (from, r2) := ReadFixed(r1, 20);
    var (to, r3) := ReadFixed(r2, 20);
    var (value, r4) := ReadLE(r3, 8);
    var (nonce, r5) := ReadLE(r4, 8);
    if kind.None? || from.None? || to.None? || value.None? || nonce.None? then (None, r5) else
    (Some((kind.value, from.value, to.value, value.value, nonce.value)), r5)
  }

  function ReadTransaction(r: Reader): (Option<Transaction>, Reader) {
    var (transfer, r1) := ReadTransfer(r);
    if transfer.None? then (None, r1) else
    var (payload, r2) := ReadBytes(r1, 8);
    var (signature, r3) := ReadBytes(r2, 8);
    if payload.None? || signature.None? then (None, r3) else
    var (kind, from, to, value, nonce) := transfer.value;
    (Some(Transaction(kind, from, to, value, nonce, payload.value, signature.value)), r3)
  }

  function ReadTransactions(r: Reader, count: nat): (Option<seq<Transaction>>, Reader)
    decreases count
  {
    if count == 0 then (Some([]), r) else
      var (t, r1) := ReadTransaction(r);
      if t.None? then (None, r1) else
        var (rest, r2) := ReadTransactions(r1, count - 1);
        (if rest.None? then None else Some([t.value] + rest.value), r2)
  }

  function ReadBlock(r: Reader): (Option<Block>, Reader) {
    var (header, r1) := ReadHeader(r);
    if header.None? then (None, r1) else
    var (count, r2) := ReadLE(r1, 8);
    if count.None? then (None, r2) else
    var (transactions, r3) := ReadTransactions(r2, count.value);
    (if transactions.None? then None else Some(Block(header.value, transactions.value)), r3)
  }

  function Start(data: Bytes): Reader { Reader(data, 0, false) }

  function DecodeHeader(data: Bytes): Option<BlockHeader> { ReadHeader(Start(data)).0 }

  function DecodeTransaction(data: Bytes): Option<Transaction> { ReadTransaction(Start(data)).0 }

  function DecodeBlock(data: Bytes): Option<Block> { ReadBlock(Start(data)).0 }
}
