/** The reader is the exact inverse of the encoding: it accepts precisely the inputs that begin with an
    encoding, returns the encoded value, and consumes exactly its bytes. */
module CodecInverse {
  import opened Core
  import opened Numbers
  import opened Primitives

  /** The bytes at the reader's position begin with `enc`. */
  ghost predicate At(r: Reader, enc: Bytes) {
    r.offset + |enc| <= |r.data| && r.data[r.offset..r.offset + |enc|] == enc
  }

  ghost function Skip(r: Reader, n: nat): Reader { r.(offset := r.offset + n) }

  lemma AtSplit(r: Reader, a: Bytes, b: Bytes)
    requires At(r, a + b)
    ensures At(r, a) && At(Skip(r, |a|), b)
  {
    var whole := r.data[r.offset..r.offset + |a + b|];
    assert r.data[r.offset..r.offset + |a|] == whole[..|a|];
    assert r.data[r.offset + |a|..r.offset + |a| + |b|] == whole[|a|..];
    assert (a + b)[..|a|] == a && (a + b)[|a|..] == b;
  }

  lemma AtJoin(r: Reader, a: Bytes, b: Bytes)
    requires At(r, a) && At(Skip(r, |a|), b)
    ensures At(r, a + b)
  {
    var whole := r.data[r.offset..r.offset + |a + b|];
    assert r.data[r.offset..r.offset + |a|] == whole[..|a|];
    assert r.data[r.offset + |a|..r.offset + |a| + |b|] == whole[|a|..];
    assert whole == whole[..|a|] + whole[|a|..];
  }

  // ------------------------------------------------------- one field

  lemma NumberForward(r: Reader, n: nat, v: nat, rest: Bytes)
    requires At(r, LE(n, v) + rest) && v < Pow256(n)
    ensures ReadLE(r, n) == (Some(v), Skip(r, n)) && At(Skip(r, n), rest)
  {
    hide LE, FromLE, Pow256;
    AtSplit(r, LE(n, v), rest);
    LEInverse(n, v);
  }

  lemma NumberBackward(r: Reader, n: nat)
    requires ReadLE(r, n).0.Some?
    ensures At(r, LE(n, ReadLE(r, n).0.value)) && ReadLE(r, n).1 == Skip(r, n)
  {
    FromLEInverse(r.data[r.offset..r.offset + n]);
  }

  lemma FixedForward(r: Reader, b: Bytes, rest: Bytes)
    requires At(r, b + rest)
    ensures ReadFixed(r, |b|) == (Some(b), Skip(r, |b|)) && At(Skip(r, |b|), rest)
  {
    AtSplit(r, b, rest);
  }

  lemma FixedBackward(r: Reader, n: nat)
    requires ReadFixed(r, n).0.Some?
    ensures At(r, ReadFixed(r, n).0.value) && ReadFixed(r, n).1 == Skip(r, n)
  {
  }

  lemma BlobForward(r: Reader, w: nat, b: Bytes, rest: Bytes)
    requires Ready(r) && At(r, Prefixed(w, b) + rest) && |b| < Pow256(w)
    ensures ReadBytes(r, w) == (Some(b), Skip(r, w + |b|)) && At(Skip(r, w + |b|), rest)
  {
    hide LE, FromLE, Pow256;
    AtSplit(r, Prefixed(w, b), rest);
    NumberForward(r, w, |b|, b);
  }

  lemma BlobBackward(r: Reader, w: nat)
    requires Ready(r) && (w == 4 || w == 8) && ReadBytes(r, w).0.Some?
    ensures var b := ReadBytes(r, w).0.value;
      At(r, Prefixed(w, b)) && |b| < Pow256(w) && ReadBytes(r, w).1 == Skip(r, w + |b|)
  {
    hide LE, FromLE;
    var b := ReadBytes(r, w).0.value;
    var size := ReadLE(r, w).0.value;
    assert Pow256(4) < U64 && Pow256(8) == U64;
    assert |b| == size;
    NumberBackward(r, w);
    AtJoin(r, LE(w, |b|), b);
  }

  /** The 64-bit bound check of readBytes lets a wrapped end through exactly when the true end lies at or beyond
      2^64 and its remainder inside the data; any other accepted read copies `size` bytes that exist. */
  lemma ReadBytesUndefinedExactly(r: Reader, w: nat)
    requires Ready(r) && (w == 4 || w == 8)
    ensures ReadBytes(r, w).1.undefined <==>
      ReadLE(r, w).0.Some? && var end := r.offset + w + ReadLE(r, w).0.value; U64 <= end <= U64 + |r.data|
    ensures w == 4 ==> !ReadBytes(r, w).1.undefined
    ensures ReadBytes(r, w).0.Some? ==> !ReadBytes(r, w).1.undefined
  {
    assert Pow256(4) == 0x1_0000_0000 && Pow256(8) == U64;
  }

  // ------------------------------------------------------- headers

  lemma {:induction false} ExtensionsForward(r: Reader, es: seq<Extension>, rest: Bytes)
    requires Ready(r) && At(r, EncodeExtensions(es) + rest)
    ensures ReadExtensions(r, |es|) == (Some(es), Skip(r, |EncodeExtensions(es)|))
    ensures At(Skip(r, |EncodeExtensions(es)|), rest)
    decreases |es|
  {
    hide At, LE, FromLE, ReadLE, ReadBytes;
    AtSplit(r, EncodeExtensions(es), rest);
    if es != [] {
      var e, more := es[0], EncodeExtensions(es[1..]);
      assert Pow256(2) == 0x1_0000 && Pow256(8) == U64;
      NumberForward(r, 2, e.tag, Prefixed(8, e.payload) + more);
      BlobForward(Skip(r, 2), 8, e.payload, more);
      assert more + [] == more;
      ExtensionsForward(Skip(r, 10 + |e.payload|), es[1..], []);
      assert es == [e] + es[1..];
    }
  }

  lemma {:induction false} ListSizes(es: seq<Extension>, ts: seq<Transaction>)
    ensures |EncodeExtensions(es)| >= 10 * |es|
    ensures |EncodeTransactions(ts)| >= 73 * |ts|
    decreases |es| + |ts|
  {
    if es != [] { ListSizes(es[1..], []); }
    if ts != [] { ListSizes([], ts[1..]); }
  }

  lemma RootsForward(r: Reader, h: BlockHeader, rest: Bytes)
    requires Ready(r) && At(r, EncodeRoots(h) + rest)
    ensures ReadRoots(r) == (Some((h.version, h.parentHash, h.stateRoot, h.transactionsRoot)), Skip(r, |EncodeRoots(h)|))
    ensures At(Skip(r, |EncodeRoots(h)|), rest)
  {
    AtSplit(r, EncodeRoots(h), rest);
    assert Pow256(4) == 0x1_0000_0000;
    NumberForward(r, 4, h.version, h.parentHash + (h.stateRoot + h.transactionsRoot));
    FixedForward(Skip(r, 4), h.parentHash, h.stateRoot + h.transactionsRoot);
    FixedForward(Skip(r, 36), h.stateRoot, h.transactionsRoot);
  }

  lemma PositionForward(r: Reader, h: BlockHeader, rest: Bytes)
    requires Ready(r) && At(r, EncodePosition(h) + rest)
    ensures ReadPosition(r) == (Some((h.height, h.timestamp, h.beneficiary)), Skip(r, |EncodePosition(h)|))
    ensures At(Skip(r, |EncodePosition(h)|), rest)
  {
    AtSplit(r, EncodePosition(h), rest);
    assert Pow256(8) == U64;
    NumberForward(r, 8, h.height, LE(8, h.timestamp) + h.beneficiary);
    NumberForward(Skip(r, 8), 8, h.timestamp, h.beneficiary);
  }

  lemma TailForward(r: Reader, h: BlockHeader, rest: Bytes)
    requires Ready(r) && At(r, EncodeTail(h) + rest)
    ensures ReadTail(r) == (Some((h.extraData, h.consensusSeal, h.extensions)), Skip(r, |EncodeTail(h)|))
    ensures At(Skip(r, |EncodeTail(h)|), rest)
  {
    hide At, LE, FromLE, ReadLE, ReadBytes, ReadExtensions, EncodeExtensions;
    AtSplit(r, EncodeTail(h), rest);
    assert Pow256(8) == U64;
    var es := EncodeExtensions(h.extensions);
    ListSizes(h.extensions, []);
    BlobForward(r, 8, h.extraData, Prefixed(8, h.consensusSeal) + (LE(8, |h.extensions|) + es));
    var r1 := Skip(r, 8 + |h.extraData|);
    BlobForward(r1, 8, h.consensusSeal, LE(8, |h.extensions|) + es);
    var r2 := Skip(r1, 8 + |h.consensusSeal|);
    NumberForward(r2, 8, |h.extensions|, es);
    assert es + [] == es;
    ExtensionsForward(Skip(r2, 8), h.extensions, []);
  }

  lemma HeaderForward(r: Reader, h: BlockHeader, rest: Bytes)
    requires Ready(r) && At(r, EncodeHeader(h) + rest)
    ensures ReadHeader(r) == (Some(h), Skip(r, |EncodeHeader(h)|)) && At(Skip(r, |EncodeHeader(h)|), rest)
  {
    hide At, EncodeRoots, EncodePosition, EncodeTail, ReadRoots, ReadPosition, ReadTail;
    AtSplit(r, EncodeHeader(h), rest);
    RootsForward(r, h, EncodePosition(h) + EncodeTail(h));
    var r1 := Skip(r, |EncodeRoots(h)|);
    PositionForward(r1, h, EncodeTail(h));
    assert EncodeTail(h) + [] == EncodeTail(h);
    TailForward(Skip(r1, |EncodePosition(h)|), h, []);
  }

  lemma {:induction false} ExtensionsBackward(r: Reader, count: nat)
    requires Ready(r) && ReadExtensions(r, count).0.Some?
    ensures var es := ReadExtensions(r, count).0.value;
      At(r, EncodeExtensions(es)) && |es| == count && ReadExtensions(r, count).1 == Skip(r, |EncodeExtensions(es)|)
    decreases count
  {
    hide At, LE, FromLE, ReadLE, ReadBytes;
    if count == 0 {
      assert At(r, []) by { AtEmpty(r); }
    } else {
      var (tag, r1) := ReadLE(r, 2);
      NumberBackward(r, 2);
      var (payload, r2) := ReadBytes(r1, 8);
      ReadyStays(r, LE(2, tag.value));
      BlobBackward(r1, 8);
      ReadyStays(r1, Prefixed(8, payload.value));
      ExtensionsBackward(r2, count - 1);
      var rest := ReadExtensions(r2, count - 1).0.value;
      var es := [Extension(tag.value, payload.value)] + rest;
      assert es[1..] == rest;
      AtJoin(r1, Prefixed(8, payload.value), EncodeExtensions(rest));
      AtJoin(r, LE(2, tag.value), Prefixed(8, payload.value) + EncodeExtensions(rest));
    }
  }

  lemma AtEmpty(r: Reader)
    requires Ready(r)
    ensures At(r, [])
  {
  }

  lemma ReadyStays(r: Reader, enc: Bytes)
    requires Ready(r) && At(r, enc)
    ensures Ready(Skip(r, |enc|))
  {
  }

  lemma RootsBackward(r: Reader, h: BlockHeader)
    requires Ready(r) && ReadRoots(r).0 == Some((h.version, h.parentHash, h.stateRoot, h.transactionsRoot))
    ensures At(r, EncodeRoots(h)) && ReadRoots(r).1 == Skip(r, |EncodeRoots(h)|)
  {
    hide At, LE, FromLE, ReadLE, ReadFixed;
    NumberBackward(r, 4);
    var r1 := Skip(r, 4);
    FixedBackward(r1, 32);
    var r2 := Skip(r1, 32);
    FixedBackward(r2, 32);
    FixedBackward(Skip(r2, 32), 32);
    AtJoin(r2, h.stateRoot, h.transactionsRoot);
    AtJoin(r1, h.parentHash, h.stateRoot + h.transactionsRoot);
    AtJoin(r, LE(4, h.version), h.parentHash + (h.stateRoot + h.transactionsRoot));
  }

  lemma PositionBackward(r: Reader, h: BlockHeader)
    requires Ready(r) && ReadPosition(r).0 == Some((h.height, h.timestamp, h.beneficiary))
    ensures At(r, EncodePosition(h)) && ReadPosition(r).1 == Skip(r, |EncodePosition(h)|)
  {
    hide At, LE, FromLE, ReadLE, ReadFixed;
    NumberBackward(r, 8);
    var r1 := Skip(r, 8);
    NumberBackward(r1, 8);
    FixedBackward(Skip(r1, 8), 20);
    AtJoin(r1, LE(8, h.timestamp), h.beneficiary);
    AtJoin(r, LE(8, h.height), LE(8, h.timestamp) + h.beneficiary);
  }

  lemma TailBackward(r: Reader, h: BlockHeader)
    requires Ready(r) && ReadTail(r).0 == Some((h.extraData, h.consensusSeal, h.extensions))
    ensures At(r, EncodeTail(h)) && ReadTail(r).1 == Skip(r, |EncodeTail(h)|)
  {
    hide At, LE, FromLE, ReadLE, ReadBytes, ReadExtensions, EncodeExtensions;
    BlobBackward(r, 8);
    ReadyStays(r, Prefixed(8, h.extraData));
    var r1 := Skip(r, 8 + |h.extraData|);
    BlobBackward(r1, 8);
    ReadyStays(r1, Prefixed(8, h.consensusSeal));
    var r2 := Skip(r1, 8 + |h.consensusSeal|);
    NumberBackward(r2, 8);
    var count := ReadLE(r2, 8).0.value;
    ReadyStays(r2, LE(8, count));
    ExtensionsBackward(Skip(r2, 8), count);
    var es := EncodeExtensions(h.extensions);
    AtJoin(r2, LE(8, count), es);
    AtJoin(r1, Prefixed(8, h.consensusSeal), LE(8, count) + es);
    AtJoin(r, Prefixed(8, h.extraData), Prefixed(8, h.consensusSeal) + (LE(8, count) + es));
  }

  lemma HeaderBackward(r: Reader)
    requires Ready(r) && ReadHeader(r).0.Some?
    ensures var h := ReadHeader(r).0.value;
      At(r, EncodeHeader(h)) && ReadHeader(r).1 == Skip(r, |EncodeHeader(h)|)
  {
    hide At, EncodeRoots, EncodePosition, EncodeTail, ReadRoots, ReadPosition, ReadTail;
    var h := ReadHeader(r).0.value;
    assert ReadRoots(r).0.value == (h.version, h.parentHash, h.stateRoot, h.transactionsRoot);
    RootsBackward(r, h);
    ReadyStays(r, EncodeRoots(h));
    var r1 := Skip(r, |EncodeRoots(h)|);
    assert ReadPosition(r1).0.value == (h.height, h.timestamp, h.beneficiary);
    PositionBackward(r1, h);
    ReadyStays(r1, EncodePosition(h));
    var r2 := Skip(r1, |EncodePosition(h)|);
    assert ReadTail(r2).0.value == (h.extraData, h.consensusSeal, h.extensions);
    TailBackward(r2, h);
    AtJoin(r1, EncodePosition(h), EncodeTail(h));
    AtJoin(r, EncodeRoots(h), EncodePosition(h) + EncodeTail(h));
  }

  // ------------------------------------------------------- transactions and blocks

  lemma TransferForward(r: Reader, t: Transaction, rest: Bytes)
    requires Ready(r) && At(r, EncodeTransfer(t) + rest)
    ensures ReadTransfer(r) == (Some((t.kind, t.from, t.to, t.value, t.nonce)), Skip(r, |EncodeTransfer(t)|))
    ensures At(Skip(r, |EncodeTransfer(t)|), rest)
  {
    hide At, LE, FromLE, ReadLE, ReadFixed;
    AtSplit(r, EncodeTransfer(t), rest);
    assert Pow256(8) == U64 && Pow256(1) == 0x100;
    NumberForward(r, 1, t.kind, t.from + (t.to + (LE(8, t.value) + LE(8, t.nonce))));
    FixedForward(Skip(r, 1), t.from, t.to + (LE(8, t.value) + LE(8, t.nonce)));
    FixedForward(Skip(r, 21), t.to, LE(8, t.value) + LE(8, t.nonce));
    NumberForward(Skip(r, 41), 8, t.value, LE(8, t.nonce));
    assert LE(8, t.nonce) + [] == LE(8, t.nonce);
    NumberForward(Skip(r, 49), 8, t.nonce, []);
  }

  lemma TransferBackward(r: Reader, t: Transaction)
    requires Ready(r) && ReadTransfer(r).0 == Some((t.kind, t.from, t.to, t.value, t.nonce))
    ensures At(r, EncodeTransfer(t)) && ReadTransfer(r).1 == Skip(r, |EncodeTransfer(t)|)
  {
    hide At, LE, FromLE, ReadLE, ReadFixed;
    NumberBackward(r, 1);
    var r1 := Skip(r, 1);
    FixedBackward(r1, 20);
    var r2 := Skip(r1, 20);
    FixedBackward(r2, 20);
    var r3 := Skip(r2, 20);
    NumberBackward(r3, 8);
    NumberBackward(Skip(r3, 8), 8);
    AtJoin(r3, LE(8, t.value), LE(8, t.nonce));
    AtJoin(r2, t.to, LE(8, t.value) + LE(8, t.nonce));
    AtJoin(r1, t.from, t.to + (LE(8, t.value) + LE(8, t.nonce)));
    AtJoin(r, LE(1, t.kind), t.from + (t.to + (LE(8, t.value) + LE(8, t.nonce))));
  }

  lemma TransactionForward(r: Reader, t: Transaction, rest: Bytes)
    requires Ready(r) && At(r, EncodeTransaction(t) + rest)
    ensures ReadTransaction(r) == (Some(t), Skip(r, |EncodeTransaction(t)|)) && At(Skip(r, |EncodeTransaction(t)|), rest)
  {
    hide At, LE, EncodeTransfer, ReadBytes, ReadTransfer;
    AtSplit(r, EncodeTransaction(t), rest);
    assert |EncodeTransaction(t)| < Pow256(8) by { SizeWithin(r, EncodeTransaction(t)); }
    TransferForward(r, t, Prefixed(8, t.payload) + Prefixed(8, t.signature));
    var r1 := Skip(r, |EncodeTransfer(t)|);
    BlobForward(r1, 8, t.payload, Prefixed(8, t.signature));
    assert Prefixed(8, t.signature) + [] == Prefixed(8, t.signature);
    BlobForward(Skip(r1, 8 + |t.payload|), 8, t.signature, []);
  }

  lemma SizeWithin(r: Reader, enc: Bytes)
    requires Ready(r) && At(r, enc)
    ensures |enc| < SIZE_LIMIT
  {
  }

  lemma TransactionBackward(r: Reader)
    requires Ready(r) && ReadTransaction(r).0.Some?
    ensures var t := ReadTransaction(r).0.value;
      At(r, EncodeTransaction(t)) && ReadTransaction(r).1 == Skip(r, |EncodeTransaction(t)|)
  {
    hide At, LE, EncodeTransfer, ReadBytes, ReadTransfer;
    var t := ReadTransaction(r).0.value;
    assert ReadTransfer(r).0.value == (t.kind, t.from, t.to, t.value, t.nonce);
    TransferBackward(r, t);
    ReadyStays(r, EncodeTransfer(t));
    var r1 := Skip(r, |EncodeTransfer(t)|);
    BlobBackward(r1, 8);
    ReadyStays(r1, Prefixed(8, t.payload));
    var r2 := Skip(r1, 8 + |t.payload|);
    BlobBackward(r2, 8);
    AtJoin(r1, Prefixed(8, t.payload), Prefixed(8, t.signature));
    AtJoin(r, EncodeTransfer(t), Prefixed(8, t.payload) + Prefixed(8, t.signature));
  }

  lemma {:induction false} TransactionsForward(r: Reader, ts: seq<Transaction>, rest: Bytes)
    requires Ready(r) && At(r, EncodeTransactions(ts) + rest)
    ensures ReadTransactions(r, |ts|) == (Some(ts), Skip(r, |EncodeTransactions(ts)|))
    ensures At(Skip(r, |EncodeTransactions(ts)|), rest)
    decreases |ts|
  {
    hide At, Ready, EncodeTransaction, ReadTransaction;
    AtSplit(r, EncodeTransactions(ts), rest);
    if ts != [] {
      var more := EncodeTransactions(ts[1..]);
      TransactionForward(r, ts[0], more);
      AtSplit(r, EncodeTransaction(ts[0]), more);
      ReadyStays(r, EncodeTransaction(ts[0]));
      assert more + [] == more;
      TransactionsForward(Skip(r, |EncodeTransaction(ts[0])|), ts[1..], []);
      assert ts == [ts[0]] + ts[1..];
    }
  }

  lemma {:induction false} TransactionsBackward(r: Reader, count: nat)
    requires Ready(r) && ReadTransactions(r, count).0.Some?
    ensures var ts := ReadTransactions(r, count).0.value;
      At(r, EncodeTransactions(ts)) && |ts| == count && ReadTransactions(r, count).1 == Skip(r, |EncodeTransactions(ts)|)
    decreases count
  {
    hide At, EncodeTransaction, ReadTransaction;
    if count == 0 {
      AtEmpty(r);
    } else {
      var (t, r1) := ReadTransaction(r);
      TransactionBackward(r);
      ReadyStays(r, EncodeTransaction(t.value));
      TransactionsBackward(r1, count - 1);
      var rest := ReadTransactions(r1, count - 1).0.value;
      assert ([t.value] + rest)[1..] == rest;
      AtJoin(r, EncodeTransaction(t.value), EncodeTransactions(rest));
    }
  }

  lemma BlockForward(r: Reader, b: Block, rest: Bytes)
    requires Ready(r) && At(r, EncodeBlock(b) + rest)
    ensures ReadBlock(r) == (Some(b), Skip(r, |EncodeBlock(b)|)) && At(Skip(r, |EncodeBlock(b)|), rest)
  {
    hide At, Ready, LE, EncodeHeader, EncodeTransactions, ReadHeader, ReadTransactions, ReadLE;
    AtSplit(r, EncodeBlock(b), rest);
    assert |b.transactions| < Pow256(8) by {
      SizeWithin(r, EncodeBlock(b));
      ListSizes([], b.transactions);
    }
    var ts := EncodeTransactions(b.transactions);
    HeaderForward(r, b.header, LE(8, |b.transactions|) + ts);
    AtSplit(r, EncodeHeader(b.header), LE(8, |b.transactions|) + ts);
    ReadyStays(r, EncodeHeader(b.header));
    var r1 := Skip(r, |EncodeHeader(b.header)|);
    NumberForward(r1, 8, |b.transactions|, ts);
    AtSplit(r1, LE(8, |b.transactions|), ts);
    ReadyStays(r1, LE(8, |b.transactions|));
    assert ts + [] == ts;
    TransactionsForward(Skip(r1, 8), b.transactions, []);
  }

  lemma BlockBackward(r: Reader)
    requires Ready(r) && ReadBlock(r).0.Some?
    ensures var b := ReadBlock(r).0.value;
      At(r, EncodeBlock(b)) && ReadBlock(r).1 == Skip(r, |EncodeBlock(b)|)
  {
    hide At, LE, EncodeHeader, EncodeTransactions, ReadHeader, ReadTransactions, ReadLE;
    var b := ReadBlock(r).0.value;
    HeaderBackward(r);
    ReadyStays(r, EncodeHeader(b.header));
    var r1 := Skip(r, |EncodeHeader(b.header)|);
    NumberBackward(r1, 8);
    var count := ReadLE(r1, 8).0.value;
    ReadyStays(r1, LE(8, count));
    TransactionsBackward(Skip(r1, 8), count);
    AtJoin(r1, LE(8, count), EncodeTransactions(b.transactions));
    AtJoin(r, EncodeHeader(b.header), LE(8, count) + EncodeTransactions(b.transactions));
  }

  // ------------------------------------------------------- the codec laws

  lemma BeginsAt(data: Bytes, enc: Bytes) returns (rest: Bytes)
    requires enc <= data && |data| < SIZE_LIMIT
    ensures At(Start(data), enc + rest) && Ready(Start(data))
  {
    rest := data[|enc|..];
    assert data[0..|enc + rest|] == enc + rest;
  }

  lemma AtStart(data: Bytes, enc: Bytes)
    requires At(Start(data), enc)
    ensures enc <= data
  {
    assert data[0..|enc|] == enc;
  }

  /** The reader never copied a range that ends before it starts, so the source's behaviour is defined. Module
      CodecDefined says for which inputs. */
  predicate BlockDefined(data: Bytes) { !ReadBlock(Start(data)).1.undefined }

  predicate HeaderDefined(data: Bytes) { !ReadHeader(Start(data)).1.undefined }

  predicate TransactionDefined(data: Bytes) { !ReadTransaction(Start(data)).1.undefined }

  /** An input that begins with the encoding of `b` is decoded, to `b`; where decoding is defined, no other input is. */
  lemma BlockDecodesExactly(data: Bytes, b: Block)
    requires |data| < SIZE_LIMIT
    ensures EncodeBlock(b) <= data ==>
      BlockDefined(data) && ReadBlock(Start(data)) == (Some(b), Reader(data, |EncodeBlock(b)|, false))
    ensures BlockDefined(data) ==> (DecodeBlock(data) == Some(b) <==> EncodeBlock(b) <= data)
  {
    hide EncodeBlock, ReadBlock, At;
    var r := Start(data);
    if EncodeBlock(b) <= data {
      var rest := BeginsAt(data, EncodeBlock(b));
      BlockForward(r, b, rest);
    }
    if DecodeBlock(data) == Some(b) {
      BlockBackward(r);
      AtStart(data, EncodeBlock(b));
    }
  }

  lemma HeaderDecodesExactly(data: Bytes, h: BlockHeader)
    requires |data| < SIZE_LIMIT
    ensures EncodeHeader(h) <= data ==>
      HeaderDefined(data) && ReadHeader(Start(data)) == (Some(h), Reader(data, |EncodeHeader(h)|, false))
    ensures HeaderDefined(data) ==> (DecodeHeader(data) == Some(h) <==> EncodeHeader(h) <= data)
  {
    hide EncodeHeader, ReadHeader, At;
    var r := Start(data);
    if EncodeHeader(h) <= data {
      var rest := BeginsAt(data, EncodeHeader(h));
      HeaderForward(r, h, rest);
    }
    if DecodeHeader(data) == Some(h) {
      HeaderBackward(r);
      AtStart(data, EncodeHeader(h));
    }
  }

  lemma TransactionDecodesExactly(data: Bytes, t: Transaction)
    requires |data| < SIZE_LIMIT
    ensures EncodeTransaction(t) <= data ==>
      TransactionDefined(data) && ReadTransaction(Start(data)) == (Some(t), Reader(data, |EncodeTransaction(t)|, false))
    ensures TransactionDefined(data) ==> (DecodeTransaction(data) == Some(t) <==> EncodeTransaction(t) <= data)
  {
    hide EncodeTransaction, ReadTransaction, At;
    var r := Start(data);
    if EncodeTransaction(t) <= data {
      var rest := BeginsAt(data, EncodeTransaction(t));
      TransactionForward(r, t, rest);
    }
    if DecodeTransaction(data) == Some(t) {
      TransactionBackward(r);
      AtStart(data, EncodeTransaction(t));
    }
  }

  /** Encodings are injective and no encoding is a proper prefix of another. */
  lemma EncodingsArePrefixFree(a: Block, x: Bytes, b: Block, y: Bytes)
    requires EncodeBlock(a) + x == EncodeBlock(b) + y && |EncodeBlock(a) + x| < SIZE_LIMIT
    ensures a == b && x == y
  {
    var data := EncodeBlock(a) + x;
    BlockDecodesExactly(data, a);
    BlockDecodesExactly(data, b);
    assert x == data[|EncodeBlock(a)|..] && y == data[|EncodeBlock(b)|..];
  }

  lemma HeaderEncodingInjective(a: BlockHeader, b: BlockHeader)
    requires EncodeHeader(a) == EncodeHeader(b) && |EncodeHeader(a)| < SIZE_LIMIT
    ensures a == b
  {
    HeaderDecodesExactly(EncodeHeader(a), a);
    HeaderDecodesExactly(EncodeHeader(a), b);
  }

  /** The decode loops are bounded by the bytes they consume, whatever count the input claims. */
  lemma DecodedCountsAreBounded(data: Bytes)
    requires |data| < SIZE_LIMIT && DecodeBlock(data).Some?
    ensures var b := DecodeBlock(data).value;
      10 * |b.header.extensions| + 73 * |b.transactions| <= |data|
  {
    var b := DecodeBlock(data).value;
    BlockBackward(Start(data));
    ListSizes(b.header.extensions, []);
    ListSizes([], b.transactions);
  }

  /** What is signed fixes the chain and everything in the transaction but the signature itself. */
  lemma SigningBytesDetermine(s: Transaction, c: u64, t: Transaction, d: u64)
    requires EncodeForSigning(s, c) == EncodeForSigning(t, d) && |EncodeForSigning(s, c)| < SIZE_LIMIT
    ensures c == d && s.(signature := []) == t.(signature := [])
  {
    var data := EncodeForSigning(s, c);
    var r := Start(data);
    assert At(r, data) by { assert data[0..|data|] == data; }
    hide At, LE, EncodeTransfer, ReadBytes, ReadTransfer, ReadLE, EncodeForSigning;
    SigningForward(r, s, c);
    SigningForward(r, t, d);
  }

  lemma SigningForward(r: Reader, t: Transaction, chainId: u64)
    requires Ready(r) && At(r, EncodeForSigning(t, chainId))
    ensures var (transfer, r1) := ReadTransfer(r); var (payload, r2) := ReadBytes(r1, 8); var (id, _) := ReadLE(r2, 8);
      transfer == Some((t.kind, t.from, t.to, t.value, t.nonce)) && payload == Some(t.payload) && id == Some(chainId as nat)
  {
    hide At, LE, EncodeTransfer, ReadBytes, ReadTransfer, ReadLE;
    assert |EncodeForSigning(t, chainId)| < Pow256(8) by { SizeWithin(r, EncodeForSigning(t, chainId)); }
    assert chainId < Pow256(8);
    TransferForward(r, t, Prefixed(8, t.payload) + LE(8, chainId));
    AtSplit(r, EncodeTransfer(t), Prefixed(8, t.payload) + LE(8, chainId));
    ReadyStays(r, EncodeTransfer(t));
    var r1 := Skip(r, |EncodeTransfer(t)|);
    BlobForward(r1, 8, t.payload, LE(8, chainId));
    assert LE(8, chainId) + [] == LE(8, chainId);
    NumberForward(Skip(r1, 8 + |t.payload|), 8, chainId, []);
  }
}
