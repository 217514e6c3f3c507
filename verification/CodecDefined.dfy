/** For which inputs decoding is defined. The reader checks `offset + size` in 64 bits; a size field whose true end
    lies at or beyond 2^64 passes the check with an end before its start. These are the inputs on which a decoder
    reaches such a field, described by the format alone. */
module CodecDefined {
  import opened Core
  import opened Numbers
  import opened Primitives
  import opened CodecInverse

  ghost function SizeAt(data: Bytes, k: nat): nat
    requires k + 8 <= |data|
  {
    FromLE(data[k..k + 8])
  }

  /** A size field at the reader's position whose bytes would end at or beyond 2^64. */
  ghost predicate Wraps(r: Reader) {
    r.offset + 8 <= |r.data| && r.offset + 8 + SizeAt(r.data, r.offset) >= U64
  }

  /** A size field that is merely too large for the data. It is rejected, but the position has moved past it. */
  ghost predicate TooLong(r: Reader) {
    r.offset + 8 <= |r.data| && |r.data| < r.offset + 8 + SizeAt(r.data, r.offset) < U64
  }

  /** Two byte strings in a row. The second is read even when the first was rejected. */
  ghost predicate PairWraps(r: Reader) {
    Wraps(r) || (TooLong(r) && Wraps(Skip(r, 8))) ||
    exists b: Bytes :: At(r, Prefixed(8, b)) && Wraps(Skip(r, 8 + |b|))
  }

  /** Fewer than `count` complete extensions, then a tag, then a wrapping size. */
  ghost predicate ExtensionsWrap(r: Reader, count: nat) {
    exists es: seq<Extension>, tag: u16 ::
      |es| < count && At(r, EncodeExtensions(es) + LE(2, tag)) && Wraps(Skip(r, |EncodeExtensions(es)| + 2))
  }

  /** Extra data and seal, or behind them the extensions. */
  ghost predicate TailWraps(r: Reader) {
    PairWraps(r) ||
    exists e: Bytes, s: Bytes, count: u64 ::
      At(r, Prefixed(8, e) + (Prefixed(8, s) + LE(8, count))) && ExtensionsWrap(Skip(r, 24 + |e| + |s|), count)
  }

  const FIXED_HEADER: nat := 136

  const FIXED_TRANSACTION: nat := 57

  ghost predicate HeaderWraps(r: Reader) {
    r.offset + FIXED_HEADER <= |r.data| && TailWraps(Skip(r, FIXED_HEADER))
  }

  /** Payload and signature. */
  ghost predicate TransactionWraps(r: Reader) {
    r.offset + FIXED_TRANSACTION <= |r.data| && PairWraps(Skip(r, FIXED_TRANSACTION))
  }

  ghost predicate TransactionsWrap(r: Reader, count: nat) {
    exists ts: seq<Transaction> ::
      |ts| < count && At(r, EncodeTransactions(ts)) && TransactionWraps(Skip(r, |EncodeTransactions(ts)|))
  }

  ghost predicate BlockWraps(r: Reader) {
    HeaderWraps(r) ||
    exists h: BlockHeader, count: u64 ::
      At(r, EncodeHeader(h) + LE(8, count)) && TransactionsWrap(Skip(r, |EncodeHeader(h)| + 8), count)
  }

  // ------------------------------------------------------- one and two byte strings

  lemma BlobUndefined(r: Reader)
    requires Ready(r)
    ensures ReadBytes(r, 8).1.undefined <==> Wraps(r)
    ensures TooLong(r) ==> ReadBytes(r, 8) == (None, Skip(r, 8))
    ensures r.offset + 8 > |r.data| ==> ReadBytes(r, 8) == (None, r)
    ensures ReadBytes(r, 8).0.Some? <==> r.offset + 8 <= |r.data| && !Wraps(r) && !TooLong(r)
  {
    assert Pow256(8) == U64;
    hide FromLE, Pow256;
  }

  lemma BlobIs(r: Reader, b: Bytes)
    requires Ready(r) && At(r, Prefixed(8, b))
    ensures ReadBytes(r, 8) == (Some(b), Skip(r, 8 + |b|)) && Ready(Skip(r, 8 + |b|))
  {
    assert Pow256(8) == U64;
    assert Prefixed(8, b) + [] == Prefixed(8, b);
    BlobForward(r, 8, b, []);
  }

  lemma PairUndefined(r: Reader)
    requires Ready(r)
    ensures ReadBytes(ReadBytes(r, 8).1, 8).1.undefined <==> PairWraps(r)
  {
    hide Wraps, TooLong, At, LE, FromLE;
    BlobUndefined(r);
    forall b: Bytes | At(r, Prefixed(8, b)) ensures ReadBytes(r, 8) == (Some(b), Skip(r, 8 + |b|)) { BlobIs(r, b); }
    if Wraps(r) {
      StaysUndefined(ReadBytes(r, 8).1);
    } else if ReadBytes(r, 8).0.Some? {
      var b := ReadBytes(r, 8).0.value;
      BlobBackward(r, 8);
      BlobIs(r, b);
      BlobUndefined(Skip(r, 8 + |b|));
    } else if TooLong(r) {
      assert Ready(Skip(r, 8)) by { TooLongReady(r); }
      BlobUndefined(Skip(r, 8));
    } else {
      assert !TooLong(r);
    }
  }

  lemma TooLongReady(r: Reader)
    requires Ready(r) && TooLong(r)
    ensures Ready(Skip(r, 8))
  {
  }

  lemma StaysUndefined(r: Reader)
    requires r.undefined
    ensures ReadBytes(r, 8).1.undefined
    ensures forall n: nat :: ReadLE(r, n).1.undefined
  {
  }

  // ------------------------------------------------------- lists

  lemma {:induction false} ExtensionsUndefined(r: Reader, count: nat)
    requires Ready(r)
    ensures ReadExtensions(r, count).1.undefined <==> ExtensionsWrap(r, count)
    decreases count
  {
    hide At, Wraps, LE, FromLE, ReadBytes, ReadLE;
    if ExtensionsWrap(r, count) {
      var es: seq<Extension>, tag: u16 :|
        |es| < count && At(r, EncodeExtensions(es) + LE(2, tag)) && Wraps(Skip(r, |EncodeExtensions(es)| + 2));
      ExtensionsReach(r, count, es, tag);
    }
    if ReadExtensions(r, count).1.undefined {
      ExtensionsFound(r, count);
    }
  }

  lemma {:induction false} ExtensionsReach(r: Reader, count: nat, es: seq<Extension>, tag: u16)
    requires Ready(r) && |es| < count
    requires At(r, EncodeExtensions(es) + LE(2, tag)) && Wraps(Skip(r, |EncodeExtensions(es)| + 2))
    ensures ReadExtensions(r, count).1.undefined
    decreases |es|
  {
    hide At, Wraps, LE, FromLE, ReadBytes, ReadLE;
    assert Pow256(2) == 0x1_0000;
    if es == [] {
      assert EncodeExtensions(es) + LE(2, tag) == LE(2, tag) + [];
      NumberForward(r, 2, tag, []);
      AtSplit(r, LE(2, tag), []);
      ReadyStays(r, LE(2, tag));
      BlobUndefined(Skip(r, 2));
      assert ReadBytes(Skip(r, 2), 8).0.None?;
    } else {
      var e, more := es[0], EncodeExtensions(es[1..]) + LE(2, tag);
      assert EncodeExtensions(es) + LE(2, tag) == LE(2, e.tag) + (Prefixed(8, e.payload) + more);
      NumberForward(r, 2, e.tag, Prefixed(8, e.payload) + more);
      AtSplit(r, LE(2, e.tag), Prefixed(8, e.payload) + more);
      ReadyStays(r, LE(2, e.tag));
      AtSplit(Skip(r, 2), Prefixed(8, e.payload), more);
      BlobIs(Skip(r, 2), e.payload);
      ExtensionsReach(Skip(r, 10 + |e.payload|), count - 1, es[1..], tag);
    }
  }

  lemma {:induction false} ExtensionsFound(r: Reader, count: nat)
    requires Ready(r) && ReadExtensions(r, count).1.undefined
    ensures ExtensionsWrap(r, count)
    decreases count
  {
    hide At, Wraps, LE, FromLE, ReadBytes, ReadLE;
    var (tag, r1) := ReadLE(r, 2);
    TagRead(r);
    ReadyStays(r, LE(2, tag.value));
    BlobUndefined(r1);
    var (payload, r2) := ReadBytes(r1, 8);
    if payload.None? {
      var es: seq<Extension> := [];
      assert EncodeExtensions(es) + LE(2, tag.value) == LE(2, tag.value);
      assert Skip(r, |EncodeExtensions(es)| + 2) == r1;
    } else {
      BlobBackward(r1, 8);
      BlobIs(r1, payload.value);
      ExtensionsFound(r2, count - 1);
      var es: seq<Extension>, next: u16 :|
        |es| < count - 1 && At(r2, EncodeExtensions(es) + LE(2, next)) && Wraps(Skip(r2, |EncodeExtensions(es)| + 2));
      var e := Extension(tag.value, payload.value);
      var all := [e] + es;
      assert all[1..] == es;
      AtJoin(r1, Prefixed(8, e.payload), EncodeExtensions(es) + LE(2, next));
      AtJoin(r, LE(2, e.tag), Prefixed(8, e.payload) + (EncodeExtensions(es) + LE(2, next)));
      assert EncodeExtensions(all) + LE(2, next) ==
        LE(2, e.tag) + (Prefixed(8, e.payload) + (EncodeExtensions(es) + LE(2, next)));
      assert Skip(r, |EncodeExtensions(all)| + 2) == Skip(r2, |EncodeExtensions(es)| + 2);
    }
  }

  /** A read that ends undefined has its tag: without one nothing further is read. */
  lemma TagRead(r: Reader)
    requires Ready(r)
    ensures ReadLE(r, 2).0.None? ==> !ReadBytes(ReadLE(r, 2).1, 8).1.undefined && ReadBytes(ReadLE(r, 2).1, 8).0.None?
    ensures ReadLE(r, 2).0.Some? ==> At(r, LE(2, ReadLE(r, 2).0.value)) && ReadLE(r, 2).1 == Skip(r, 2)
    ensures ReadLE(r, 2).0.Some? ==> ReadLE(r, 2).0.value < 0x1_0000
  {
    assert Pow256(2) == 0x1_0000;
    if ReadLE(r, 2).0.Some? { NumberBackward(r, 2); }
  }

  lemma TransferPosition(r: Reader)
    requires Ready(r)
    ensures ReadTransfer(r).0.Some? <==> r.offset + FIXED_TRANSACTION <= |r.data|
    ensures ReadTransfer(r).0.Some? ==> ReadTransfer(r).1 == Skip(r, FIXED_TRANSACTION)
    ensures !ReadTransfer(r).1.undefined
  {
    assert Pow256(8) == U64 && Pow256(1) == 0x100;
    hide FromLE, Pow256;
  }

  lemma TransactionUndefined(r: Reader)
    requires Ready(r)
    ensures ReadTransaction(r).1.undefined <==> TransactionWraps(r)
  {
    hide PairWraps, ReadTransfer, ReadBytes;
    TransferPosition(r);
    if ReadTransfer(r).0.Some? { PairUndefined(Skip(r, FIXED_TRANSACTION)); }
  }

  lemma TransactionIs(r: Reader, t: Transaction, rest: Bytes)
    requires Ready(r) && At(r, EncodeTransaction(t) + rest)
    ensures ReadTransaction(r) == (Some(t), Skip(r, |EncodeTransaction(t)|))
    ensures At(Skip(r, |EncodeTransaction(t)|), rest) && Ready(Skip(r, |EncodeTransaction(t)|))
  {
    hide EncodeTransaction, ReadTransaction;
    TransactionForward(r, t, rest);
    AtSplit(r, EncodeTransaction(t), rest);
    ReadyStays(r, EncodeTransaction(t));
  }

  lemma {:induction false} TransactionsReach(r: Reader, count: nat, ts: seq<Transaction>)
    requires Ready(r) && |ts| < count && At(r, EncodeTransactions(ts)) && TransactionWraps(Skip(r, |EncodeTransactions(ts)|))
    ensures ReadTransactions(r, count).1.undefined
    decreases |ts|
  {
    hide At, TransactionWraps, EncodeTransaction, ReadTransaction;
    if ts == [] {
      assert Skip(r, 0) == r;
      TransactionUndefined(r);
      assert ReadTransaction(r).0.None? by { UndefinedIsNone(r); }
    } else {
      TransactionIs(r, ts[0], EncodeTransactions(ts[1..]));
      TransactionsReach(Skip(r, |EncodeTransaction(ts[0])|), count - 1, ts[1..]);
    }
  }

  lemma UndefinedIsNone(r: Reader)
    requires Ready(r) && ReadTransaction(r).1.undefined
    ensures ReadTransaction(r).0.None?
  {
    hide ReadTransaction;
    if ReadTransaction(r).0.Some? { TransactionBackward(r); }
  }

  lemma {:induction false} TransactionsFound(r: Reader, count: nat)
    requires Ready(r) && ReadTransactions(r, count).1.undefined
    ensures TransactionsWrap(r, count)
    decreases count
  {
    hide At, TransactionWraps, EncodeTransaction, ReadTransaction;
    var (t, r1) := ReadTransaction(r);
    if t.None? {
      TransactionUndefined(r);
      var ts: seq<Transaction> := [];
      assert At(r, EncodeTransactions(ts)) by { AtEmpty(r); }
      assert Skip(r, |EncodeTransactions(ts)|) == r;
    } else {
      TransactionBackward(r);
      ReadyStays(r, EncodeTransaction(t.value));
      TransactionsFound(r1, count - 1);
      var ts: seq<Transaction> :|
        |ts| < count - 1 && At(r1, EncodeTransactions(ts)) && TransactionWraps(Skip(r1, |EncodeTransactions(ts)|));
      var all := [t.value] + ts;
      assert all[1..] == ts;
      AtJoin(r, EncodeTransaction(t.value), EncodeTransactions(ts));
      assert Skip(r, |EncodeTransactions(all)|) == Skip(r1, |EncodeTransactions(ts)|);
    }
  }

  lemma TransactionsUndefined(r: Reader, count: nat)
    requires Ready(r)
    ensures ReadTransactions(r, count).1.undefined <==> TransactionsWrap(r, count)
  {
    hide At, TransactionWraps, EncodeTransactions, ReadTransactions;
    if TransactionsWrap(r, count) {
      var ts: seq<Transaction> :|
        |ts| < count && At(r, EncodeTransactions(ts)) && TransactionWraps(Skip(r, |EncodeTransactions(ts)|));
      TransactionsReach(r, count, ts);
    }
    if ReadTransactions(r, count).1.undefined { TransactionsFound(r, count); }
  }

  // ------------------------------------------------------- headers

  /** Two byte strings and a count, all in place, are read back. */
  lemma TailHeadIs(r: Reader, e: Bytes, s: Bytes, count: u64)
    requires Ready(r) && At(r, Prefixed(8, e) + (Prefixed(8, s) + LE(8, count)))
    ensures var (extraData, r1) := ReadBytes(r, 8); var (consensusSeal, r2) := ReadBytes(r1, 8); var (n, r3) := ReadLE(r2, 8);
      extraData == Some(e) && consensusSeal == Some(s) && n == Some(count as nat) &&
      r3 == Skip(r, 24 + |e| + |s|) && Ready(r3)
  {
    hide At, LE, FromLE, ReadLE, ReadBytes;
    AtSplit(r, Prefixed(8, e), Prefixed(8, s) + LE(8, count));
    BlobIs(r, e);
    var r1 := Skip(r, 8 + |e|);
    AtSplit(r1, Prefixed(8, s), LE(8, count));
    BlobIs(r1, s);
    var r2 := Skip(r1, 8 + |s|);
    assert Pow256(8) == U64;
    assert LE(8, count) + [] == LE(8, count);
    NumberForward(r2, 8, count, []);
    ReadyStays(r2, LE(8, count));
  }

  lemma TailReach(r: Reader, e: Bytes, s: Bytes, count: u64)
    requires Ready(r) && At(r, Prefixed(8, e) + (Prefixed(8, s) + LE(8, count)))
    requires ExtensionsWrap(Skip(r, 24 + |e| + |s|), count)
    ensures ReadTail(r).1.undefined
  {
    hide At, LE, ReadLE, ReadBytes, ReadExtensions, ExtensionsWrap, ReadTail;
    TailHeadIs(r, e, s, count);
    TailParts(r);
    ExtensionsUndefined(Skip(r, 24 + |e| + |s|), count);
  }

  /** What ReadTail leaves, by the fields it got. */
  lemma TailParts(r: Reader)
    ensures var (e, r1) := ReadBytes(r, 8); var (s, r2) := ReadBytes(r1, 8); var (count, r3) := ReadLE(r2, 8);
      ReadTail(r).1 == if e.None? || s.None? || count.None? then r3 else ReadExtensions(r3, count.value).1
  {
    hide ReadBytes, ReadLE, ReadExtensions;
  }

  lemma TailFound(r: Reader)
    requires Ready(r) && ReadTail(r).1.undefined && !PairWraps(r)
    ensures TailWraps(r)
  {
    hide At, PairWraps, LE, ReadLE, ReadBytes, ReadExtensions, ExtensionsWrap, ReadTail;
    TailParts(r);
    PairUndefined(r);
    var (e, r1) := ReadBytes(r, 8);
    var (s, r2) := ReadBytes(r1, 8);
    CountKeeps(r2);
    var (count, r3) := ReadLE(r2, 8);
    TailHeadBack(r, e.value, s.value, count.value);
    ExtensionsUndefined(r3, count.value);
  }

  lemma TailUndefined(r: Reader)
    requires Ready(r)
    ensures ReadTail(r).1.undefined <==> TailWraps(r)
  {
    hide At, PairWraps, LE, ReadLE, ReadBytes, ReadExtensions, ExtensionsWrap, ReadTail, TailWraps;
    if PairWraps(r) {
      PairTail(r);
    } else {
      if TailWraps(r) { TailWitness(r); }
      if ReadTail(r).1.undefined { TailFound(r); }
    }
  }

  lemma PairTail(r: Reader)
    requires Ready(r) && PairWraps(r)
    ensures ReadTail(r).1.undefined && TailWraps(r)
  {
    hide PairWraps, ReadLE, ReadBytes, ReadExtensions, ReadTail;
    PairUndefined(r);
    PairNone(r);
    TailParts(r);
    CountKeeps(ReadBytes(ReadBytes(r, 8).1, 8).1);
  }

  lemma TailWitness(r: Reader)
    requires Ready(r) && TailWraps(r) && !PairWraps(r)
    ensures ReadTail(r).1.undefined
  {
    hide At, PairWraps, LE, ReadTail, ExtensionsWrap;
    var e: Bytes, s: Bytes, n: u64 :|
      At(r, Prefixed(8, e) + (Prefixed(8, s) + LE(8, n))) && ExtensionsWrap(Skip(r, 24 + |e| + |s|), n);
    TailReach(r, e, s, n);
  }

  lemma PairNone(r: Reader)
    requires Ready(r) && ReadBytes(ReadBytes(r, 8).1, 8).1.undefined
    ensures ReadBytes(r, 8).0.None? || ReadBytes(ReadBytes(r, 8).1, 8).0.None?
  {
    assert Pow256(8) == U64;
    hide FromLE, Pow256;
  }

  lemma CountKeeps(r: Reader)
    ensures ReadLE(r, 8).1.undefined == r.undefined
  {
  }

  lemma TailHeadBack(r: Reader, e: Bytes, s: Bytes, count: nat)
    requires Ready(r)
    requires var (extraData, r1) := ReadBytes(r, 8); var (consensusSeal, r2) := ReadBytes(r1, 8);
      extraData == Some(e) && consensusSeal == Some(s) && ReadLE(r2, 8).0 == Some(count)
    ensures count < U64 && At(r, Prefixed(8, e) + (Prefixed(8, s) + LE(8, count)))
    ensures var r3 := ReadLE(ReadBytes(ReadBytes(r, 8).1, 8).1, 8).1; r3 == Skip(r, 24 + |e| + |s|) && Ready(r3)
    ensures !ReadBytes(ReadBytes(r, 8).1, 8).1.undefined
  {
    hide At, LE, FromLE, ReadLE, ReadBytes;
    assert Pow256(8) == U64;
    BlobBackward(r, 8);
    BlobIs(r, e);
    var r1 := Skip(r, 8 + |e|);
    BlobBackward(r1, 8);
    BlobIs(r1, s);
    var r2 := Skip(r1, 8 + |s|);
    NumberBackward(r2, 8);
    ReadyStays(r2, LE(8, count));
    AtJoin(r1, Prefixed(8, s), LE(8, count));
    AtJoin(r, Prefixed(8, e), Prefixed(8, s) + LE(8, count));
  }

  lemma RootsPosition(r: Reader)
    requires Ready(r)
    ensures var (roots, r1) := ReadRoots(r);
      !r1.undefined && (roots.Some? <==> r.offset + 100 <= |r.data|) && (roots.Some? ==> r1 == Skip(r, 100))
  {
    assert Pow256(4) == 0x1_0000_0000;
    hide FromLE, Pow256;
  }

  lemma PositionPosition(r: Reader)
    requires Ready(r)
    ensures var (position, r1) := ReadPosition(r);
      !r1.undefined && (position.Some? <==> r.offset + 36 <= |r.data|) && (position.Some? ==> r1 == Skip(r, 36))
  {
    assert Pow256(8) == U64;
    hide FromLE, Pow256;
  }

  lemma HeaderParts(r: Reader)
    ensures var (roots, r1) := ReadRoots(r); var (position, r2) := ReadPosition(r1);
      ReadHeader(r).1 == if roots.None? then r1 else if position.None? then r2 else ReadTail(r2).1
  {
    hide ReadRoots, ReadPosition, ReadTail;
  }

  lemma HeaderUndefined(r: Reader)
    requires Ready(r)
    ensures ReadHeader(r).1.undefined <==> HeaderWraps(r)
  {
    hide TailWraps, ReadTail, ReadRoots, ReadPosition, ReadHeader;
    HeaderParts(r);
    RootsPosition(r);
    if r.offset + 100 > |r.data| {
      assert ReadHeader(r).1 == ReadRoots(r).1;
    } else if r.offset + FIXED_HEADER > |r.data| {
      PositionPosition(Skip(r, 100));
      assert ReadHeader(r).1 == ReadPosition(Skip(r, 100)).1;
    } else {
      PositionPosition(Skip(r, 100));
      assert Skip(Skip(r, 100), 36) == Skip(r, FIXED_HEADER);
      TailUndefined(Skip(r, FIXED_HEADER));
    }
  }

  // ------------------------------------------------------- the decoders

  lemma BlockUndefined(r: Reader)
    requires Ready(r)
    ensures ReadBlock(r).1.undefined <==> BlockWraps(r)
  {
    hide At, LE, FromLE, EncodeHeader, ReadHeader, ReadLE, ReadTransactions, HeaderWraps, TransactionsWrap;
    HeaderUndefined(r);
    var (header, r1) := ReadHeader(r);
    CountKeeps(r1);
    forall h: BlockHeader, n: u64 | At(r, EncodeHeader(h) + LE(8, n))
      ensures header == Some(h) && ReadLE(r1, 8) == (Some(n as nat), Skip(r, |EncodeHeader(h)| + 8))
    {
      HeaderForward(r, h, LE(8, n));
      assert Pow256(8) == U64 && LE(8, n) + [] == LE(8, n);
      NumberForward(r1, 8, n, []);
    }
    if header.Some? && ReadLE(r1, 8).0.Some? {
      var count := ReadLE(r1, 8).0.value;
      assert Pow256(8) == U64;
      HeaderBackward(r);
      ReadyStays(r, EncodeHeader(header.value));
      NumberBackward(r1, 8);
      ReadyStays(r1, LE(8, count));
      AtJoin(r, EncodeHeader(header.value), LE(8, count));
      TransactionsUndefined(Skip(r1, 8), count);
    }
  }

  /** Decoding is undefined exactly on the inputs whose format reaches a wrapping size field. */
  lemma DefinedExactly(data: Bytes)
    requires |data| < SIZE_LIMIT
    ensures BlockDefined(data) <==> !BlockWraps(Start(data))
    ensures HeaderDefined(data) <==> !HeaderWraps(Start(data))
    ensures TransactionDefined(data) <==> !TransactionWraps(Start(data))
  {
    hide BlockWraps, HeaderWraps, TransactionWraps, ReadBlock, ReadHeader, ReadTransaction;
    BlockUndefined(Start(data));
    HeaderUndefined(Start(data));
    TransactionUndefined(Start(data));
  }

  /** No eight bytes in a row read as a number within |data| of 2^64. */
  ghost predicate NoHugeNumber(data: Bytes) {
    forall k: nat :: k + 8 <= |data| ==> SizeAt(data, k) + |data| < U64
  }

  lemma NumberIsSmall(r: Reader)
    requires NoHugeNumber(r.data)
    ensures !Wraps(r)
  {
    hide FromLE;
  }

  lemma PairIsSmall(r: Reader)
    requires NoHugeNumber(r.data)
    ensures !PairWraps(r)
  {
    hide At, Wraps, TooLong, NoHugeNumber;
    NumberIsSmall(r);
    NumberIsSmall(Skip(r, 8));
    forall b: Bytes | At(r, Prefixed(8, b)) ensures !Wraps(Skip(r, 8 + |b|)) { NumberIsSmall(Skip(r, 8 + |b|)); }
  }

  lemma ExtensionsAreSmall(r: Reader, count: nat)
    requires NoHugeNumber(r.data)
    ensures !ExtensionsWrap(r, count)
  {
    hide At, Wraps, NoHugeNumber, EncodeExtensions, LE;
    if ExtensionsWrap(r, count) {
      var es: seq<Extension>, tag: u16 :|
        |es| < count && At(r, EncodeExtensions(es) + LE(2, tag)) && Wraps(Skip(r, |EncodeExtensions(es)| + 2));
      NumberIsSmall(Skip(r, |EncodeExtensions(es)| + 2));
    }
  }

  lemma HeaderIsSmall(r: Reader)
    requires NoHugeNumber(r.data)
    ensures !HeaderWraps(r)
  {
    hide At, PairWraps, ExtensionsWrap, NoHugeNumber, LE;
    if HeaderWraps(r) {
      var tail := Skip(r, FIXED_HEADER);
      PairIsSmall(tail);
      var e: Bytes, s: Bytes, count: u64 :|
        At(tail, Prefixed(8, e) + (Prefixed(8, s) + LE(8, count))) && ExtensionsWrap(Skip(tail, 24 + |e| + |s|), count);
      ExtensionsAreSmall(Skip(tail, 24 + |e| + |s|), count);
    }
  }

  lemma BlockIsSmall(r: Reader)
    requires NoHugeNumber(r.data)
    ensures !BlockWraps(r)
  {
    hide At, PairWraps, HeaderWraps, NoHugeNumber, LE, EncodeHeader, EncodeTransactions;
    HeaderIsSmall(r);
    if BlockWraps(r) {
      var h: BlockHeader, count: u64 :|
        At(r, EncodeHeader(h) + LE(8, count)) && TransactionsWrap(Skip(r, |EncodeHeader(h)| + 8), count);
      var body := Skip(r, |EncodeHeader(h)| + 8);
      var ts: seq<Transaction> :|
        |ts| < count && At(body, EncodeTransactions(ts)) && TransactionWraps(Skip(body, |EncodeTransactions(ts)|));
      PairIsSmall(Skip(Skip(body, |EncodeTransactions(ts)|), FIXED_TRANSACTION));
    }
  }

  /** A check on the bytes alone under which every decoder is defined. */
  lemma SmallNumbersAreDefined(data: Bytes)
    requires |data| < SIZE_LIMIT && NoHugeNumber(data)
    ensures BlockDefined(data) && HeaderDefined(data) && TransactionDefined(data)
  {
    hide BlockWraps, HeaderWraps, PairWraps, BlockDefined, HeaderDefined, TransactionDefined, NoHugeNumber;
    HeaderIsSmall(Start(data));
    BlockIsSmall(Start(data));
    PairIsSmall(Skip(Start(data), FIXED_TRANSACTION));
    DefinedExactly(data);
  }

  /** The shortest input of the failing family: the fixed fields of any header, then 2^64 - 144 as the size of its
      extra data. A peer can send these bytes as a block. */
  lemma WrappedSizeExample(h: BlockHeader)
    ensures var data := EncodeRoots(h) + (EncodePosition(h) + LE(8, U64 - 144));
      |data| == 144 && !HeaderDefined(data) && !BlockDefined(data)
  {
    hide LE, FromLE, Pow256, EncodeRoots, EncodePosition, BlockDefined, HeaderDefined;
    assert U64 - 144 < Pow256(8) by { EightBytes(); }
    var data := EncodeRoots(h) + (EncodePosition(h) + LE(8, U64 - 144));
    FixedSizes(h);
    LEInverse(8, U64 - 144);
    assert data[136..144] == LE(8, U64 - 144);
    assert Wraps(Skip(Start(data), FIXED_HEADER));
    DefinedExactly(data);
  }

  lemma EightBytes()
    ensures Pow256(8) == U64
  {
  }

  lemma FixedSizes(h: BlockHeader)
    ensures |EncodeRoots(h)| == 100 && |EncodePosition(h)| == 36
  {
    hide LE;
  }
}
