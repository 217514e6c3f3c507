/** Writing and reading blocks through the writer and reader objects. */
module PrimitiveCodec {
  import opened Core
  import opened Numbers
  import opened Primitives
  import opened ByteBuffers

  method WriteExtensionsTo(writer: ByteWriter, extensions: seq<Extension>)
    modifies writer
    ensures writer.bytes == old(writer.bytes) + EncodeExtensions(extensions)
  {
    hide LE;
    var i := 0;
    while i < |extensions|
      invariant i <= |extensions|
      invariant writer.bytes + EncodeExtensions(extensions[i..]) == old(writer.bytes) + EncodeExtensions(extensions)
    {
      ghost var before, rest := writer.bytes, extensions[i..];
      var extension := extensions[i];
      writer.WriteLE(2, extension.tag);
      writer.WriteBytes(8, extension.payload);
      assert rest[1..] == extensions[i + 1..];
      assert writer.bytes + EncodeExtensions(rest[1..]) == before + EncodeExtensions(rest);
      i := i + 1;
    }
  }

  method WriteHeaderTo(writer: ByteWriter, header: BlockHeader)
    modifies writer
    ensures writer.bytes == old(writer.bytes) + EncodeHeader(header)
  {
    hide LE;
    ghost var start := writer.bytes;
    writer.WriteLE(4, header.version);
    writer.WriteFixed(header.parentHash);
    writer.WriteFixed(header.stateRoot);
    writer.WriteFixed(header.transactionsRoot);
    assert writer.bytes == start + EncodeRoots(header);
    writer.WriteLE(8, header.height);
    writer.WriteLE(8, header.timestamp);
    writer.WriteFixed(header.beneficiary);
    assert writer.bytes == start + EncodeRoots(header) + EncodePosition(header);
    writer.WriteBytes(8, header.extraData);
    writer.WriteBytes(8, header.consensusSeal);
    writer.WriteLE(8, |header.extensions|);
    WriteExtensionsTo(writer, header.extensions);
    assert writer.bytes == start + EncodeRoots(header) + EncodePosition(header) + EncodeTail(header);
  }

  method WriteTransactionTo(writer: ByteWriter, t: Transaction)
    modifies writer
    ensures writer.bytes == old(writer.bytes) + EncodeTransaction(t)
  {
    hide LE;
    ghost var start := writer.bytes;
    writer.WriteLE(1, t.kind);
    writer.WriteFixed(t.from);
    writer.WriteFixed(t.to);
    writer.WriteLE(8, t.value);
    writer.WriteLE(8, t.nonce);
    assert writer.bytes == start + EncodeTransfer(t);
    writer.WriteBytes(8, t.payload);
    writer.WriteBytes(8, t.signature);
    assert writer.bytes == start + EncodeTransaction(t);
  }

  method EncodeHeaderBytes(header: BlockHeader) returns (bytes: Bytes)
    ensures bytes == EncodeHeader(header)
  {
    var writer := new ByteWriter();
    WriteHeaderTo(writer, header);
    return writer.bytes;
  }

  method EncodeBlockBytes(block: Block) returns (bytes: Bytes)
    ensures bytes == EncodeBlock(block)
  {
    hide LE, EncodeHeader, EncodeTransaction;
    var writer := new ByteWriter();
    WriteHeaderTo(writer, block.header);
    writer.WriteLE(8, |block.transactions|);
    ghost var start := writer.bytes;
    var i := 0;
    while i < |block.transactions|
      invariant i <= |block.transactions|
      invariant writer.bytes + EncodeTransactions(block.transactions[i..]) == start + EncodeTransactions(block.transactions)
    {
      ghost var before, rest := writer.bytes, block.transactions[i..];
      WriteTransactionTo(writer, block.transactions[i]);
      assert rest[1..] == block.transactions[i + 1..];
      assert writer.bytes + EncodeTransactions(rest[1..]) == before + EncodeTransactions(rest);
      i := i + 1;
    }
    assert writer.bytes == start + EncodeTransactions(block.transactions);
    return writer.bytes;
  }

  method EncodeForSigningBytes(t: Transaction, chainId: u64) returns (bytes: Bytes)
    ensures bytes == EncodeForSigning(t, chainId)
  {
    hide LE;
    var writer := new ByteWriter();
    writer.WriteLE(1, t.kind);
    writer.WriteFixed(t.from);
    writer.WriteFixed(t.to);
    writer.WriteLE(8, t.value);
    writer.WriteLE(8, t.nonce);
    assert writer.bytes == EncodeTransfer(t);
    writer.WriteBytes(8, t.payload);
    writer.WriteLE(8, chainId);
    return writer.bytes;
  }

  ghost function Prepended<T>(done: seq<T>, more: (Option<seq<T>>, Reader)): (Option<seq<T>>, Reader) {
    (if more.0.None? then None else Some(done + more.0.value), more.1)
  }

  lemma PrependedNothing<T>(more: (Option<seq<T>>, Reader))
    ensures Prepended([], more) == more
  {
    if more.0.Some? { assert [] + more.0.value == more.0.value; }
  }

  lemma PrependedStep<T>(done: seq<T>, x: T, more: (Option<seq<T>>, Reader))
    ensures Prepended(done, Prepended([x], more)) == Prepended(done + [x], more)
  {
    if more.0.Some? { assert done + ([x] + more.0.value) == done + [x] + more.0.value; }
  }

  method ReadHeaderFrom(reader: ByteReader) returns (header: Option<BlockHeader>)
    modifies reader
    ensures (header, reader.State()) == ReadHeader(old(reader.State()))
  {
    hide Primitives.ReadLE, Primitives.ReadFixed, Primitives.ReadBytes;
    var version := reader.ReadLE(4);
    if version.None? { return None; }
    var parentHash := reader.ReadFixed(32);
    var stateRoot := reader.ReadFixed(32);
    var transactionsRoot := reader.ReadFixed(32);
    if parentHash.None? || stateRoot.None? || transactionsRoot.None? { return None; }
    assert ReadRoots(old(reader.State())) ==
      (Some((version.value, parentHash.value, stateRoot.value, transactionsRoot.value)), reader.State());
    ghost var s1 := reader.State();

    var height := reader.ReadLE(8);
    var timestamp := reader.ReadLE(8);
    var beneficiary := reader.ReadFixed(20);
    if height.None? || timestamp.None? || beneficiary.None? { return None; }
    assert ReadPosition(s1) == (Some((height.value, timestamp.value, beneficiary.value)), reader.State());
    ghost var s2 := reader.State();

    var extraData := reader.ReadBytes(8);
    var consensusSeal := reader.ReadBytes(8);
    var count := reader.ReadLE(8);
    if extraData.None? || consensusSeal.None? || count.None? { return None; }
    ghost var s3 := reader.State();
    var extensions: seq<Extension>, i := [], 0;
    PrependedNothing(ReadExtensions(s3, count.value));
    while i < count.value
      invariant i <= count.value
      invariant ReadExtensions(s3, count.value) == Prepended(extensions, ReadExtensions(reader.State(), count.value - i))
    {
      var tag := reader.ReadLE(2);
      var payload := reader.ReadBytes(8);
      if tag.None? || payload.None? { return None; }
      PrependedStep(extensions, Extension(tag.value, payload.value), ReadExtensions(reader.State(), count.value - i - 1));
      extensions := extensions + [Extension(tag.value, payload.value)];
      i := i + 1;
    }
    assert extensions + [] == extensions;
    return Some(BlockHeader(version.value, parentHash.value, stateRoot.value, transactionsRoot.value, height.value,
                            timestamp.value, beneficiary.value, extraData.value, consensusSeal.value, extensions));
  }

  method ReadTransactionFrom(reader: ByteReader) returns (t: Option<Transaction>)
    modifies reader
    ensures (t, reader.State()) == ReadTransaction(old(reader.State()))
  {
    hide Primitives.ReadLE, Primitives.ReadFixed, Primitives.ReadBytes;
    var kind := reader.ReadLE(1);
    var from := reader.ReadFixed(20);
    var to := reader.ReadFixed(20);
    var value := reader.ReadLE(8);
    var nonce := reader.ReadLE(8);
    if kind.None? || from.None? || to.None? || value.None? || nonce.None? { return None; }
    var payload := reader.ReadBytes(8);
    var signature := reader.ReadBytes(8);
    if payload.None? || signature.None? { return None; }
    return Some(Transaction(kind.value, from.value, to.value, value.value, nonce.value, payload.value, signature.value));
  }

  method DecodeHeaderBytes(data: Bytes) returns (header: Option<BlockHeader>)
    ensures header == DecodeHeader(data)
  {
    var reader := new ByteReader(data);
    header := ReadHeaderFrom(reader);
  }

  method DecodeBlockBytes(data: Bytes) returns (block: Option<Block>)
    ensures block == DecodeBlock(data)
  {
    hide ReadHeader, ReadTransaction, Primitives.ReadLE;
    var reader := new ByteReader(data);
    var header := ReadHeaderFrom(reader);
    if header.None? { return None; }
    var count := reader.ReadLE(8);
    if count.None? { return None; }
    ghost var start := reader.State();
    var transactions: seq<Transaction>, i := [], 0;
    PrependedNothing(ReadTransactions(start, count.value));
    while i < count.value
      invariant i <= count.value
      invariant ReadTransactions(start, count.value) == Prepended(transactions, ReadTransactions(reader.State(), count.value - i))
    {
      var t := ReadTransactionFrom(reader);
      if t.None? { return None; }
      PrependedStep(transactions, t.value, ReadTransactions(reader.State(), count.value - i - 1));
      transactions := transactions + [t.value];
      i := i + 1;
    }
    assert transactions + [] == transactions;
    return Some(Block(header.value, transactions));
  }
}
