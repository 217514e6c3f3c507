/** The block tree, canonical height index and head kept in one key-value store. */
module KvChain {
  import opened Core
  import opened Numbers
  import opened Primitives
  import opened CodecInverse
  import opened PrimitiveCodec
  import opened Ledger
  import opened Pow
  import opened BlockTree
  import opened Storage

  // ------------------------------------------------------- keys

  const HEADER: byte := 72
  const BODY: byte := 66

  function HeadKey(): (k: Bytes)
    ensures |k| == 4
  {
    [104, 101, 97, 100]
  }

  function HashKey(prefix: byte, h: Hash256): (k: Bytes)
    ensures |k| == 34 && k[0] == prefix && k[2..] == h
  {
    [prefix, 58] + h
  }

  function HeightKey(height: u64): (k: Bytes)
    ensures |k| == 10 && FromLE(k[2..]) == height
  {
    assert Pow256(8) == U64;
    LEInverse(8, height);
    [78, 58] + LE(8, height)
  }

  /** No two entries of the chain share a key. */
  lemma KeysAreDisjoint(a: byte, g: Hash256, b: byte, h: Hash256, k: u64, l: u64)
    ensures HashKey(a, g) == HashKey(b, h) <==> a == b && g == h
    ensures HeightKey(k) == HeightKey(l) <==> k == l
    ensures HashKey(a, g) != HeightKey(k) && HashKey(a, g) != HeadKey() && HeightKey(k) != HeadKey()
  {
  }

  // ------------------------------------------------------- the representation

  ghost predicate Fits(b: Block) { |EncodeBlock(b)| < SIZE_LIMIT }

  ghost predicate HeaderEntry(entries: Entries, blocks: Blocks, h: Hash256) {
    var key := HashKey(HEADER, h);
    (key in entries <==> h in blocks) && (h in blocks ==> entries[key] == EncodeHeader(blocks[h].header))
  }

  ghost predicate BodyEntry(entries: Entries, blocks: Blocks, h: Hash256) {
    var key := HashKey(BODY, h);
    (key in entries <==> h in blocks) && (h in blocks ==> entries[key] == EncodeBlock(blocks[h]))
  }

  ghost predicate HeightEntry(entries: Entries, index: seq<Hash256>, k: u64) {
    var key := HeightKey(k);
    (key in entries <==> k < |index|) && (k < |index| ==> entries[key] == index[k])
  }

  /** The store holds a header and a body entry for exactly the blocks of the tree, a height entry for exactly the
      heights of the canonical index, and the head. */
  ghost predicate Represents(entries: Entries, blocks: Blocks, index: seq<Hash256>) {
    (forall h: Hash256 :: HeaderEntry(entries, blocks, h)) &&
    (forall h: Hash256 :: BodyEntry(entries, blocks, h)) &&
    (forall k: u64 :: HeightEntry(entries, index, k)) &&
    index != [] && HeadKey() in entries && entries[HeadKey()] == Last(index)
  }

  /** Canonical index exactness: entries agree and hash to their key, and the index runs from genesis, one height
      at a time, along parent hashes. */
  ghost predicate Exact(p: Params, entries: Entries, blocks: Blocks, index: seq<Hash256>) {
    Represents(entries, blocks, index) &&
    (forall h <- blocks :: HeaderHash(p, blocks[h].header) == h && Fits(blocks[h])) &&
    Linked(p, blocks, index) && |index| <= U64
  }

  ghost predicate SameExceptHeights(before: Entries, after: Entries) {
    forall key: Bytes :: |key| != 10 ==> (key in before <==> key in after) && (key in before ==> after[key] == before[key])
  }

  function Slot(entries: Entries, k: u64): Option<Bytes> {
    if HeightKey(k) in entries then Some(entries[HeightKey(k)]) else None
  }

  /** Storing a block's header and body touches no other block, no height and not the head. */
  lemma StoreEntries(entries: Entries, blocks: Blocks, index: seq<Hash256>, h: Hash256, b: Block)
    requires Represents(entries, blocks, index)
    ensures var next := entries[HashKey(HEADER, h) := EncodeHeader(b.header)][HashKey(BODY, h) := EncodeBlock(b)];
      Represents(next, blocks[h := b], index)
  {
    hide EncodeHeader, EncodeBlock, HashKey, HeightKey;
    var next := entries[HashKey(HEADER, h) := EncodeHeader(b.header)][HashKey(BODY, h) := EncodeBlock(b)];
    var big := blocks[h := b];
    forall x: Hash256 ensures HeaderEntry(next, big, x) {
      assert HeaderEntry(entries, blocks, x);
      KeysAreDisjoint(HEADER, x, HEADER, h, 0, 0);
      KeysAreDisjoint(HEADER, x, BODY, h, 0, 0);
    }
    forall x: Hash256 ensures BodyEntry(next, big, x) {
      assert BodyEntry(entries, blocks, x);
      KeysAreDisjoint(BODY, x, BODY, h, 0, 0);
      KeysAreDisjoint(BODY, x, HEADER, h, 0, 0);
    }
    forall k: u64 ensures HeightEntry(next, index, k) {
      assert HeightEntry(entries, index, k);
    }
  }

  /** The head moves up by one canonical entry. */
  lemma ExtendEntries(entries: Entries, blocks: Blocks, index: seq<Hash256>, h: Hash256)
    requires Represents(entries, blocks, index) && |index| < U64
    ensures Represents(entries[HeightKey(|index|) := h][HeadKey() := h], blocks, index + [h])
  {
    hide EncodeHeader, EncodeBlock, HashKey, HeightKey;
    var next := entries[HeightKey(|index|) := h][HeadKey() := h];
    forall x: Hash256 ensures HeaderEntry(next, blocks, x) && BodyEntry(next, blocks, x) {
      assert HeaderEntry(entries, blocks, x) && BodyEntry(entries, blocks, x);
    }
    forall k: u64 ensures HeightEntry(next, index + [h], k) {
      assert HeightEntry(entries, index, k);
      KeysAreDisjoint(0, h, 0, h, k, |index|);
    }
  }

  /** Rewriting the height slots and the head gives the representation of another index over the same tree. */
  lemma SwitchEntries(entries: Entries, next: Entries, blocks: Blocks, index: seq<Hash256>, newIndex: seq<Hash256>)
    requires Represents(entries, blocks, index) && newIndex != []
    requires SameExceptHeights(entries, next)
    requires forall k: u64 :: Slot(next, k) == if k < |newIndex| then Some(newIndex[k]) else None
    ensures Represents(next[HeadKey() := Last(newIndex)], blocks, newIndex)
  {
    hide EncodeHeader, EncodeBlock, HashKey, HeightKey;
    var final := next[HeadKey() := Last(newIndex)];
    forall x: Hash256 ensures HeaderEntry(final, blocks, x) && BodyEntry(final, blocks, x) {
      assert HeaderEntry(entries, blocks, x) && BodyEntry(entries, blocks, x);
    }
    forall k: u64 ensures HeightEntry(final, newIndex, k) {
      assert Slot(next, k) == if k < |newIndex| then Some(newIndex[k]) else None;
    }
  }

  function Hashes(p: Params, branch: seq<Block>): (hs: seq<Hash256>)
    ensures |hs| == |branch|
    ensures forall i :: 0 <= i < |branch| ==> hs[i] == HeaderHash(p, branch[i].header)
  {
    if branch == [] then [] else [HeaderHash(p, branch[0].header)] + Hashes(p, branch[1..])
  }

  /** A stored, parent-linked branch that leaves the canonical chain just below its first block. Its tip may be
      higher or lower than the head. */
  ghost predicate Forks(p: Params, blocks: Blocks, index: seq<Hash256>, branch: seq<Block>) {
    branch != [] && 1 <= branch[0].header.height <= |index| &&
    branch[0].header.parentHash == index[branch[0].header.height - 1] &&
    (forall i :: 0 <= i < |branch| ==>
      HeaderHash(p, branch[i].header) in blocks && blocks[HeaderHash(p, branch[i].header)] == branch[i] &&
      branch[i].header.height == branch[0].header.height + i) &&
    (forall i :: 0 < i < |branch| ==> branch[i].header.parentHash == HeaderHash(p, branch[i - 1].header))
  }

  lemma ForkIsLinked(p: Params, blocks: Blocks, index: seq<Hash256>, branch: seq<Block>)
    requires Linked(p, blocks, index) && Forks(p, blocks, index, branch)
    ensures Linked(p, blocks, index[..branch[0].header.height] + Hashes(p, branch))
  {
    hide HeaderHash, Hashes;
  }

  /** Nothing, or a block with this very header, is stored under the hash of the header. */
  ghost predicate NoClash(p: Params, blocks: Blocks, h: BlockHeader) {
    HeaderHash(p, h) in blocks ==> blocks[HeaderHash(p, h)].header == h
  }

  function StoredHead(entries: Entries): Option<Bytes> {
    if HeadKey() in entries then Some(entries[HeadKey()]) else None
  }

  function StoredHeader(entries: Entries, h: Hash256): Option<BlockHeader> {
    if HashKey(HEADER, h) in entries then DecodeHeader(entries[HashKey(HEADER, h)]) else None
  }

  class Blockchain {
    const p: Params
    const store: MemoryStore
    var head: BlockHeader
    var headHash: Hash256

    ghost var blocks: Blocks
    ghost var index: seq<Hash256>

    ghost predicate Valid()
      reads this, store
    {
      Exact(p, store.entries, blocks, index) &&
      headHash == Last(index) && head == blocks[headHash].header
    }

    constructor (p: Params, store: MemoryStore, head: BlockHeader, headHash: Hash256, ghost blocks: Blocks, ghost index: seq<Hash256>)
      ensures this.p == p && this.store == store && this.head == head && this.headHash == headHash
      ensures this.blocks == blocks && this.index == index
    {
      this.p, this.store, this.head, this.headHash := p, store, head, headHash;
      this.blocks, this.index := blocks, index;
    }

    method HeaderByHash(h: Hash256) returns (header: Option<BlockHeader>)
      requires Valid()
      ensures header == if h in blocks then Some(blocks[h].header) else None
    {
      assert HeaderEntry(store.entries, blocks, h);
      var stored := store.Get(HashKey(HEADER, h));
      if stored.None? {
        return None;
      }
      header := DecodeHeaderBytes(stored.value);
      HeaderDecodesExactly(stored.value, blocks[h].header);
    }

    method BlockByHash(h: Hash256) returns (block: Option<Block>)
      requires Valid()
      ensures block == if h in blocks then Some(blocks[h]) else None
    {
      assert BodyEntry(store.entries, blocks, h);
      var stored := store.Get(HashKey(BODY, h));
      if stored.None? {
        return None;
      }
      block := DecodeBlockBytes(stored.value);
      BlockDecodesExactly(stored.value, blocks[h]);
    }

    method HeaderByHeight(height: u64) returns (header: Option<BlockHeader>)
      requires Valid()
      ensures header == if height < |index| then Some(blocks[index[height]].header) else None
    {
      assert HeightEntry(store.entries, index, height);
      var stored := store.Get(HeightKey(height));
      if stored.None? || |stored.value| != 32 {
        return None;
      }
      header := HeaderByHash(stored.value);
    }

    method BlockByHeight(height: u64) returns (block: Option<Block>)
      requires Valid()
      ensures block == if height < |index| then Some(blocks[index[height]]) else None
    {
      assert HeightEntry(store.entries, index, height);
      var stored := store.Get(HeightKey(height));
      if stored.None? || |stored.value| != 32 {
        return None;
      }
      block := BlockByHash(stored.value);
    }

    /** The four entries of a new canonical block, in one batch. */
    method WriteBlock(block: Block, hash: Hash256)
      modifies store
      ensures store.entries == old(store.entries)[HashKey(HEADER, hash) := EncodeHeader(block.header)]
        [HashKey(BODY, hash) := EncodeBlock(block)][HeightKey(block.header.height) := hash][HeadKey() := hash]
    {
      hide EncodeHeader, EncodeBlock, HashKey, HeightKey;
      var header := EncodeHeaderBytes(block.header);
      var body := EncodeBlockBytes(block);
      var batch := [Put(HashKey(HEADER, hash), header), Put(HashKey(BODY, hash), body),
                    Put(HeightKey(block.header.height), hash), Put(HeadKey(), hash)];
      FourOperations(store.entries, batch);
      store.Apply(batch);
    }

    method AppendBlock(block: Block) returns (ok: bool)
      requires Valid() && Fits(block) && head.height + 1 < U64
      modifies this, store
      ensures ok == (block.header.parentHash == old(headHash) && block.header.height == old(head.height) + 1)
      ensures ok ==> head == block.header && headHash == HeaderHash(p, block.header)
      ensures ok ==> blocks == old(blocks)[HeaderHash(p, block.header) := block] && index == old(index) + [HeaderHash(p, block.header)]
      ensures ok ==> var hash := HeaderHash(p, block.header);
        store.entries == old(store.entries)[HashKey(HEADER, hash) := EncodeHeader(block.header)]
          [HashKey(BODY, hash) := EncodeBlock(block)][HeightKey(block.header.height) := hash][HeadKey() := hash]
      ensures !ok || NoClash(p, old(blocks), block.header) ==> Valid()
      ensures !ok ==> blocks == old(blocks) && index == old(index) && store.entries == old(store.entries)
    {
      hide EncodeHeader, EncodeBlock, HashKey, HeightKey, Represents;
      if block.header.parentHash != headHash {
        return false;
      }
      if block.header.height != Add64(head.height, 1) {
        return false;
      }
      var encoded := EncodeHeaderBytes(block.header);
      var hash := p.hash(encoded);
      StoreEntries(store.entries, blocks, index, hash, block);
      blocks := blocks[hash := block];
      if NoClash(p, old(blocks), block.header) {
        LinkedGrows(p, old(blocks), blocks, index, block);
      }
      ExtendEntries(store.entries[HashKey(HEADER, hash) := EncodeHeader(block.header)][HashKey(BODY, hash) := EncodeBlock(block)],
                    blocks, index, hash);
      WriteBlock(block, hash);
      index := index + [hash];
      head := block.header;
      headHash := hash;
      return true;
    }

    method StoreBlock(block: Block)
      requires Valid() && Fits(block)
      modifies this, store
      ensures blocks == old(blocks)[HeaderHash(p, block.header) := block] && index == old(index)
      ensures head == old(head) && headHash == old(headHash)
      ensures var hash := HeaderHash(p, block.header);
        store.entries == old(store.entries)[HashKey(HEADER, hash) := EncodeHeader(block.header)][HashKey(BODY, hash) := EncodeBlock(block)]
      ensures NoClash(p, old(blocks), block.header) ==> Valid()
    {
      hide EncodeHeader, EncodeBlock, HashKey, HeightKey, Represents;
      var encoded := EncodeHeaderBytes(block.header);
      var body := EncodeBlockBytes(block);
      var hash := p.hash(encoded);
      var batch := [Put(HashKey(HEADER, hash), encoded), Put(HashKey(BODY, hash), body)];
      TwoOperations(store.entries, batch);
      StoreEntries(store.entries, blocks, index, hash, block);
      store.Apply(batch);
      blocks := blocks[hash := block];
      if NoClash(p, old(blocks), block.header) {
        LinkedGrows(p, old(blocks), blocks, index, block);
      }
    }

    /** Switches the canonical index to the branch in one batch. Heights of the old chain above the new tip,
        when there are any, are erased. */
    method AdoptBranch(branch: seq<Block>) returns (ok: bool)
      requires Valid() && head.height + 1 < U64
      requires branch != [] ==> Forks(p, blocks, index, branch) && Last(branch).header.height + 1 < U64
      modifies this, store
      ensures Valid() && blocks == old(blocks) && ok == (branch != [])
      ensures ok ==> index == old(index)[..branch[0].header.height] + Hashes(p, branch)
      ensures !ok ==> index == old(index) && store.entries == old(store.entries)
    {
      hide EncodeHeader, EncodeBlock, HashKey, HeightKey, HeaderHash, Represents, SameExceptHeights, Hashes, Slot, ApplyBatch, Linked, Rewritten;
      if branch == [] {
        return false;
      }
      ghost var hs, f := Hashes(p, branch), branch[0].header.height;
      var batch: seq<Operation> := [];
      ghost var entries := store.entries;
      NothingRewritten(store.entries, f, hs);
      var i := 0;
      while i < |branch|
        invariant i <= |branch| && unchanged(this) && unchanged(store)
        invariant entries == ApplyBatch(store.entries, batch) && Rewritten(store.entries, entries, f, hs[..i], f + i)
      {
        var encoded := EncodeHeaderBytes(branch[i].header);
        var hash := p.hash(encoded);
        assert hash == hs[i] && branch[i].header.height == f + i by { BranchHash(p, branch, i); }
        assert hs[..i + 1] == hs[..i] + [hash];
        RewriteNext(store.entries, entries, f, hs[..i], hash);
        ApplyBatchAppend(store.entries, batch, Put(HeightKey(branch[i].header.height), hash));
        batch := batch + [Put(HeightKey(branch[i].header.height), hash)];
        entries := entries[HeightKey(branch[i].header.height) := hash];
        i := i + 1;
      }
      assert hs[..i] == hs;
      var tip := Last(branch).header;
      var stale: nat := Add64(tip.height, 1);
      while stale <= head.height
        invariant f + |hs| <= stale && (stale <= head.height + 1 || stale == f + |hs|) && unchanged(this) && unchanged(store)
        invariant entries == ApplyBatch(store.entries, batch) && Rewritten(store.entries, entries, f, hs, stale)
      {
        EraseNext(store.entries, entries, f, hs, stale);
        ApplyBatchAppend(store.entries, batch, Erase(HeightKey(stale)));
        batch := batch + [Erase(HeightKey(stale))];
        entries := entries - {HeightKey(stale)};
        stale := stale + 1;
      }
      var encoded := EncodeHeaderBytes(tip);
      var tipHash := p.hash(encoded);
      assert tipHash == Last(hs) by { BranchHash(p, branch, |branch| - 1); }
      ghost var newIndex := index[..f] + hs;
      assert |index| == head.height + 1 by { LinkedHead(p, blocks, index); }
      RewriteDone(store.entries, entries, blocks, index, f, hs, stale);
      SwitchEntries(store.entries, entries, blocks, index, newIndex);
      ApplyBatchAppend(store.entries, batch, Put(HeadKey(), tipHash));
      batch := batch + [Put(HeadKey(), tipHash)];
      ForkIsLinked(p, blocks, index, branch);
      assert blocks[tipHash] == Last(branch) by { BranchHash(p, branch, |branch| - 1); }
      store.Apply(batch);
      index := newIndex;
      head := tip;
      headHash := tipHash;
      return true;
    }

    /** Opening: a store without a head entry is given the genesis block, any other is read back from its head entry.
        The ghost arguments name what a non-empty store represents, if it represents a chain. */
    static method Open(p: Params, store: MemoryStore, ghost blocks: Blocks, ghost index: seq<Hash256>)
      returns (chain: Option<Blockchain>)
      requires p.genesis.header.height == 0 && Fits(p.genesis)
      modifies store
      ensures chain.Some? ==> fresh(chain.value) && chain.value.p == p && chain.value.store == store
      ensures var stored := StoredHead(old(store.entries));
        if stored.None? then
          chain.Some? && chain.value.head == p.genesis.header && chain.value.headHash == GenesisHash(p) &&
          store.entries == old(store.entries)[HashKey(HEADER, GenesisHash(p)) := EncodeHeader(p.genesis.header)]
            [HashKey(BODY, GenesisHash(p)) := EncodeBlock(p.genesis)][HeightKey(0) := GenesisHash(p)][HeadKey() := GenesisHash(p)]
        else
          store.entries == old(store.entries) &&
          (chain.Some? <==> |stored.value| == 32 && StoredHeader(store.entries, stored.value).Some?) &&
          (chain.Some? ==> chain.value.headHash == stored.value && Some(chain.value.head) == StoredHeader(store.entries, stored.value))
      ensures old(store.entries) == map[] || Exact(p, old(store.entries), blocks, index) ==> chain.Some? && chain.value.Valid()
      ensures old(store.entries) == map[] ==>
        chain.value.blocks == map[GenesisHash(p) := p.genesis] && chain.value.index == [GenesisHash(p)]
      ensures Exact(p, old(store.entries), blocks, index) ==> chain.value.blocks == blocks && chain.value.index == index
    {
      hide EncodeHeader, EncodeBlock, HashKey, HeightKey, HeadKey, DecodeHeader;
      var stored := store.Get(HeadKey());
      if stored.None? {
        var encoded := EncodeHeaderBytes(p.genesis.header);
        var hash := p.hash(encoded);
        var created := new Blockchain(p, store, p.genesis.header, hash, map[hash := p.genesis], [hash]);
        created.WriteBlock(p.genesis, hash);
        if old(store.entries) == map[] {
          GenesisEntries(store.entries, p.genesis, hash);
        }
        return Some(created);
      }
      if |stored.value| != 32 {
        return None;
      }
      var existing := new Blockchain(p, store, p.genesis.header, stored.value, blocks, index);
      var header := existing.LoadHeader(stored.value);
      if Exact(p, store.entries, blocks, index) {
        StoredHeaderIs(p, store.entries, blocks, index, stored.value);
      }
      if header.None? {
        return None;
      }
      existing.head := header.value;
      return Some(existing);
    }

    /** headerByHash as `open` calls it, before the head is known. */
    method LoadHeader(h: Hash256) returns (header: Option<BlockHeader>)
      ensures header == StoredHeader(store.entries, h)
    {
      var stored := store.Get(HashKey(HEADER, h));
      if stored.None? {
        return None;
      }
      header := DecodeHeaderBytes(stored.value);
    }
  }

  lemma StoredHeaderIs(p: Params, entries: Entries, blocks: Blocks, index: seq<Hash256>, h: Hash256)
    requires Exact(p, entries, blocks, index) && h in blocks
    ensures StoredHeader(entries, h) == Some(blocks[h].header)
  {
    hide EncodeBlock, ReadHeader, HashKey, HeightKey;
    assert HeaderEntry(entries, blocks, h);
    EncodedHeaderFits(blocks[h]);
    HeaderDecodesExactly(EncodeHeader(blocks[h].header), blocks[h].header);
  }

  lemma EncodedHeaderFits(b: Block)
    requires Fits(b)
    ensures |EncodeHeader(b.header)| < SIZE_LIMIT
  {
    hide EncodeHeader;
  }

  lemma GenesisEntries(entries: Entries, b: Block, hash: Hash256)
    requires entries == map[][HashKey(HEADER, hash) := EncodeHeader(b.header)][HashKey(BODY, hash) := EncodeBlock(b)]
      [HeightKey(0) := hash][HeadKey() := hash]
    ensures Represents(entries, map[hash := b], [hash])
  {
    hide EncodeHeader, EncodeBlock, HashKey, HeightKey;
    var blocks: Blocks := map[hash := b];
    var index := [hash];
    forall x: Hash256 ensures HeaderEntry(entries, blocks, x) && BodyEntry(entries, blocks, x) {
      KeysAreDisjoint(HEADER, x, HEADER, hash, 0, 0);
      KeysAreDisjoint(HEADER, x, BODY, hash, 0, 0);
      KeysAreDisjoint(BODY, x, BODY, hash, 0, 0);
      KeysAreDisjoint(BODY, x, HEADER, hash, 0, 0);
    }
    forall k: u64 ensures HeightEntry(entries, index, k) {
      KeysAreDisjoint(0, hash, 0, hash, k, 0);
    }
  }

  /** Height slots from `f` on hold `hs`, those after it up to `stale` are empty, everything else is as in `base`. */
  ghost predicate Rewritten(base: Entries, entries: Entries, f: nat, hs: seq<Hash256>, stale: nat) {
    SameExceptHeights(base, entries) && f + |hs| <= stale &&
    forall k: u64 :: Slot(entries, k) ==
      (if f <= k < f + |hs| then Some(hs[k - f]) else if f + |hs| <= k < stale then None else Slot(base, k))
  }

  lemma NothingRewritten(base: Entries, f: nat, hs: seq<Hash256>)
    ensures ApplyBatch(base, []) == base && Rewritten(base, base, f, hs[..0], f)
  {
  }

  lemma RewriteNext(base: Entries, entries: Entries, f: nat, hs: seq<Hash256>, h: Hash256)
    requires Rewritten(base, entries, f, hs, f + |hs|) && f + |hs| < U64
    ensures Rewritten(base, entries[HeightKey(f + |hs|) := h], f, hs + [h], f + |hs| + 1)
  {
    hide Slot, HeightKey, SameExceptHeights;
    SlotPut(base, entries, entries[HeightKey(f + |hs|) := h], f + |hs|, h);
  }

  lemma EraseNext(base: Entries, entries: Entries, f: nat, hs: seq<Hash256>, stale: nat)
    requires Rewritten(base, entries, f, hs, stale) && stale < U64
    ensures Rewritten(base, entries - {HeightKey(stale)}, f, hs, stale + 1)
  {
    hide Slot, HeightKey, SameExceptHeights;
    SlotErase(base, entries, entries - {HeightKey(stale)}, stale);
  }

  lemma RewriteDone(base: Entries, entries: Entries, blocks: Blocks, index: seq<Hash256>, f: nat, hs: seq<Hash256>, stale: nat)
    requires Represents(base, blocks, index) && f <= |index|
    requires Rewritten(base, entries, f, hs, stale) && |index| <= stale
    ensures var newIndex := index[..f] + hs;
      SameExceptHeights(base, entries) &&
      forall k: u64 :: Slot(entries, k) == if k < |newIndex| then Some(newIndex[k]) else None
  {
    hide Slot, SameExceptHeights, Represents;
    OldSlots(base, blocks, index);
  }

  lemma BranchHash(p: Params, branch: seq<Block>, i: nat)
    requires i < |branch|
    ensures Hashes(p, branch)[i] == p.hash(EncodeHeader(branch[i].header)) == HeaderHash(p, branch[i].header)
  {
  }

  lemma SlotPut(base: Entries, entries: Entries, next: Entries, k: u64, h: Hash256)
    requires SameExceptHeights(base, entries) && next == entries[HeightKey(k) := h]
    ensures SameExceptHeights(base, next)
    ensures forall j: u64 :: Slot(next, j) == if j == k then Some(h) else Slot(entries, j)
  {
    hide HeightKey;
    forall j: u64 ensures Slot(next, j) == if j == k then Some(h) else Slot(entries, j) {
      KeysAreDisjoint(0, h, 0, h, j, k);
    }
  }

  lemma SlotErase(base: Entries, entries: Entries, next: Entries, k: u64)
    requires SameExceptHeights(base, entries) && next == entries - {HeightKey(k)}
    ensures SameExceptHeights(base, next)
    ensures forall j: u64 :: Slot(next, j) == if j == k then None else Slot(entries, j)
  {
    hide HeightKey;
    forall j: u64 ensures Slot(next, j) == if j == k then None else Slot(entries, j) {
      assert HeightKey(j) == HeightKey(k) ==> j == k;
    }
  }

  lemma OldSlots(entries: Entries, blocks: Blocks, index: seq<Hash256>)
    requires Represents(entries, blocks, index)
    ensures forall k: u64 :: Slot(entries, k) == if k < |index| then Some(index[k]) else None
  {
    hide HeightKey, EncodeHeader, EncodeBlock;
    forall k: u64 ensures Slot(entries, k) == if k < |index| then Some(index[k]) else None {
      assert HeightEntry(entries, index, k);
    }
  }

  lemma LinkedHead(p: Params, blocks: Blocks, index: seq<Hash256>)
    requires Linked(p, blocks, index)
    ensures Last(index) in blocks && blocks[Last(index)].header.height == |index| - 1
  {
  }

  lemma TwoOperations(entries: Entries, batch: seq<Operation>)
    requires |batch| == 2
    ensures ApplyBatch(entries, batch) == ApplyOperation(ApplyOperation(entries, batch[0]), batch[1])
  {
    assert ApplyBatch(ApplyOperation(entries, batch[0]), batch[1..]) ==
      ApplyBatch(ApplyOperation(ApplyOperation(entries, batch[0]), batch[1]), batch[1..][1..]);
  }

  lemma FourOperations(entries: Entries, batch: seq<Operation>)
    requires |batch| == 4
    ensures ApplyBatch(entries, batch) ==
      ApplyOperation(ApplyOperation(ApplyOperation(ApplyOperation(entries, batch[0]), batch[1]), batch[2]), batch[3])
  {
    var after := ApplyOperation(ApplyOperation(entries, batch[0]), batch[1]);
    assert batch[1..][1..] == batch[2..];
    assert ApplyBatch(entries, batch) == ApplyBatch(ApplyOperation(entries, batch[0]), batch[1..]) == ApplyBatch(after, batch[2..]);
    TwoOperations(after, batch[2..]);
  }

  /** A block stored beside a linked path, new or with a header that is already there, leaves it linked, and extends it
      when it follows its last element. */
  lemma LinkedGrows(p: Params, before: Blocks, after: Blocks, path: seq<Hash256>, b: Block)
    requires Linked(p, before, path) && NoClash(p, before, b.header) && after == before[HeaderHash(p, b.header) := b]
    ensures Linked(p, after, path)
    ensures b.header.parentHash == Last(path) && b.header.height == |path| ==> Linked(p, after, path + [HeaderHash(p, b.header)])
  {
    hide HeaderHash;
  }
}
