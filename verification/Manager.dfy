/** The single write path: importing blocks, extending the head, keeping side chains and reorganising.
    Every method is proved to compute on the byte store what `Import` says of the abstract node. */
module Manager {
  import opened Core
  import opened Primitives
  import opened PrimitiveCodec
  import opened Ledger
  import opened Pow
  import opened BlockTree
  import opened ChainRuns
  import opened KvChain
  import opened Storage

  /** The replay of canonical blocks 1..f-1 and then a branch forking off there, in terms of the tree. */
  lemma {:induction false} CanonicalReplay(p: Params, blocks: Blocks, index: seq<Hash256>, f: nat)
    requires Tree(p, blocks) && Linked(p, blocks, index) && 1 <= f <= |index|
    ensures (forall h <- index[1..f] :: h in blocks) && index[f - 1] in blocks
    ensures Replay(p, GenesisLedger(p), BlocksOf(blocks, index[1..f])) == LedgerAt(p, blocks, index[f - 1])
  {
    hide Replay, LedgerAt, HeaderHash, Tree;
    LinkedPrefix(p, blocks, index, f - 1);
    LinkedIsPath(p, blocks, index[..f]);
    LedgerIsReplay(p, blocks, index[f - 1]);
    assert index[..f][1..] == index[1..f];
  }

  lemma {:induction false} BranchReplay(p: Params, blocks: Blocks, index: seq<Hash256>, branch: seq<Block>, i: nat)
    requires Tree(p, blocks) && Linked(p, blocks, index) && Forks(p, blocks, index, branch) && i <= |branch|
    ensures forall h <- index[1..branch[0].header.height] :: h in blocks
    ensures Replay(p, GenesisLedger(p), BlocksOf(blocks, index[1..branch[0].header.height]) + branch[..i]) ==
      if i == 0 then LedgerAt(p, blocks, branch[0].header.parentHash) else LedgerAt(p, blocks, HeaderHash(p, branch[i - 1].header))
  {
    hide Replay, HeaderHash, LedgerAt, Execute, Tree, Linked, Forks, BlocksOf;
    ForksNonempty(p, blocks, index, branch);
    ForkBlock(p, blocks, index, branch, 0);
    var f := branch[0].header.height;
    CanonicalReplay(p, blocks, index, f);
    var trunk := BlocksOf(blocks, index[1..f]);
    if i == 0 {
      assert trunk + branch[..0] == trunk;
    } else {
      BranchReplay(p, blocks, index, branch, i - 1);
      assert trunk + branch[..i] == trunk + branch[..i - 1] + [branch[i - 1]];
      ReplayAppend(p, GenesisLedger(p), trunk + branch[..i - 1], branch[i - 1]);
      ForkBlock(p, blocks, index, branch, i - 1);
      LedgerStep(p, blocks, HeaderHash(p, branch[i - 1].header));
    }
  }

  lemma ForkBlock(p: Params, blocks: Blocks, index: seq<Hash256>, branch: seq<Block>, i: nat)
    requires Forks(p, blocks, index, branch) && i < |branch|
    ensures var h := HeaderHash(p, branch[i].header);
      h in blocks && blocks[h] == branch[i] && branch[i].header.height >= 1 &&
      branch[i].header.parentHash == if i == 0 then index[branch[0].header.height - 1] else HeaderHash(p, branch[i - 1].header)
    ensures 1 <= branch[0].header.height <= |index|
  {
  }

  lemma LedgerStep(p: Params, blocks: Blocks, h: Hash256)
    requires Tree(p, blocks) && h in blocks && blocks[h].header.height >= 1
    ensures blocks[h].header.parentHash in blocks
    ensures var before := LedgerAt(p, blocks, blocks[h].header.parentHash);
      LedgerAt(p, blocks, h) == if before.None? then None else Execute(p, before.value, blocks[h])
  {
    hide HeaderHash, Follows, Execute;
    assert Attached(p, blocks, h);
  }

  function Reversed<T>(s: seq<T>): (r: seq<T>)
    ensures |r| == |s| && forall i :: 0 <= i < |s| ==> r[i] == s[|s| - 1 - i]
  {
    if s == [] then [] else Reversed(s[1..]) + [s[0]]
  }

  /** Blocks from the tip downwards, each the parent of the one before, all off the canonical index. */
  ghost predicate Descends(p: Params, blocks: Blocks, index: seq<Hash256>, down: seq<Block>) {
    down != [] &&
    (forall i :: 0 <= i < |down| ==>
      HeaderHash(p, down[i].header) in blocks && blocks[HeaderHash(p, down[i].header)] == down[i] &&
      HeaderHash(p, down[i].header) !in index && down[i].header.height + i == down[0].header.height) &&
    (forall i :: 0 < i < |down| ==> down[i - 1].header.parentHash == HeaderHash(p, down[i].header))
  }

  ghost predicate Trunk(index: seq<Hash256>, lowest: BlockHeader) {
    Sub64(lowest.height, 1) < |index| && index[Sub64(lowest.height, 1)] == lowest.parentHash
  }

  lemma LowestAttached(p: Params, blocks: Blocks, index: seq<Hash256>, lowest: Block)
    requires Tree(p, blocks) && Linked(p, blocks, index)
    requires var h := HeaderHash(p, lowest.header); h in blocks && blocks[h] == lowest && h !in index
    ensures HasParent(blocks, lowest.header)
    ensures !Trunk(index, lowest.header) ==> lowest.header.parentHash !in index
  {
    hide HeaderHash, Follows, Tree, Linked;
    GenesisFirst(p, blocks, index);
    StoredIsAttached(p, blocks, HeaderHash(p, lowest.header));
    OnIndexAtHeight(p, blocks, index, lowest.header.parentHash);
  }

  lemma GenesisFirst(p: Params, blocks: Blocks, index: seq<Hash256>)
    requires Linked(p, blocks, index)
    ensures GenesisHash(p) in index
  {
    assert index[0] == GenesisHash(p);
  }

  lemma StoredIsAttached(p: Params, blocks: Blocks, h: Hash256)
    requires Tree(p, blocks) && h in blocks && h != GenesisHash(p)
    ensures HasParent(blocks, blocks[h].header)
  {
    assert Attached(p, blocks, h);
  }

  lemma DescendsLast(p: Params, blocks: Blocks, index: seq<Hash256>, down: seq<Block>)
    requires Descends(p, blocks, index, down)
    ensures down != [] && var h := HeaderHash(p, Last(down).header); h in blocks && blocks[h] == Last(down) && h !in index
  {
  }

  lemma DescendsFurther(p: Params, blocks: Blocks, index: seq<Hash256>, down: seq<Block>, b: Block)
    requires Descends(p, blocks, index, down)
    requires var h := HeaderHash(p, b.header); h in blocks && blocks[h] == b && h !in index && h == Last(down).header.parentHash
    requires b.header.height + 1 == Last(down).header.height
    ensures Descends(p, blocks, index, down + [b])
  {
    hide HeaderHash;
  }

  /** Below a block that is off the index and not attached to it lies another such block: the walk never runs out of
      parents, never reaches height 0, and so never wraps `height - 1`. */
  lemma WalkStep(p: Params, blocks: Blocks, index: seq<Hash256>, down: seq<Block>)
    requires Tree(p, blocks) && Linked(p, blocks, index) && Descends(p, blocks, index, down)
    ensures down != [] && var lowest := Last(down).header;
      lowest.height >= 1 && lowest.parentHash in blocks &&
      (!Trunk(index, lowest) ==> Descends(p, blocks, index, down + [blocks[lowest.parentHash]]))
  {
    hide HeaderHash, Descends, Linked, Trunk;
    DescendsLast(p, blocks, index, down);
    LowestAttached(p, blocks, index, Last(down));
    var parent := Last(down).header.parentHash;
    if !Trunk(index, Last(down).header) {
      assert HeaderHash(p, blocks[parent].header) == parent;
      DescendsFurther(p, blocks, index, down, blocks[parent]);
    }
  }

  lemma OnIndexAtHeight(p: Params, blocks: Blocks, index: seq<Hash256>, h: Hash256)
    requires Linked(p, blocks, index) && h in blocks
    ensures h in index <==> blocks[h].header.height < |index| && index[blocks[h].header.height] == h
  {
  }

  lemma WalkDone(p: Params, blocks: Blocks, index: seq<Hash256>, down: seq<Block>)
    requires Tree(p, blocks) && Linked(p, blocks, index) && Descends(p, blocks, index, down) && Trunk(index, Last(down).header)
    ensures Forks(p, blocks, index, Reversed(down))
    ensures forall b <- Reversed(down) :: HeaderHash(p, b.header) !in index
  {
    hide HeaderHash, Tree, Linked, Reversed;
    WalkStep(p, blocks, index, down);
    var branch := Reversed(down);
    assert branch[0] == Last(down);
    forall i | 0 <= i < |branch|
      ensures HeaderHash(p, branch[i].header) in blocks && blocks[HeaderHash(p, branch[i].header)] == branch[i]
      ensures branch[i].header.height == branch[0].header.height + i && HeaderHash(p, branch[i].header) !in index
      ensures i > 0 ==> branch[i].header.parentHash == HeaderHash(p, branch[i - 1].header)
    {
      DescendsAt(p, blocks, index, down, |down| - 1 - i);
      DescendsAt(p, blocks, index, down, |down| - 1);
    }
  }

  lemma DescendsAt(p: Params, blocks: Blocks, index: seq<Hash256>, down: seq<Block>, j: nat)
    requires Descends(p, blocks, index, down) && j < |down|
    ensures HeaderHash(p, down[j].header) in blocks && blocks[HeaderHash(p, down[j].header)] == down[j]
    ensures HeaderHash(p, down[j].header) !in index && down[j].header.height + j == down[0].header.height
    ensures j + 1 < |down| ==> down[j].header.parentHash == HeaderHash(p, down[j + 1].header)
  {
  }

  /** What the walk finds: the branch joins the canonical chain at the highest block common to the two paths. */
  lemma HighestCommonAncestor(p: Params, blocks: Blocks, index: seq<Hash256>, branch: seq<Block>)
    requires Tree(p, blocks) && Linked(p, blocks, index) && Forks(p, blocks, index, branch)
    requires forall b <- branch :: HeaderHash(p, b.header) !in index
    ensures var path := PathTo(p, blocks, HeaderHash(p, Last(branch).header)); var f := branch[0].header.height;
      path == index[..f] + Hashes(p, branch) &&
      forall k :: 0 <= k < |path| ==> (path[k] in index <==> k < f)
  {
    hide HeaderHash, Tree, PathTo, Linked, Hashes;
    var f := branch[0].header.height;
    ForkIsLinked(p, blocks, index, branch);
    var path := index[..f] + Hashes(p, branch);
    LinkedIsPath(p, blocks, path);
    forall k | 0 <= k < |path| ensures path[k] in index <==> k < f {
      if k < f {
        assert path[k] == index[k];
      } else {
        assert path[k] == HeaderHash(p, branch[k - f].header) && branch[k - f] in branch;
      }
    }
  }

  lemma ChainFacts(chain: Blockchain)
    requires chain.Valid()
    ensures Linked(chain.p, chain.blocks, chain.index) && (forall h <- chain.index :: h in chain.blocks)
    ensures chain.index != [] && chain.headHash == Last(chain.index) && chain.headHash in chain.blocks
    ensures chain.head == chain.blocks[chain.headHash].header && |chain.index| == chain.head.height + 1
  {
    LinkedHead(chain.p, chain.blocks, chain.index);
  }

  method ExecuteBlock(p: Params, ledger: Accounts, b: Block) returns (next: Option<Accounts>)
    ensures next == Execute(p, ledger, b)
  {
    next := ApplyBlock(p, ledger, b);
    if next.Some? {
      var root := ComputeStateRoot(p, next.value);
      if root != b.header.stateRoot {
        return None;
      }
    }
  }

  /** A block sealed, served and stored in memory, so its encoding is; and room below the 64-bit height limit. */
  ghost predicate Importable(chain: Blockchain, b: Block)
    reads chain
  {
    Fits(b) && |chain.blocks| + 1 < U64
  }

  ghost predicate AllFit(blocks: seq<Block>) { forall b <- blocks :: Fits(b) }

  class ChainManager {
    const p: Params
    const chain: Blockchain
    var ledger: Accounts
    /** The blocks subscribers were told of, oldest first. */
    var notified: seq<Block>

    ghost function State(): Node
      reads this, chain
    {
      Node(chain.blocks, chain.index, ledger)
    }

    ghost predicate Valid()
      reads this, chain, chain.store
    {
      chain.p == p && chain.Valid() && Inv(p, State())
    }

    constructor (p: Params, chain: Blockchain, ledger: Accounts)
      ensures this.p == p && this.chain == chain && this.ledger == ledger && notified == []
    {
      this.p, this.chain, this.ledger, this.notified := p, chain, ledger, [];
    }

    /** Starting on an opened chain: the ledger is rebuilt by replaying the canonical blocks. */
    static method Create(p: Params, chain: Blockchain, ghost ledger: Accounts) returns (manager: Option<ChainManager>)
      requires chain.p == p && chain.Valid() && Inv(p, Node(chain.blocks, chain.index, ledger))
      requires |chain.blocks| < U64
      ensures manager.Some? && fresh(manager.value) && manager.value.chain == chain && manager.value.p == p
      ensures manager.value.Valid() && manager.value.State() == Node(chain.blocks, chain.index, ledger)
    {
      hide Inv, Blockchain.Valid, Linked, Tree, LedgerAt, PathTo;
      InvHasHead(p, Node(chain.blocks, chain.index, ledger));
      ChainFacts(chain);
      var created := new ChainManager(p, chain, map[]);
      HeightBound(p, chain.blocks, chain.headHash);
      var replayed := created.ReplayBranch([]);
      if replayed.None? {
        return None;
      }
      created.ledger := replayed.value;
      return Some(created);
    }

    method ReplayBranch(branch: seq<Block>) returns (result: Option<Accounts>)
      requires chain.p == p && chain.Valid() && Tree(p, chain.blocks) && chain.head.height + 1 < U64
      requires branch != [] ==> Forks(p, chain.blocks, chain.index, branch)
      ensures result == LedgerAt(p, chain.blocks, if branch == [] then chain.headHash else HeaderHash(p, Last(branch).header))
    {
      hide HeaderHash, Follows, LedgerAt, Execute, Replay, Tree, Linked, Blockchain.Valid, BlocksOf;
      ChainFacts(chain);
      var forkHeight: u64 := if branch == [] then chain.head.height else Sub64(branch[0].header.height, 1);
      ghost var blocks, index, f := chain.blocks, chain.index, forkHeight + 1;
      LinkedHead(p, blocks, index);
      CanonicalReplay(p, blocks, index, f);
      if branch != [] {
        BranchReplay(p, blocks, index, branch, |branch|);
        ReplayConcat(p, GenesisLedger(p), BlocksOf(blocks, index[1..f]), branch);
        assert branch[..|branch|] == branch;
      }
      result := ReplayCanonical(forkHeight);
      if result.Some? {
        ReplayNothing(p, result.value);
        result := ReplayBlocks(result.value, branch);
      }
    }

    /** The loop over the canonical heights 1 to `forkHeight`. */
    method ReplayCanonical(forkHeight: u64) returns (result: Option<Accounts>)
      requires chain.p == p && chain.Valid() && forkHeight + 1 < U64 && forkHeight < |chain.index|
      ensures (forall h <- chain.index[1..forkHeight + 1] :: h in chain.blocks) &&
        result == Replay(p, GenesisLedger(p), BlocksOf(chain.blocks, chain.index[1..forkHeight + 1]))
    {
      hide HeaderHash, Execute, Replay, Linked, Blockchain.Valid;
      ChainFacts(chain);
      ghost var blocks, index, f := chain.blocks, chain.index, forkHeight + 1;
      var current := GenesisLedger(p);
      var height: nat := 1;
      while height <= forkHeight
        invariant 1 <= height <= f
        invariant Replay(p, current, BlocksOf(blocks, index[height..f])) == Replay(p, GenesisLedger(p), BlocksOf(blocks, index[1..f]))
      {
        var block := chain.BlockByHeight(height);
        assert block.Some?;
        assert index[height..f][1..] == index[height + 1..f];
        ReplayFirst(p, current, BlocksOf(blocks, index[height..f]));
        var next := ExecuteBlock(p, current, block.value);
        if next.None? {
          return None;
        }
        current := next.value;
        height := height + 1;
      }
      ReplayNothing(p, current);
      return Some(current);
    }

    /** The loop over the branch. */
    method ReplayBlocks(start: Accounts, branch: seq<Block>) returns (result: Option<Accounts>)
      ensures result == Replay(p, start, branch)
    {
      hide Execute, Replay;
      var current := start;
      var i := 0;
      while i < |branch|
        invariant i <= |branch| && Replay(p, current, branch[i..]) == Replay(p, start, branch)
      {
        assert branch[i..][1..] == branch[i + 1..];
        ReplayFirst(p, current, branch[i..]);
        var next := ExecuteBlock(p, current, branch[i]);
        if next.None? {
          return None;
        }
        current := next.value;
        i := i + 1;
      }
      assert branch[i..] == [];
      ReplayNothing(p, current);
      return Some(current);
    }

    method ReachedCanonicalTrunk(lowest: BlockHeader) returns (reached: bool)
      requires chain.p == p && chain.Valid()
      ensures reached == Trunk(chain.index, lowest)
    {
      hide Represents;
      var canonical := chain.HeaderByHeight(Sub64(lowest.height, 1));
      if canonical.None? {
        return false;
      }
      var encoded := EncodeHeaderBytes(canonical.value);
      return p.hash(encoded) == lowest.parentHash;
    }

    /** From a stored tip off the canonical chain down to the highest common ancestor. */
    method WalkToTrunk(tip: Block) returns (branch: seq<Block>)
      requires chain.p == p && chain.Valid() && Tree(p, chain.blocks)
      requires Descends(p, chain.blocks, chain.index, [tip])
      ensures Forks(p, chain.blocks, chain.index, branch) && Last(branch) == tip
      ensures forall b <- branch :: HeaderHash(p, b.header) !in chain.index
    {
      hide HeaderHash, Follows, Represents, Descends, Tree, Trunk, Linked;
      var down := [tip];
      var reached := ReachedCanonicalTrunk(tip.header);
      while !reached
        invariant down != [] && down[0] == tip
        invariant Descends(p, chain.blocks, chain.index, down) && reached == Trunk(chain.index, Last(down).header)
        decreases Last(down).header.height
      {
        WalkStep(p, chain.blocks, chain.index, down);
        var parent := chain.BlockByHash(Last(down).header.parentHash);
        assert parent.Some?;
        DescendsLowers(p, chain.blocks, chain.index, down, parent.value);
        down := down + [parent.value];
        reached := ReachedCanonicalTrunk(Last(down).header);
      }
      WalkDone(p, chain.blocks, chain.index, down);
      branch := Reversed(down);
    }

    /** Switching to the branch of a stored tip, if all of it replays; otherwise nothing changes. */
    method ReorgLocked(tip: Block) returns (outcome: Outcome)
      requires chain.p == p && chain.Valid() && Tree(p, chain.blocks)
      requires Descends(p, chain.blocks, chain.index, [tip])
      requires chain.head.height + 1 < U64 && tip.header.height + 1 < U64
      modifies this, chain, chain.store
      ensures chain.Valid() && chain.blocks == old(chain.blocks) && notified == old(notified)
      ensures HeaderHash(p, tip.header) in chain.blocks
      ensures var replayed := LedgerAt(p, chain.blocks, HeaderHash(p, tip.header));
        if replayed.None? then outcome == Invalid && chain.index == old(chain.index) && ledger == old(ledger)
        else outcome == Reorged && chain.index == PathTo(p, chain.blocks, HeaderHash(p, tip.header)) && ledger == replayed.value
    {
      hide HeaderHash, LedgerAt, PathTo, Tree, Linked, Descends, Blockchain.Valid, Forks, Hashes;
      DescendsLast(p, chain.blocks, chain.index, [tip]);
      ChainFacts(chain);
      var branch := WalkToTrunk(tip);
      assert branch != [] by { ForksNonempty(p, chain.blocks, chain.index, branch); }
      var replayed := ReplayBranch(branch);
      if replayed.None? {
        return Invalid;
      }
      HighestCommonAncestor(p, chain.blocks, chain.index, branch);
      var adopted := chain.AdoptBranch(branch);
      assert adopted;
      ledger := replayed.value;
      return Reorged;
    }

    method ImportLocked(block: Block) returns (outcome: Outcome)
      requires Valid() && Importable(chain, block)
      modifies this, chain, chain.store
      ensures chain.Valid() && chain.p == p && notified == old(notified)
      ensures (State(), outcome) == Import(p, old(State()), block)
    {
      hide HeaderHash, LedgerAt, PathTo, Tree, Linked, Blockchain.Valid, Inv, Better, Execute, MeetsDifficulty;
      ghost var before := State();
      InvHasHead(p, before);
      ChainFacts(chain);
      HeightBound(p, chain.blocks, chain.headHash);
      var encoded := EncodeHeaderBytes(block.header);
      var hash := p.hash(encoded);
      assert hash == HeaderHash(p, block.header) by { HeaderHashMeans(p, block.header); }
      var known := chain.HeaderByHash(hash);
      if known.Some? {
        return AlreadyKnown;
      }
      var parent := chain.HeaderByHash(block.header.parentHash);
      if parent.None? {
        return Orphaned;
      }
      var verified := Verify(p, block.header, parent.value);
      if !verified {
        return Invalid;
      }
      TreeGrows(p, chain.blocks, block);
      if block.header.parentHash == chain.headHash {
        var next := ExecuteBlock(p, ledger, block);
        if next.None? {
          return Invalid;
        }
        var appended := chain.AppendBlock(block);
        assert appended;
        ledger := next.value;
        return Imported;
      }
      outcome := ImportSideBlock(block);
    }

    /** A valid block that does not extend the head: stored, compared with the head, perhaps reorganised to. */
    method ImportSideBlock(block: Block) returns (outcome: Outcome)
      requires chain.p == p && chain.Valid() && Tree(p, chain.blocks) && Importable(chain, block)
      requires HeaderHash(p, block.header) !in chain.blocks
      requires Tree(p, chain.blocks[HeaderHash(p, block.header) := block])
      modifies this, chain, chain.store
      ensures chain.Valid() && notified == old(notified)
      ensures chain.blocks == old(chain.blocks)[HeaderHash(p, block.header) := block]
      ensures var replayed := LedgerAt(p, chain.blocks, HeaderHash(p, block.header)); var better := Better(p, block.header, old(chain.head));
        if better && replayed.Some?
        then outcome == Reorged && chain.index == PathTo(p, chain.blocks, HeaderHash(p, block.header)) && ledger == replayed.value
        else outcome == (if better then Invalid else Forked) && chain.index == old(chain.index) && ledger == old(ledger)
    {
      hide HeaderHash, LedgerAt, PathTo, Tree, Linked, Blockchain.Valid, Better, Descends;
      ghost var before, h := State(), HeaderHash(p, block.header);
      ChainFacts(chain);
      HeightBound(p, chain.blocks, chain.headHash);
      chain.StoreBlock(block);
      ChainFacts(chain);
      assert h in chain.blocks;
      if !Better(p, block.header, chain.head) {
        return Forked;
      }
      HeightBound(p, chain.blocks, h);
      NewTipDescends(p, before, block);
      outcome := ReorgLocked(block);
    }

    /** One block from a peer, the miner or a user: the whole import, then the subscribers. */
    method ImportBlock(block: Block) returns (outcome: Outcome)
      requires Valid() && Importable(chain, block)
      modifies this, chain, chain.store
      ensures Valid()
      ensures (State(), outcome) == Import(p, old(State()), block)
      ensures notified == old(notified) + if outcome == Imported || outcome == Reorged then [block] else []
    {
      hide HeaderHash, LedgerAt, PathTo, Tree, Linked, Blockchain.Valid, Inv, Import;
      ImportKeepsInv(p, State(), block);
      outcome := ImportLocked(block);
      if outcome == Imported || outcome == Reorged {
        notified := notified + [block];
      }
    }

    /** Any sequence of imports computes the abstract run, so what is proved of runs holds of the node on its store. */
    method ImportSequence(blocks: seq<Block>)
      requires Valid() && AllFit(blocks) && |chain.blocks| + |blocks| < U64
      modifies this, chain, chain.store
      ensures Valid() && HasHead(old(State()))
      ensures State() == Run(p, old(State()), blocks)
      ensures |chain.blocks| <= old(|chain.blocks|) + |blocks|
    {
      hide Inv, Import, Blockchain.Valid, HeaderHash, Fits;
      ghost var before := State();
      InvHasHead(p, before);
      assert blocks[0..] == blocks;
      var i := 0;
      while i < |blocks|
        invariant i <= |blocks| && Valid() && HasHead(State())
        invariant |chain.blocks| <= |before.blocks| + i
        invariant Run(p, State(), blocks[i..]) == Run(p, before, blocks)
      {
        ghost var here := State();
        assert blocks[i] in blocks && blocks[i..][1..] == blocks[i + 1..];
        ImportPersistsAndAborts(p, here, blocks[i]);
        var outcome := ImportBlock(blocks[i]);
        InvHasHead(p, State());
        i := i + 1;
      }
    }
  }

  /** Node start: open the store, then the manager. On an empty store that is the fresh node; on a store that a valid
      node has left behind, that very node again. */
  method Boot(p: Params, store: MemoryStore, ghost n: Node) returns (manager: Option<ChainManager>)
    requires GenesisOk(p) && Fits(p.genesis)
    requires store.entries == map[] || (Exact(p, store.entries, n.blocks, n.index) && Inv(p, n) && |n.blocks| < U64)
    modifies store
    ensures manager.Some? && manager.value.p == p && manager.value.chain.store == store && manager.value.Valid()
    ensures fresh(manager.value) && fresh(manager.value.chain)
    ensures manager.value.State() == if old(store.entries) == map[] then FreshNode(p) else n
    ensures old(store.entries) != map[] ==> store.entries == old(store.entries)
  {
    hide Inv, Blockchain.Valid, Exact, Fits, GenesisOk;
    ghost var expected := if store.entries == map[] then FreshNode(p) else n;
    StartInv(p);
    GenesisAtZero(p);
    if store.entries != map[] {
      ExactHasHead(p, store.entries, n.blocks, n.index);
    }
    var chain := Blockchain.Open(p, store, n.blocks, n.index);
    assert chain.Some?;
    manager := ChainManager.Create(p, chain.value, expected.ledger);
  }

  lemma ExactHasHead(p: Params, entries: Entries, blocks: Blocks, index: seq<Hash256>)
    requires Exact(p, entries, blocks, index)
    ensures StoredHead(entries).Some?
  {
  }

  lemma GenesisAtZero(p: Params)
    requires GenesisOk(p)
    ensures p.genesis.header.height == 0
  {
  }

  method Verify(p: Params, header: BlockHeader, parent: BlockHeader) returns (ok: bool)
    ensures ok == Follows(p, header, parent)
  {
    if header.height != Add64(parent.height, 1) { return false; }
    if header.timestamp <= parent.timestamp { return false; }
    if |header.consensusSeal| != SEAL_SIZE { return false; }
    var encoded := EncodeHeaderBytes(header);
    ok := CheckDifficulty(p, p.hash(encoded));
  }

  lemma HeaderHashMeans(p: Params, h: BlockHeader)
    ensures HeaderHash(p, h) == p.hash(EncodeHeader(h))
  {
  }

  lemma ForksNonempty(p: Params, blocks: Blocks, index: seq<Hash256>, branch: seq<Block>)
    requires Forks(p, blocks, index, branch)
    ensures branch != []
  {
  }

  /** A block just stored is on no canonical index that was there before. */
  lemma NewTipDescends(p: Params, n: Node, b: Block)
    requires HeaderHash(p, b.header) !in n.blocks && forall h <- n.index :: h in n.blocks
    ensures Descends(p, n.blocks[HeaderHash(p, b.header) := b], n.index, [b])
  {
    hide HeaderHash;
  }

  lemma DescendsLowers(p: Params, blocks: Blocks, index: seq<Hash256>, down: seq<Block>, b: Block)
    requires down != [] && Descends(p, blocks, index, down + [b])
    ensures b.header.height < Last(down).header.height
  {
    var longer := down + [b];
    assert longer[|down|] == b && longer[|down| - 1] == Last(down);
  }

  lemma ReplayFirst(p: Params, accounts: Accounts, blocks: seq<Block>)
    requires blocks != []
    ensures var next := Execute(p, accounts, blocks[0]);
      Replay(p, accounts, blocks) == if next.None? then None else Replay(p, next.value, blocks[1..])
  {
  }

  lemma {:induction false} ReplayConcat(p: Params, accounts: Accounts, xs: seq<Block>, ys: seq<Block>)
    ensures var middle := Replay(p, accounts, xs);
      Replay(p, accounts, xs + ys) == if middle.None? then None else Replay(p, middle.value, ys)
    decreases |xs|
  {
    hide Execute;
    if xs == [] {
      assert xs + ys == ys;
    } else {
      assert (xs + ys)[1..] == xs[1..] + ys;
      var next := Execute(p, accounts, xs[0]);
      if next.Some? { ReplayConcat(p, next.value, xs[1..], ys); }
    }
  }

  lemma ReplayNothing(p: Params, accounts: Accounts)
    ensures Replay(p, accounts, []) == Some(accounts)
  {
  }
}
