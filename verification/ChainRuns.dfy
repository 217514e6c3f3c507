/** What holds in every state a node reaches, and across every run of imports. */
module ChainRuns {
  import opened Core
  import opened Numbers
  import opened Primitives
  import opened Ledger
  import opened Supply
  import opened Nonces
  import opened Pow
  import opened BlockTree

  // ------------------------------------------------------- one import

  ghost predicate Advances(o: Outcome) { o == Imported || o == Reorged }

  /** Stored blocks are never lost or changed, and only `imported` and `reorged` touch head, index and ledger:
      a rejected, forked or aborted import leaves them as they were. */
  lemma ImportPersistsAndAborts(p: Params, n: Node, b: Block)
    requires HasHead(n)
    ensures var (m, outcome) := Import(p, n, b);
      Extends(n.blocks, m.blocks) &&
      (!Advances(outcome) ==> m.index == n.index && m.ledger == n.ledger && HeadHash(m) == HeadHash(n)) &&
      (Advances(outcome) ==> HeaderHash(p, b.header) !in n.blocks && HeadHash(m) == HeaderHash(p, b.header) && Head(m) == b.header) &&
      (m.blocks == n.blocks || m.blocks == n.blocks[HeaderHash(p, b.header) := b])
  {
    hide Follows, Execute, LedgerAt, Better, HeaderHash;
  }

  /** When the head moves it moves to a header that beats the old one. */
  lemma HeadAdvances(p: Params, n: Node, b: Block)
    requires Inv(p, n) && |n.blocks| < U64
    ensures var (m, outcome) := Import(p, n, b);
      Head(m) == Head(n) || Better(p, Head(m), Head(n))
    ensures Advances(Import(p, n, b).1) ==> Better(p, b.header, Head(n))
  {
    hide Follows, Execute, LedgerAt, PathTo, Better, HeaderHash, HeadIsBest, HeadIsLeaf;
    var (m, outcome) := Import(p, n, b);
    ImportPersistsAndAborts(p, n, b);
    if outcome == Imported {
      HeightExact(p, n.blocks, b.header);
      ChildIsBetter(p, b.header, Head(n));
    }
  }

  /** A reorganisation never just extends the old chain: the old head leaves the canonical index. */
  lemma ReorgReplaces(p: Params, n: Node, b: Block)
    requires Inv(p, n) && |n.blocks| < U64 && Import(p, n, b).1 == Reorged
    ensures HeadHash(n) in n.index && HeadHash(n) !in Import(p, n, b).0.index
  {
    hide Follows, Execute, LedgerAt, PathTo, Better, HeaderHash, HeadIsBest, HeadIsLeaf, Tree, Linked;
    var m := Import(p, n, b).0;
    var h := HeaderHash(p, b.header);
    ImportPersistsAndAborts(p, n, b);
    TreeGrows(p, n.blocks, b);
    PathIsLinked(p, m.blocks, h);
    PathIsLinked(p, n.blocks, HeadHash(n));
    GenesisStored(p, m.blocks);
    OldHeadLeaves(p, n, b, m.blocks, m.index);
    assert n.index[|n.index| - 1] == HeadHash(n);
  }

  lemma GenesisStored(p: Params, blocks: Blocks)
    requires Tree(p, blocks)
    ensures GenesisHash(p) in blocks && blocks[GenesisHash(p)].header.height == 0
  {
  }

  lemma OldHeadLeaves(p: Params, n: Node, b: Block, blocks: Blocks, path: seq<Hash256>)
    requires HasHead(n) && HeadIsLeaf(p, n) && b.header.parentHash != HeadHash(n)
    requires HeaderHash(p, b.header) !in n.blocks && blocks == n.blocks[HeaderHash(p, b.header) := b]
    requires Linked(p, blocks, path) && Last(path) == HeaderHash(p, b.header)
    requires GenesisHash(p) in blocks && blocks[GenesisHash(p)].header.height == 0
    ensures HeadHash(n) !in path
  {
    hide HeaderHash;
    forall k | 0 <= k < |path| ensures path[k] != HeadHash(n) {
      if k + 1 < |path| {
        assert blocks[path[k + 1]].header.parentHash == path[k];
      }
    }
  }

  lemma KnownIsIgnored(p: Params, n: Node, b: Block)
    requires HasHead(n) && HeaderHash(p, b.header) in n.blocks
    ensures Import(p, n, b) == (n, AlreadyKnown)
  {
  }

  /** Every stored block other than genesis carries its proof of work and follows its parent in height and time. */
  lemma StoredBlocksAreWorked(p: Params, n: Node, h: Hash256)
    requires Inv(p, n) && h in n.blocks && h != GenesisHash(p) && p.difficultyBits <= 256
    ensures var b := n.blocks[h].header; b.parentHash in n.blocks && var parent := n.blocks[b.parentHash].header;
      BE(h) < Pow2(256 - p.difficultyBits) && b.height == parent.height + 1 && b.timestamp > parent.timestamp &&
      |b.consensusSeal| == 8
  {
    hide MeetsDifficulty, BE, Pow2, LedgerAt, PathTo, HeadIsBest, HeadIsLeaf;
    assert Attached(p, n.blocks, h);
    DifficultyIsNumericBound(p, h);
  }

  // ------------------------------------------------------- runs

  lemma {:induction false} RunAppend(p: Params, n: Node, bs: seq<Block>, b: Block)
    requires HasHead(n)
    ensures Run(p, n, bs + [b]) == Import(p, Run(p, n, bs), b).0
    decreases |bs|
  {
    hide Import;
    if bs == [] {
      assert [] + [b] == [b] && [b][1..] == [];
      assert Run(p, n, [b]) == Run(p, Import(p, n, b).0, []);
    } else {
      assert (bs + [b])[1..] == bs[1..] + [b];
      RunAppend(p, Import(p, n, bs[0]).0, bs[1..], b);
    }
  }

  lemma {:induction false} RunConcat(p: Params, n: Node, xs: seq<Block>, ys: seq<Block>)
    requires HasHead(n)
    ensures Run(p, n, xs + ys) == Run(p, Run(p, n, xs), ys)
    decreases |xs|
  {
    hide Import;
    if xs == [] {
      assert xs + ys == ys;
    } else {
      assert (xs + ys)[1..] == xs[1..] + ys;
      RunConcat(p, Import(p, n, xs[0]).0, xs[1..], ys);
    }
  }

  /** The invariant in every reached state; the head never falls back; stored blocks stay. */
  lemma {:induction false} RunKeepsInv(p: Params, n: Node, bs: seq<Block>)
    requires Inv(p, n) && |n.blocks| + |bs| < U64
    ensures var m := Run(p, n, bs);
      Inv(p, m) && Extends(n.blocks, m.blocks) && |m.blocks| <= |n.blocks| + |bs| &&
      (Head(m) == Head(n) || Better(p, Head(m), Head(n)))
    decreases |bs|
  {
    hide Import, Inv, Better;
    InvHasHead(p, n);
    if bs != [] {
      var m := Import(p, n, bs[0]).0;
      ImportPersistsAndAborts(p, n, bs[0]);
      ImportKeepsInv(p, n, bs[0]);
      HeadAdvances(p, n, bs[0]);
      RunKeepsInv(p, m, bs[1..]);
      BetterTransitive(p, Head(Run(p, n, bs)), Head(m), Head(n));
    }
  }

  lemma BetterTransitive(p: Params, a: BlockHeader, b: BlockHeader, c: BlockHeader)
    ensures (a == b || Better(p, a, b)) && (b == c || Better(p, b, c)) ==> a == c || Better(p, a, c)
    ensures !(Better(p, a, b) && Better(p, b, a)) && !Better(p, a, a)
  {
    hide Compare;
    CompareTotalPreorder(p, a, b, c);
    CompareTotalPreorder(p, a, a, a);
  }

  /** Fork-choice optimality: whatever was imported in whatever order, the head replays and beats every other
      stored block that replays. */
  lemma HeadIsOptimal(p: Params, bs: seq<Block>)
    requires GenesisOk(p) && 1 + |bs| < U64
    ensures var n := Run(p, FreshNode(p), bs);
      Replayable(p, n.blocks, HeadHash(n)) &&
      forall h <- n.blocks :: Replayable(p, n.blocks, h) && h != HeadHash(n) ==> Better(p, Head(n), n.blocks[h].header)
  {
    StartInv(p);
    RunKeepsInv(p, FreshNode(p), bs);
    hide LedgerAt, PathTo, Tree;
  }

  /** A head once left is never the head again. */
  lemma HeadNeverRevisited(p: Params, n: Node, xs: seq<Block>, ys: seq<Block>)
    requires Inv(p, n) && |n.blocks| + |xs| + |ys| < U64
    requires Head(Run(p, n, xs + ys)) == Head(n)
    ensures Head(Run(p, n, xs)) == Head(n)
  {
    hide Inv, Better, Run;
    InvHasHead(p, n);
    RunKeepsInv(p, n, xs);
    RunKeepsInv(p, Run(p, n, xs), ys);
    RunConcat(p, n, xs, ys);
    BetterTransitive(p, Head(Run(p, n, xs)), Head(n), Head(n));
  }

  /** Subscribers hear of a header hash at most once: after it was imported or reorged to, it is already known. */
  lemma ImportOnce(p: Params, n: Node, b: Block, between: seq<Block>, again: Block)
    requires Inv(p, n) && |n.blocks| + 1 + |between| < U64
    requires HeaderHash(p, again.header) == HeaderHash(p, b.header)
    requires Advances(Import(p, n, b).1)
    ensures Import(p, Run(p, Import(p, n, b).0, between), again).1 == AlreadyKnown
  {
    hide Inv, Better, HeaderHash, Run, Import;
    InvHasHead(p, n);
    ImportPersistsAndAborts(p, n, b);
    ImportKeepsInv(p, n, b);
    RunKeepsInv(p, Import(p, n, b).0, between);
    KnownIsIgnored(p, Run(p, Import(p, n, b).0, between), again);
  }

  // ------------------------------------------------------- the ledger of a reached state

  function BlocksOf(blocks: Blocks, path: seq<Hash256>): seq<Block>
    requires forall h <- path :: h in blocks
  {
    if path == [] then [] else [blocks[path[0]]] + BlocksOf(blocks, path[1..])
  }

  lemma {:induction false} BlocksOfAppend(blocks: Blocks, path: seq<Hash256>, h: Hash256)
    requires h in blocks && forall x <- path :: x in blocks
    ensures (forall x <- path + [h] :: x in blocks) && BlocksOf(blocks, path + [h]) == BlocksOf(blocks, path) + [blocks[h]]
  {
    if path == [] {
      assert [] + [h] == [h] && [h][1..] == [];
    } else {
      assert (path + [h])[1..] == path[1..] + [h];
      BlocksOfAppend(blocks, path[1..], h);
    }
  }

  /** The recursive ledger is the replay, from the genesis ledger, of the blocks above genesis on the path. */
  lemma {:induction false} LedgerIsReplay(p: Params, blocks: Blocks, h: Hash256)
    requires Tree(p, blocks) && h in blocks
    ensures var path := PathTo(p, blocks, h);
      (forall x <- path[1..] :: x in blocks) &&
      LedgerAt(p, blocks, h) == Replay(p, GenesisLedger(p), BlocksOf(blocks, path[1..]))
    decreases blocks[h].header.height
  {
    hide Follows, HeaderHash, Execute;
    PathIsLinked(p, blocks, h);
    var path := PathTo(p, blocks, h);
    if h != GenesisHash(p) {
      assert Attached(p, blocks, h);
      var parent := blocks[h].header.parentHash;
      LedgerIsReplay(p, blocks, parent);
      var front := PathTo(p, blocks, parent)[1..];
      assert path[1..] == front + [h];
      BlocksOfAppend(blocks, front, h);
      ReplayAppend(p, GenesisLedger(p), BlocksOf(blocks, front), blocks[h]);
    }
  }

  /** The canonical blocks above genesis. */
  function Canonical(n: Node): seq<Block>
    requires n.index != [] && forall h <- n.index[1..] :: h in n.blocks
  {
    BlocksOf(n.blocks, n.index[1..])
  }

  /** Ledger refinement: the incrementally kept ledger is the replay of the canonical chain and has the head's root. */
  lemma LedgerRefinesReplay(p: Params, n: Node)
    requires GenesisOk(p) && Inv(p, n)
    ensures (forall h <- n.index[1..] :: h in n.blocks) &&
      Replay(p, GenesisLedger(p), Canonical(n)) == Some(n.ledger) && StateRoot(p, n.ledger) == Head(n).stateRoot
    ensures |n.index| == Head(n).height + 1 && Linked(p, n.blocks, n.index)
  {
    hide HeadIsBest, HeadIsLeaf, Follows, HeaderHash, Apply, EncodeAccounts;
    LedgerIsReplay(p, n.blocks, HeadHash(n));
    PathIsLinked(p, n.blocks, HeadHash(n));
  }

  lemma {:induction false} BlocksOfLength(blocks: Blocks, path: seq<Hash256>)
    requires forall h <- path :: h in blocks
    ensures |BlocksOf(blocks, path)| == |path|
  {
    if path != [] { BlocksOfLength(blocks, path[1..]); }
  }

  /** Supply and nonces of every reached node: one reward a canonical block, and every account's nonce its number
      of canonical transactions. */
  lemma ReachedLedger(p: Params, n: Node) returns (wraps: nat)
    requires GenesisOk(p) && Inv(p, n)
    ensures forall h <- n.index[1..] :: h in n.blocks
    ensures var expected := Total(GenesisLedger(p)) + Head(n).height * p.blockReward;
      Total(n.ledger) + wraps * U64 == expected && (expected < U64 ==> Total(n.ledger) == expected)
    ensures var ts := AllTransactions(Canonical(n));
      |ts| < U64 ==>
      (forall a :: NonceOf(n.ledger, a) == CountFrom(ts, a)) &&
      (forall i, j :: 0 <= i < j < |ts| && ts[i].from == ts[j].from ==> ts[i].nonce < ts[j].nonce)
  {
    hide Inv, Total, NonceOf, CountFrom, Replay, Allocate;
    LedgerRefinesReplay(p, n);
    BlocksOfLength(n.blocks, n.index[1..]);
    wraps := SupplyConserved(p, GenesisLedger(p), Canonical(n));
    if |AllTransactions(Canonical(n))| < U64 { NoReplay(p, Canonical(n)); }
  }
}
