/** The node as a mathematical object: a tree of blocks, the canonical index and the ledger.
    `Import` says declaratively what one import does; the classes ChainManager and Blockchain are proved to
    compute it on the byte store. */
module BlockTree {
  import opened Core
  import opened Primitives
  import opened Ledger
  import opened Pow

  type Blocks = map<Hash256, Block>

  /** `index[k]` is the hash of the canonical block at height k; the last entry is the head. */
  datatype Node = Node(blocks: Blocks, index: seq<Hash256>, ledger: Accounts)

  datatype Outcome = Imported | Reorged | AlreadyKnown | Orphaned | Forked | Invalid

  function GenesisHash(p: Params): Hash256 { HeaderHash(p, p.genesis.header) }

  /** What buildGenesis and the composition root make of the genesis block. */
  ghost predicate GenesisOk(p: Params) {
    p.genesis.header.height == 0 && p.genesis.header.stateRoot == StateRoot(p, GenesisLedger(p))
  }

  predicate HasParent(blocks: Blocks, b: BlockHeader) {
    b.parentHash in blocks && blocks[b.parentHash].header.height + 1 == b.height
  }

  /** The hashes from genesis, or from where the parents run out, up to `h`. */
  function PathTo(p: Params, blocks: Blocks, h: Hash256): (path: seq<Hash256>)
    requires h in blocks
    ensures path != [] && Last(path) == h
    decreases blocks[h].header.height
  {
    var b := blocks[h].header;
    if h != GenesisHash(p) && HasParent(blocks, b) then PathTo(p, blocks, b.parentHash) + [h] else [h]
  }

  /** The ledger that executing every block from genesis to `h` reaches; None when `h` does not connect to genesis
      by valid headers, or a block on the way fails to execute or misses its state root. */
  function LedgerAt(p: Params, blocks: Blocks, h: Hash256): Option<Accounts>
    requires h in blocks
    decreases blocks[h].header.height
  {
    var b := blocks[h].header;
    if h == GenesisHash(p) then Some(GenesisLedger(p))
    else if HasParent(blocks, b) && Follows(p, b, blocks[b.parentHash].header) then
      var before := LedgerAt(p, blocks, b.parentHash);
      if before.None? then None else Execute(p, before.value, blocks[h])
    else None
  }

  ghost predicate Replayable(p: Params, blocks: Blocks, h: Hash256) {
    h in blocks && LedgerAt(p, blocks, h).Some?
  }

  predicate HasHead(n: Node) { n.index != [] && Last(n.index) in n.blocks }

  function HeadHash(n: Node): Hash256
    requires HasHead(n)
  {
    Last(n.index)
  }

  function Head(n: Node): BlockHeader
    requires HasHead(n)
  {
    n.blocks[HeadHash(n)].header
  }

  function Import(p: Params, n: Node, b: Block): (r: (Node, Outcome))
    requires HasHead(n)
    ensures HasHead(r.0)
  {
    var h := HeaderHash(p, b.header);
    if h in n.blocks then (n, AlreadyKnown)
    else if b.header.parentHash !in n.blocks then (n, Orphaned)
    else if !Follows(p, b.header, n.blocks[b.header.parentHash].header) then (n, Invalid)
    else
      var blocks := n.blocks[h := b];
      if b.header.parentHash == HeadHash(n) then
        var next := Execute(p, n.ledger, b);
        if next.None? then (n, Invalid) else (Node(blocks, n.index + [h], next.value), Imported)
      else if !Better(p, b.header, Head(n)) then (n.(blocks := blocks), Forked)
      else
        var replayed := LedgerAt(p, blocks, h);
        if replayed.None? then (n.(blocks := blocks), Invalid)
        else (Node(blocks, PathTo(p, blocks, h), replayed.value), Reorged)
  }

  function FreshNode(p: Params): (n: Node)
    ensures HasHead(n)
  {
    Node(map[GenesisHash(p) := p.genesis], [GenesisHash(p)], GenesisLedger(p))
  }

  function Run(p: Params, n: Node, bs: seq<Block>): (r: Node)
    requires HasHead(n)
    ensures HasHead(r)
    decreases |bs|
  {
    if bs == [] then n else Run(p, Import(p, n, bs[0]).0, bs[1..])
  }

  // ------------------------------------------------------- the invariant

  ghost predicate Attached(p: Params, blocks: Blocks, h: Hash256)
    requires h in blocks
  {
    HasParent(blocks, blocks[h].header) && Follows(p, blocks[h].header, blocks[blocks[h].header.parentHash].header)
  }

  /** Every stored block hashes to its key and, genesis apart, follows a stored parent one height below. */
  ghost predicate Tree(p: Params, blocks: Blocks) {
    GenesisHash(p) in blocks && blocks[GenesisHash(p)] == p.genesis && p.genesis.header.height == 0 &&
    (forall h <- blocks :: HeaderHash(p, blocks[h].header) == h) &&
    (forall h <- blocks :: h != GenesisHash(p) ==> Attached(p, blocks, h))
  }

  /** No replayable stored block beats the head, and none but the head ties with it. */
  ghost predicate HeadIsBest(p: Params, n: Node)
    requires HasHead(n)
  {
    forall h <- n.blocks :: Replayable(p, n.blocks, h) && h != HeadHash(n) ==> Better(p, Head(n), n.blocks[h].header)
  }

  /** No stored block, genesis apart, has the head as parent. */
  ghost predicate HeadIsLeaf(p: Params, n: Node)
    requires HasHead(n)
  {
    forall h <- n.blocks :: h != GenesisHash(p) ==> n.blocks[h].header.parentHash != HeadHash(n)
  }

  ghost predicate Inv(p: Params, n: Node) {
    Tree(p, n.blocks) && HasHead(n) &&
    n.index == PathTo(p, n.blocks, HeadHash(n)) &&
    LedgerAt(p, n.blocks, HeadHash(n)) == Some(n.ledger) &&
    HeadIsBest(p, n) && HeadIsLeaf(p, n)
  }

  lemma InvHasHead(p: Params, n: Node)
    requires Inv(p, n)
    ensures HasHead(n) && Tree(p, n.blocks) && LedgerAt(p, n.blocks, HeadHash(n)) == Some(n.ledger)
    ensures n.index == PathTo(p, n.blocks, HeadHash(n))
  {
  }

  // ------------------------------------------------------- paths

  ghost predicate Linked(p: Params, blocks: Blocks, path: seq<Hash256>) {
    path != [] && path[0] == GenesisHash(p) &&
    (forall k :: 0 <= k < |path| ==> path[k] in blocks && blocks[path[k]].header.height == k) &&
    (forall k :: 0 < k < |path| ==> blocks[path[k]].header.parentHash == path[k - 1])
  }

  /** The path to a stored block runs from genesis, one block a height, each linked to the one before. */
  lemma {:induction false} PathIsLinked(p: Params, blocks: Blocks, h: Hash256)
    requires Tree(p, blocks) && h in blocks
    ensures Linked(p, blocks, PathTo(p, blocks, h)) && |PathTo(p, blocks, h)| == blocks[h].header.height + 1
    decreases blocks[h].header.height
  {
    hide Follows, HeaderHash;
    if h != GenesisHash(p) {
      assert Attached(p, blocks, h);
      PathIsLinked(p, blocks, blocks[h].header.parentHash);
    }
  }

  /** Linked hashes form the path to their last element: the canonical index is determined by the head. */
  lemma {:induction false} LinkedIsPath(p: Params, blocks: Blocks, path: seq<Hash256>)
    requires Tree(p, blocks) && Linked(p, blocks, path)
    ensures PathTo(p, blocks, Last(path)) == path
    decreases |path|
  {
    hide Follows, HeaderHash;
    if |path| == 1 {
    } else {
      var front := path[..|path| - 1];
      assert Last(path) != GenesisHash(p);
      assert Attached(p, blocks, Last(path));
      LinkedIsPath(p, blocks, front);
      assert path == front + [Last(path)];
    }
  }

  lemma LinkedPrefix(p: Params, blocks: Blocks, path: seq<Hash256>, k: nat)
    requires Linked(p, blocks, path) && k < |path|
    ensures Linked(p, blocks, path[..k + 1]) && Last(path[..k + 1]) == path[k]
  {
  }

  /** Heights cannot reach the number of stored blocks, so while fewer than 2^64 are stored `height + 1` is exact. */
  lemma HeightBound(p: Params, blocks: Blocks, h: Hash256)
    requires Tree(p, blocks) && h in blocks
    ensures blocks[h].header.height < |blocks|
  {
    PathIsLinked(p, blocks, h);
    var path := PathTo(p, blocks, h);
    assert Distinct(path) by {
      forall i, j | 0 <= i < j < |path| ensures path[i] != path[j] {
        assert blocks[path[i]].header.height == i && blocks[path[j]].header.height == j;
      }
    }
    DistinctCardinality(path, blocks.Keys);
  }

  // ------------------------------------------------------- growth

  ghost predicate Extends(small: Blocks, big: Blocks) {
    forall h <- small :: h in big && big[h] == small[h]
  }

  /** Whatever is stored later, the path and the ledger of a stored block stay what they were. */
  lemma {:induction false} GrowthKeeps(p: Params, small: Blocks, big: Blocks, h: Hash256)
    requires Tree(p, small) && Extends(small, big) && h in small
    ensures PathTo(p, big, h) == PathTo(p, small, h)
    ensures LedgerAt(p, big, h) == LedgerAt(p, small, h)
    decreases small[h].header.height
  {
    hide Follows, HeaderHash, Execute;
    if h != GenesisHash(p) {
      assert Attached(p, small, h);
      GrowthKeeps(p, small, big, small[h].header.parentHash);
    }
  }

  lemma HeightExact(p: Params, blocks: Blocks, b: BlockHeader)
    requires Tree(p, blocks) && |blocks| < U64
    requires b.parentHash in blocks && Follows(p, b, blocks[b.parentHash].header)
    ensures HasParent(blocks, b)
  {
    hide Follows, HeaderHash;
    HeightBound(p, blocks, b.parentHash);
    FollowsHeight(p, b, blocks[b.parentHash].header);
  }

  lemma FollowsHeight(p: Params, b: BlockHeader, parent: BlockHeader)
    requires Follows(p, b, parent) && parent.height + 1 < U64
    ensures b.height == parent.height + 1
  {
  }

  /** Storing a new block whose header follows a stored parent. */
  lemma TreeGrows(p: Params, blocks: Blocks, b: Block)
    requires Tree(p, blocks) && |blocks| < U64
    requires HeaderHash(p, b.header) !in blocks && b.header.parentHash in blocks
    requires Follows(p, b.header, blocks[b.header.parentHash].header)
    ensures var h := HeaderHash(p, b.header);
      Tree(p, blocks[h := b]) && Extends(blocks, blocks[h := b]) && HasParent(blocks, b.header)
  {
    hide Follows, HeaderHash;
    HeightExact(p, blocks, b.header);
    var h := HeaderHash(p, b.header);
    var big := blocks[h := b];
    forall x <- big | x != GenesisHash(p) ensures Attached(p, big, x) {
      if x != h { assert Attached(p, blocks, x); }
    }
  }

  lemma NewLedger(p: Params, blocks: Blocks, b: Block)
    requires Tree(p, blocks) && |blocks| < U64
    requires HeaderHash(p, b.header) !in blocks && b.header.parentHash in blocks
    requires Follows(p, b.header, blocks[b.header.parentHash].header)
    ensures var h := HeaderHash(p, b.header); var before := LedgerAt(p, blocks, b.header.parentHash);
      LedgerAt(p, blocks[h := b], h) == (if before.None? then None else Execute(p, before.value, b)) &&
      PathTo(p, blocks[h := b], h) == PathTo(p, blocks, b.header.parentHash) + [h]
  {
    TreeGrows(p, blocks, b);
    GrowthKeeps(p, blocks, blocks[HeaderHash(p, b.header) := b], b.header.parentHash);
  }

  // ------------------------------------------------------- one import

  lemma StartInv(p: Params)
    requires GenesisOk(p)
    ensures Inv(p, FreshNode(p))
  {
  }

  /** A child one height up always beats its parent. */
  lemma ChildIsBetter(p: Params, child: BlockHeader, parent: BlockHeader)
    requires child.height == parent.height + 1
    ensures Better(p, child, parent)
  {
  }

  /** Storing b without touching the head keeps the head best when b loses or does not replay. */
  lemma SideBlockKeepsInv(p: Params, n: Node, b: Block)
    requires Inv(p, n) && |n.blocks| < U64
    requires HeaderHash(p, b.header) !in n.blocks && b.header.parentHash in n.blocks
    requires Follows(p, b.header, n.blocks[b.header.parentHash].header) && b.header.parentHash != HeadHash(n)
    requires var h := HeaderHash(p, b.header);
      Better(p, b.header, Head(n)) ==> LedgerAt(p, n.blocks[h := b], h).None?
    ensures Inv(p, n.(blocks := n.blocks[HeaderHash(p, b.header) := b]))
  {
    hide Follows, HeaderHash, Execute, Compare, LedgerAt, PathTo, Tree;
    var h := HeaderHash(p, b.header);
    var m := n.(blocks := n.blocks[h := b]);
    TreeGrows(p, n.blocks, b);
    GrowthKeeps(p, n.blocks, m.blocks, HeadHash(n));
    forall x <- m.blocks | Replayable(p, m.blocks, x) && x != HeadHash(m) ensures Better(p, Head(m), m.blocks[x].header) {
      if x != h {
        GrowthKeeps(p, n.blocks, m.blocks, x);
      } else {
        assert Compare(p, b.header, Head(n)) != Equal by {
          HashesDiffer(p, n.blocks, b, HeadHash(n));
          CompareIsNumeric(p, b.header, Head(n));
        }
        CompareTotalPreorder(p, b.header, Head(n), b.header);
      }
    }
  }

  lemma HashesDiffer(p: Params, blocks: Blocks, b: Block, h: Hash256)
    requires Tree(p, blocks) && h in blocks && HeaderHash(p, b.header) !in blocks
    ensures HeaderHash(p, b.header) != HeaderHash(p, blocks[h].header)
  {
  }

  /** A new block that replays and beats the head becomes the head. */
  lemma NewHeadKeepsInv(p: Params, n: Node, b: Block, ledger: Accounts)
    requires Inv(p, n) && |n.blocks| < U64
    requires HeaderHash(p, b.header) !in n.blocks && b.header.parentHash in n.blocks
    requires Follows(p, b.header, n.blocks[b.header.parentHash].header)
    requires Better(p, b.header, Head(n))
    requires LedgerAt(p, n.blocks[HeaderHash(p, b.header) := b], HeaderHash(p, b.header)) == Some(ledger)
    ensures var h := HeaderHash(p, b.header); var blocks := n.blocks[h := b];
      Inv(p, Node(blocks, PathTo(p, blocks, h), ledger))
  {
    hide Follows, HeaderHash, Execute, Compare, LedgerAt, PathTo;
    var h := HeaderHash(p, b.header);
    var blocks := n.blocks[h := b];
    var m := Node(blocks, PathTo(p, blocks, h), ledger);
    TreeGrows(p, n.blocks, b);
    forall x <- m.blocks | Replayable(p, m.blocks, x) && x != h ensures Better(p, b.header, m.blocks[x].header) {
      GrowthKeeps(p, n.blocks, m.blocks, x);
      CompareTotalPreorder(p, b.header, Head(n), n.blocks[x].header);
    }
    forall x <- m.blocks | x != GenesisHash(p) ensures m.blocks[x].header.parentHash != h {
      if x != h { assert Attached(p, n.blocks, x); }
    }
  }

  /** Every import keeps the whole invariant: tree, exact index, replayed ledger, best head, leaf head. */
  lemma ImportKeepsInv(p: Params, n: Node, b: Block)
    requires Inv(p, n) && |n.blocks| < U64
    ensures Inv(p, Import(p, n, b).0)
  {
    hide Follows, Execute, HeadIsBest, HeadIsLeaf, Tree, LedgerAt, PathTo, Better;
    var h := HeaderHash(p, b.header);
    var (m, outcome) := Import(p, n, b);
    if m != n {
      var blocks := n.blocks[h := b];
      NewLedger(p, n.blocks, b);
      if outcome == Imported {
        TreeGrows(p, n.blocks, b);
        ChildIsBetter(p, b.header, Head(n));
        NewHeadKeepsInv(p, n, b, m.ledger);
      } else if outcome == Reorged {
        NewHeadKeepsInv(p, n, b, m.ledger);
      } else {
        SideBlockKeepsInv(p, n, b);
      }
    }
  }
}
