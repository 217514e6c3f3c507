/** The block synchronisation exchange: status, get-blocks, blocks, walking back until the chains connect and then
    forward. Handlers are functions on nodes; class RSCoinProtocol computes them. Replies travel as frames, which the
    receiving node reads under its limit on message sizes. */
module Sync {
  import opened Core
  import opened Numbers
  import opened Primitives
  import opened Ledger
  import opened Pow
  import opened BlockTree
  import opened ChainRuns
  import opened Convergence
  import CodecInverse
  import Messages

  const MAX_BLOCKS_PER_REQUEST: nat := 64

  /** Drop: the handler drops the peer. Disconnect: the connection ends before a handler sees the reply. */
  datatype Reaction = Request(fromHeight: u64) | Idle | Drop | Disconnect

  function Height(n: Node): u64
    requires HasHead(n)
  {
    Head(n).height
  }

  function BlockAt(n: Node, height: u64): Option<Block> {
    if height < |n.index| && n.index[height] in n.blocks then Some(n.blocks[n.index[height]]) else None
  }

  /** handleGetBlocks: consecutive canonical blocks, at most 64, up to the first missing height. */
  function Serve(n: Node, fromHeight: u64, count: nat): seq<Block>
    decreases count
  {
    if count == 0 || BlockAt(n, fromHeight).None? then []
    else [BlockAt(n, fromHeight).value] + Serve(n, Add64(fromHeight, 1), count - 1)
  }

  function Reply(n: Node, fromHeight: u64, maxCount: u32): seq<Block> {
    Serve(n, fromHeight, if maxCount < MAX_BLOCKS_PER_REQUEST then maxCount else MAX_BLOCKS_PER_REQUEST)
  }

  /** handleStatus of a compatible peer. */
  function OnStatus(n: Node, announced: u64): Reaction
    requires HasHead(n)
  {
    if announced > Height(n) then Request(Add64(Height(n), 1)) else Idle
  }

  /** The import loop of handleBlocks: stops at the first invalid block, else counts the blocks not orphaned. */
  function ImportAll(p: Params, n: Node, blocks: seq<Block>): (r: (Node, Option<nat>))
    requires HasHead(n)
    ensures HasHead(r.0)
    decreases |blocks|
  {
    if blocks == [] then (n, Some(0)) else
      var (m, outcome) := Import(p, n, blocks[0]);
      if outcome == Invalid then (m, None) else
        var (last, accepted) := ImportAll(p, m, blocks[1..]);
        (last, if accepted.None? then None else Some(accepted.value + if outcome == Orphaned then 0 else 1))
  }

  function WalkBack(firstHeight: u64): u64 {
    if firstHeight > MAX_BLOCKS_PER_REQUEST then firstHeight - MAX_BLOCKS_PER_REQUEST else 1
  }

  function AfterImport(accepted: Option<nat>, peerHeight: u64, blocks: seq<Block>): Reaction
    requires blocks != []
  {
    if accepted.None? then Drop
    else if accepted.value == 0 then
      (if blocks[0].header.height <= 1 then Drop else Request(WalkBack(blocks[0].header.height)))
    else if peerHeight > Last(blocks).header.height then Request(Add64(Last(blocks).header.height, 1))
    else Idle
  }

  /** handleBlocks. */
  function OnBlocks(p: Params, n: Node, peerHeight: u64, blocks: seq<Block>): (r: (Node, Reaction))
    requires HasHead(n)
    ensures HasHead(r.0)
  {
    if blocks == [] then (n, Idle) else
      var (m, accepted) := ImportAll(p, n, blocks);
      (m, AfterImport(accepted, peerHeight, blocks))
  }

  /** importFrom: how a block pushed by a peer is answered. */
  function OnPushed(p: Params, n: Node, block: Block): (r: (Node, Reaction))
    requires HasHead(n)
    ensures HasHead(r.0)
  {
    var (m, outcome) := Import(p, n, block);
    (m, if outcome == Orphaned then Request(Add64(Height(m), 1)) else if outcome == Invalid then Drop else Idle)
  }

  // ------------------------------------------------------- what a peer serves

  /** A node in a universe: everything it stores, and every height on its index, is known and below the limit. */
  lemma PeerFacts(p: Params, u: Blocks, peer: Node)
    requires Universe(p, u) && Within(p, u, peer)
    ensures HasHead(peer) && Tree(p, peer.blocks) && Linked(p, peer.blocks, peer.index)
    ensures |peer.index| == Height(peer) + 1 && |peer.index| < U64
    ensures forall h <- peer.index :: h in peer.blocks
  {
    hide Follows, HeaderHash, HeadIsBest, HeadIsLeaf;
    PathIsLinked(p, peer.blocks, HeadHash(peer));
    HeightBound(p, peer.blocks, HeadHash(peer));
    StrictSubset(peer.blocks.Keys, u.Keys);
  }

  ghost predicate IsCanonical(peer: Node, k: nat, b: Block) {
    k < |peer.index| && peer.index[k] in peer.blocks && b == peer.blocks[peer.index[k]]
  }

  ghost predicate Segment(peer: Node, fromHeight: nat, blocks: seq<Block>) {
    fromHeight + |blocks| <= |peer.index| &&
    forall i :: 0 <= i < |blocks| ==> IsCanonical(peer, fromHeight + i, blocks[i])
  }

  /** The blocks served are the consecutive canonical ones from the requested height: as many as asked for, or as
      many as there are; none from beyond the head. */
  lemma {:induction false} ServeIsSegment(peer: Node, fromHeight: u64, count: nat)
    requires |peer.index| < U64 && forall h <- peer.index :: h in peer.blocks
    ensures var served, left := Serve(peer, fromHeight, count), |peer.index| - fromHeight;
      |served| == (if left <= 0 then 0 else if count < left then count else left) &&
      (fromHeight <= |peer.index| ==> Segment(peer, fromHeight, served))
    decreases count
  {
    hide Segment;
    if count > 0 && fromHeight < |peer.index| {
      assert peer.index[fromHeight] in peer.index;
      assert BlockAt(peer, fromHeight) == Some(peer.blocks[peer.index[fromHeight]]) && Add64(fromHeight, 1) == fromHeight + 1;
      ServeIsSegment(peer, fromHeight + 1, count - 1);
      SegmentCons(peer, fromHeight, Serve(peer, fromHeight + 1, count - 1));
    } else if fromHeight <= |peer.index| {
      SegmentNil(peer, fromHeight);
    }
  }

  lemma SegmentNil(peer: Node, fromHeight: nat)
    requires fromHeight <= |peer.index|
    ensures Segment(peer, fromHeight, [])
  {
  }

  lemma SegmentCons(peer: Node, fromHeight: nat, rest: seq<Block>)
    requires fromHeight < |peer.index| && peer.index[fromHeight] in peer.blocks && Segment(peer, fromHeight + 1, rest)
    ensures Segment(peer, fromHeight, [peer.blocks[peer.index[fromHeight]]] + rest)
  {
    var all := [peer.blocks[peer.index[fromHeight]]] + rest;
    forall i | 0 <= i < |all| ensures IsCanonical(peer, fromHeight + i, all[i]) {
      if i > 0 { assert all[i] == rest[i - 1] && IsCanonical(peer, fromHeight + 1 + (i - 1), rest[i - 1]); }
    }
  }

  /** Every block on a canonical path replays. */
  lemma {:induction false} PathReplays(p: Params, blocks: Blocks, path: seq<Hash256>, k: nat)
    requires Tree(p, blocks) && Linked(p, blocks, path) && k < |path| && LedgerAt(p, blocks, Last(path)).Some?
    ensures path[k] in blocks && LedgerAt(p, blocks, path[k]).Some?
    decreases |path| - k
  {
    hide Follows, HeaderHash, Execute;
    if k + 1 < |path| {
      PathReplays(p, blocks, path, k + 1);
      assert path[k + 1] != GenesisHash(p);
    }
  }

  // ------------------------------------------------------- importing a segment

  /** What a peer's canonical block at height k > 0 is, seen from the universe. */
  lemma PeerBlock(p: Params, u: Blocks, peer: Node, k: nat)
    requires Universe(p, u) && Within(p, u, peer) && 0 < k < |peer.index|
    ensures peer.index[k] in peer.blocks && peer.index[k - 1] in peer.blocks
    ensures var b := peer.blocks[peer.index[k]];
      From(p, u, b) && HeaderHash(p, b.header) == peer.index[k] && peer.index[k] != GenesisHash(p) &&
      b.header.parentHash == peer.index[k - 1] && b.header.height == k &&
      peer.index[k - 1] in u && Follows(p, b.header, u[peer.index[k - 1]].header)
    ensures Replayable(p, u, peer.index[k])
  {
    hide Follows, HeaderHash, LedgerAt, HeadIsBest, HeadIsLeaf;
    PeerFacts(p, u, peer);
    PathReplays(p, peer.blocks, peer.index, k);
    GrowthKeeps(p, peer.blocks, u, peer.index[k]);
    assert Attached(p, peer.blocks, peer.index[k]) by { assert peer.blocks[peer.index[k]].header.height == k; }
  }

  /** A replayable block whose parent is stored is never invalid and never an orphan, and is stored afterwards. */
  lemma ConnectedIsAccepted(p: Params, u: Blocks, n: Node, b: Block)
    requires Universe(p, u) && Within(p, u, n) && HasHead(n) && From(p, u, b)
    requires Replayable(p, u, HeaderHash(p, b.header)) && b.header.parentHash in n.blocks
    requires HeaderHash(p, b.header) != GenesisHash(p)
    ensures var (m, outcome) := Import(p, n, b);
      outcome != Invalid && outcome != Orphaned && HeaderHash(p, b.header) in m.blocks
  {
    hide Follows, Execute, Better, HeaderHash, HeadIsBest, HeadIsLeaf, PathTo;
    var h := HeaderHash(p, b.header);
    var parent := b.header.parentHash;
    assert u[parent] == n.blocks[parent];
    GrowthKeeps(p, n.blocks, u, parent);
    if h !in n.blocks {
      StrictlySmaller(n.blocks.Keys, u.Keys, h);
      NewLedger(p, n.blocks, b);
    }
  }

  lemma {:induction false} ConnectedSegment(p: Params, u: Blocks, n: Node, peer: Node, fromHeight: nat, blocks: seq<Block>)
    requires Universe(p, u) && Within(p, u, n) && HasHead(n) && Within(p, u, peer)
    requires 1 <= fromHeight && Segment(peer, fromHeight, blocks)
    requires fromHeight <= |peer.index| && peer.index[fromHeight - 1] in n.blocks
    ensures var (m, accepted) := ImportAll(p, n, blocks);
      Within(p, u, m) && Extends(n.blocks, m.blocks) && accepted == Some(|blocks|) &&
      peer.index[fromHeight + |blocks| - 1] in m.blocks
    decreases |blocks|
  {
    hide Within, Universe, HasHead, Import, From, HeaderHash, Replayable, Follows;
    if blocks != [] {
      PeerBlock(p, u, peer, fromHeight);
      assert IsCanonical(peer, fromHeight + 0, blocks[0]);
      ConnectedIsAccepted(p, u, n, blocks[0]);
      ImportStaysWithin(p, u, n, blocks[0]);
      ImportPersistsAndAborts(p, n, blocks[0]);
      var m := Import(p, n, blocks[0]).0;
      SegmentTail(peer, fromHeight, blocks);
      ConnectedSegment(p, u, m, peer, fromHeight + 1, blocks[1..]);
    }
  }

  lemma SegmentTail(peer: Node, fromHeight: nat, blocks: seq<Block>)
    requires blocks != [] && Segment(peer, fromHeight, blocks)
    ensures Segment(peer, fromHeight + 1, blocks[1..])
  {
    var rest := blocks[1..];
    forall i | 0 <= i < |rest| ensures IsCanonical(peer, fromHeight + 1 + i, rest[i]) {
      assert rest[i] == blocks[i + 1] && IsCanonical(peer, fromHeight + (i + 1), blocks[i + 1]);
    }
  }

  lemma ParentStored(p: Params, u: Blocks, n: Node, h: Hash256)
    requires Within(p, u, n) && h in n.blocks && h != GenesisHash(p)
    ensures h in u && u[h].header.parentHash in n.blocks
  {
    hide HeaderHash, Follows, LedgerAt, PathTo, HeadIsBest, HeadIsLeaf;
    assert Attached(p, n.blocks, h);
  }

  /** Stored blocks have stored ancestors: where the peer's chain is known it is known below. */
  lemma {:induction false} KnownBelow(p: Params, u: Blocks, n: Node, peer: Node, low: nat, high: nat)
    requires Universe(p, u) && Within(p, u, n) && Within(p, u, peer)
    requires low <= high < |peer.index| && peer.index[high] in n.blocks
    ensures peer.index[low] in n.blocks
    decreases high
  {
    hide HeaderHash, Follows, Within, Universe, Replayable;
    if low < high {
      PeerBlock(p, u, peer, high);
      FromMeans(p, u, peer.blocks[peer.index[high]]);
      ParentStored(p, u, n, peer.index[high]);
      KnownBelow(p, u, n, peer, low, high - 1);
    }
  }

  lemma {:induction false} DisconnectedSegment(p: Params, u: Blocks, n: Node, peer: Node, fromHeight: nat, blocks: seq<Block>)
    requires Universe(p, u) && Within(p, u, n) && HasHead(n) && Within(p, u, peer)
    requires 1 <= fromHeight && Segment(peer, fromHeight, blocks)
    requires fromHeight <= |peer.index| && peer.index[fromHeight - 1] !in n.blocks
    ensures ImportAll(p, n, blocks) == (n, Some(0))
    decreases |blocks|
  {
    hide Within, Universe, HasHead, From, HeaderHash, Replayable, Follows, Execute, LedgerAt, PathTo, Better;
    if blocks != [] {
      PeerBlock(p, u, peer, fromHeight);
      assert IsCanonical(peer, fromHeight + 0, blocks[0]);
      assert peer.index[fromHeight] !in n.blocks by {
        if peer.index[fromHeight] in n.blocks { KnownBelow(p, u, n, peer, fromHeight - 1, fromHeight); }
      }
      assert Import(p, n, blocks[0]) == (n, Orphaned);
      SegmentTail(peer, fromHeight, blocks);
      DisconnectedSegment(p, u, n, peer, fromHeight + 1, blocks[1..]);
    }
  }

  // ------------------------------------------------------- replies as frames

  /** What a node whose reader allows `limit` bytes a message gets of a reply. */
  function Arrival(reply: seq<Block>, limit: nat): Option<seq<Block>> {
    var m := Messages.Receipt(Messages.Blocks(reply), limit);
    if m.Some? && m.value.Blocks? then Some(m.value.blocks) else None
  }

  predicate Carried(reply: seq<Block>, limit: nat) { Messages.Carried(Messages.Blocks(reply), limit) }

  /** The peer's answer to a request of the sync exchange. */
  function Answer(peer: Node, fromHeight: u64): seq<Block> { Reply(peer, fromHeight, MAX_BLOCKS_PER_REQUEST) }

  /** A peer that has the memory to build its replies. */
  ghost predicate Servable(peer: Node) {
    forall h: u64 :: |Messages.Encode(Messages.Blocks(Answer(peer, h)))| < SIZE_LIMIT
  }

  lemma {:induction false} ServeLength(n: Node, fromHeight: u64, count: nat)
    ensures |Serve(n, fromHeight, count)| <= count
    decreases count
  {
    if count > 0 { ServeLength(n, Add64(fromHeight, 1), count - 1); }
  }

  /** A reply bounded by the number of its blocks only is received exactly when its bytes are within the limit too. */
  lemma ArrivalExactly(peer: Node, fromHeight: u64, limit: nat)
    requires Servable(peer)
    ensures Arrival(Answer(peer, fromHeight), limit) ==
      if Carried(Answer(peer, fromHeight), limit) then Some(Answer(peer, fromHeight)) else None
  {
    hide Messages.Receipt, Messages.Carried, Messages.Encode, Serve;
    ServeLength(peer, fromHeight, MAX_BLOCKS_PER_REQUEST);
    Messages.BlocksReceivedExactly(Messages.Blocks(Answer(peer, fromHeight)), limit);
  }

  /** With the shipped limit of 4,000,000 bytes and 5,000 transactions a block, eleven full blocks are too many. */
  lemma FullBlocksAreRefused(reply: seq<Block>)
    requires |reply| >= 11 && forall b <- reply :: |b.transactions| >= 5000
    ensures !Carried(reply, 4_000_000)
  {
    hide Messages.EncodeBlockList, LE;
    FullBlockList(reply);
  }

  lemma {:induction false} FullBlockList(bs: seq<Block>)
    requires forall b <- bs :: |b.transactions| >= 5000
    ensures |Messages.EncodeBlockList(bs)| >= 365_000 * |bs|
  {
    hide LE, EncodeHeader, EncodeTransactions;
    if bs != [] {
      CodecInverse.ListSizes([], bs[0].transactions);
      assert |EncodeBlock(bs[0])| >= 73 * |bs[0].transactions|;
      FullBlockList(bs[1..]);
    }
  }

  // ------------------------------------------------------- one round

  /** One request answered by a reply that arrives: it is imported, after whatever else the node imported `meanwhile`. */
  function Answered(p: Params, n: Node, peer: Node, announced: u64, fromHeight: u64, meanwhile: seq<Block>): (r: (Node, Reaction))
    requires HasHead(n)
    ensures HasHead(r.0)
  {
    OnBlocks(p, Run(p, n, meanwhile), announced, Answer(peer, fromHeight))
  }

  /** One request answered by a frame. */
  function Round(p: Params, n: Node, peer: Node, limit: nat, announced: u64, fromHeight: u64, meanwhile: seq<Block>): (r: (Node, Reaction))
    requires HasHead(n)
    ensures HasHead(r.0)
  {
    var m := Run(p, n, meanwhile);
    var reply := Arrival(Answer(peer, fromHeight), limit);
    if reply.None? then (m, Disconnect) else OnBlocks(p, m, announced, reply.value)
  }

  lemma RoundExactly(p: Params, n: Node, peer: Node, limit: nat, announced: u64, fromHeight: u64, meanwhile: seq<Block>)
    requires HasHead(n) && Servable(peer)
    ensures Round(p, n, peer, limit, announced, fromHeight, meanwhile) ==
      if Carried(Answer(peer, fromHeight), limit) then Answered(p, n, peer, announced, fromHeight, meanwhile)
      else (Run(p, n, meanwhile), Disconnect)
  {
    hide Run, OnBlocks, Arrival, Carried, Answer, Servable;
    ArrivalExactly(peer, fromHeight, limit);
  }

  /** Both nodes hold blocks of one universe, and `fromHeight` lies on the peer's chain up to the announced height. */
  ghost predicate Syncing(p: Params, u: Blocks, n: Node, peer: Node, announced: nat, fromHeight: nat) {
    Universe(p, u) && Within(p, u, n) && HasHead(n) && Within(p, u, peer) && HasHead(peer) &&
    1 <= fromHeight <= announced <= Height(peer)
  }

  ghost predicate Knows(n: Node, peer: Node, height: nat) {
    height < |peer.index| && peer.index[height] in n.blocks
  }

  function LastServed(peer: Node, fromHeight: u64): nat
    requires fromHeight >= 1
  {
    fromHeight + |Answer(peer, fromHeight)| - 1
  }

  /** How a round continues: forward past what was served when the chains connect, else further back. */
  ghost predicate Answers(m: Node, peer: Node, announced: u64, fromHeight: u64, reaction: Reaction) {
    fromHeight >= 1 && fromHeight <= LastServed(peer, fromHeight) < U64 &&
    if Knows(m, peer, fromHeight - 1) then
      Knows(m, peer, LastServed(peer, fromHeight)) &&
      reaction == if announced > LastServed(peer, fromHeight) then Request(LastServed(peer, fromHeight) + 1) else Idle
    else
      fromHeight > 1 && reaction == Request(WalkBack(fromHeight))
  }

  /** A reply that arrives never makes the node drop the peer. Where the chains connect it takes over all blocks
      served and asks for the next ones; elsewhere nothing connects and it asks further back. */
  lemma AnsweredFacts(p: Params, u: Blocks, n: Node, peer: Node, announced: u64, fromHeight: u64, meanwhile: seq<Block>)
    requires Syncing(p, u, n, peer, announced, fromHeight) && Arriving(p, u, meanwhile)
    ensures var (m, reaction) := Answered(p, n, peer, announced, fromHeight, meanwhile);
      Within(p, u, m) && Extends(n.blocks, m.blocks) && Answers(m, peer, announced, fromHeight, reaction) &&
      (!Knows(m, peer, fromHeight - 1) ==> m == Run(p, n, meanwhile))
  {
    hide Within, Universe, Run, HeaderHash, Segment, From, ImportAll, Serve, Reply, Answer, HasHead, Extends, Head;
    RunStaysWithin(p, u, n, meanwhile);
    var k := Run(p, n, meanwhile);
    var reply := Answer(peer, fromHeight);
    ReplyFacts(p, u, peer, fromHeight);
    var (m, accepted) := ImportAll(p, k, reply);
    if Knows(k, peer, fromHeight - 1) {
      ConnectedSegment(p, u, k, peer, fromHeight, reply);
      KnowsStays(k, m, peer, fromHeight - 1);
      ExtendsTransitive(n.blocks, k.blocks, m.blocks);
    } else {
      DisconnectedSegment(p, u, k, peer, fromHeight, reply);
      GenesisKnown(p, u, k, peer);
    }
  }

  lemma ExtendsTransitive(a: Blocks, b: Blocks, c: Blocks)
    requires Extends(a, b) && Extends(b, c)
    ensures Extends(a, c)
  {
  }

  lemma ReplyFacts(p: Params, u: Blocks, peer: Node, fromHeight: u64)
    requires Universe(p, u) && Within(p, u, peer) && HasHead(peer) && 1 <= fromHeight <= Height(peer)
    ensures var reply := Answer(peer, fromHeight);
      reply != [] && Segment(peer, fromHeight, reply) && fromHeight + |reply| <= |peer.index| < U64 &&
      reply[0].header.height == fromHeight && Last(reply).header.height == LastServed(peer, fromHeight)
  {
    hide Within, Universe, Tree, Linked, IsCanonical, Serve;
    PeerFacts(p, u, peer);
    ServeIsSegment(peer, fromHeight, MAX_BLOCKS_PER_REQUEST);
    SegmentHeights(p, u, peer, fromHeight, Answer(peer, fromHeight));
  }

  lemma SegmentHeights(p: Params, u: Blocks, peer: Node, fromHeight: nat, blocks: seq<Block>)
    requires Universe(p, u) && Within(p, u, peer) && 1 <= fromHeight && blocks != [] && Segment(peer, fromHeight, blocks)
    ensures blocks[0].header.height == fromHeight && Last(blocks).header.height == fromHeight + |blocks| - 1
  {
    hide Within, Universe, HeaderHash, Follows, Replayable;
    assert IsCanonical(peer, fromHeight + 0, blocks[0]);
    assert IsCanonical(peer, fromHeight + (|blocks| - 1), blocks[|blocks| - 1]);
    PeerBlock(p, u, peer, fromHeight);
    PeerBlock(p, u, peer, fromHeight + |blocks| - 1);
  }

  lemma GenesisKnown(p: Params, u: Blocks, n: Node, peer: Node)
    requires Universe(p, u) && Within(p, u, n) && Within(p, u, peer)
    ensures Knows(n, peer, 0)
  {
    hide Follows, LedgerAt, PathTo, HeadIsBest, HeadIsLeaf;
    PeerFacts(p, u, peer);
  }

  // ------------------------------------------------------- the whole exchange

  /** Only blocks of the universe arrive from elsewhere. */
  ghost predicate Deliverable(p: Params, u: Blocks, meanwhile: nat -> seq<Block>) {
    forall i: nat :: Arriving(p, u, meanwhile(i))
  }

  ghost predicate Arriving(p: Params, u: Blocks, blocks: seq<Block>) { forall b <- blocks :: From(p, u, b) }

  /** How far the walk back can still go: nothing once the requested height connects. */
  ghost function WalkLeft(n: Node, peer: Node, fromHeight: nat): nat {
    if fromHeight > 0 && Knows(n, peer, fromHeight - 1) then 0 else fromHeight
  }

  /** The next request is again within the peer's chain, and either the walk back got shorter or, the chains
      connecting, the request moved up. */
  lemma NextRequest(p: Params, u: Blocks, n: Node, peer: Node, announced: u64, fromHeight: u64, meanwhile: seq<Block>)
    requires Syncing(p, u, n, peer, announced, fromHeight) && Arriving(p, u, meanwhile)
    ensures var (m, reaction) := Answered(p, n, peer, announced, fromHeight, meanwhile);
      (reaction.Request? || reaction == Idle) &&
      (reaction.Request? ==>
        (Syncing(p, u, m, peer, announced, reaction.fromHeight) &&
         (WalkLeft(m, peer, reaction.fromHeight) < WalkLeft(n, peer, fromHeight) ||
          (WalkLeft(m, peer, reaction.fromHeight) == WalkLeft(n, peer, fromHeight) && reaction.fromHeight > fromHeight))))
  {
    hide Within, Universe, OnBlocks, Answer, From, Head, HasHead, Run, Answered, LastServed, Arriving, Extends;
    AnsweredFacts(p, u, n, peer, announced, fromHeight, meanwhile);
    KnowsStays(n, Answered(p, n, peer, announced, fromHeight, meanwhile).0, peer, fromHeight - 1);
  }

  lemma KnowsStays(n: Node, m: Node, peer: Node, height: nat)
    requires Extends(n.blocks, m.blocks)
    ensures Knows(n, peer, height) ==> Knows(m, peer, height)
  {
  }

  /** The exchange from one request on. `meanwhile(i)` are the blocks that reach the node from elsewhere before the
      i-th reply. Termination: walking back lowers the requested height until the chains connect; from then on each
      round raises it towards the announced height. */
  ghost function SyncLoop(p: Params, u: Blocks, n: Node, peer: Node, limit: nat, announced: u64, fromHeight: u64,
                          meanwhile: nat -> seq<Block>, round: nat): (r: (Node, Reaction))
    requires Syncing(p, u, n, peer, announced, fromHeight) && Servable(peer)
    requires Deliverable(p, u, meanwhile)
    ensures HasHead(r.0)
    decreases WalkLeft(n, peer, fromHeight), announced - fromHeight
  {
    hide Within, Universe, OnBlocks, Answer, From, Head, Knows, Servable, Carried, Round, Answered;
    NextRequest(p, u, n, peer, announced, fromHeight, meanwhile(round));
    RoundExactly(p, n, peer, limit, announced, fromHeight, meanwhile(round));
    var (m, reaction) := Round(p, n, peer, limit, announced, fromHeight, meanwhile(round));
    if reaction.Request? then SyncLoop(p, u, m, peer, limit, announced, reaction.fromHeight, meanwhile, round + 1)
    else (m, reaction)
  }

  /** The heights the exchange asks for when every reply arrives. */
  ghost function Requested(p: Params, u: Blocks, n: Node, peer: Node, announced: u64, fromHeight: u64,
                           meanwhile: nat -> seq<Block>, round: nat): seq<u64>
    requires Syncing(p, u, n, peer, announced, fromHeight)
    requires Deliverable(p, u, meanwhile)
    decreases WalkLeft(n, peer, fromHeight), announced - fromHeight
  {
    hide Within, Universe, OnBlocks, Answer, From, Head, Knows, Answered;
    NextRequest(p, u, n, peer, announced, fromHeight, meanwhile(round));
    var (m, reaction) := Answered(p, n, peer, announced, fromHeight, meanwhile(round));
    [fromHeight] +
    if reaction.Request? then Requested(p, u, m, peer, announced, reaction.fromHeight, meanwhile, round + 1) else []
  }

  /** Replies to all these requests are within the limit. */
  ghost predicate AllCarried(peer: Node, limit: nat, heights: seq<u64>) {
    forall h <- heights :: Carried(Answer(peer, h), limit)
  }

  lemma AllCarriedCons(peer: Node, limit: nat, h: u64, more: seq<u64>)
    ensures AllCarried(peer, limit, [h] + more) <==> Carried(Answer(peer, h), limit) && AllCarried(peer, limit, more)
  {
    hide Carried, Answer;
    assert forall x :: x in [h] + more <==> x == h || x in more;
  }

  /** The head of `n` beats or is this header. */
  ghost predicate AtLeastAsGood(p: Params, n: Node, h: BlockHeader)
    requires HasHead(n)
  {
    Head(n) == h || Better(p, Head(n), h)
  }

  /** The exchange ends in a disconnect exactly when one of the replies it asks for is over the limit. Otherwise it
      ends idle, with every peer block up to the announced height stored. Either way no stored block is lost. */
  lemma {:induction false} SyncEndsExactly(p: Params, u: Blocks, n: Node, peer: Node, limit: nat, announced: u64,
                                           fromHeight: u64, meanwhile: nat -> seq<Block>, round: nat)
    requires Syncing(p, u, n, peer, announced, fromHeight) && Servable(peer)
    requires Deliverable(p, u, meanwhile)
    ensures var (final, reaction) := SyncLoop(p, u, n, peer, limit, announced, fromHeight, meanwhile, round);
      Within(p, u, final) && Extends(n.blocks, final.blocks) &&
      if AllCarried(peer, limit, Requested(p, u, n, peer, announced, fromHeight, meanwhile, round))
      then reaction == Idle && KnowsUpTo(final, peer, announced)
      else reaction == Disconnect
    decreases WalkLeft(n, peer, fromHeight), announced - fromHeight
  {
    hide Within, Universe, OnBlocks, Answer, From, Head, HasHead, Knows, Round, Answered, Servable, Carried, AllCarried, Extends;
    NextRequest(p, u, n, peer, announced, fromHeight, meanwhile(round));
    RoundExactly(p, n, peer, limit, announced, fromHeight, meanwhile(round));
    AnsweredFacts(p, u, n, peer, announced, fromHeight, meanwhile(round));
    var (m, reaction) := Answered(p, n, peer, announced, fromHeight, meanwhile(round));
    AllCarriedCons(peer, limit, fromHeight, []);
    assert AllCarried(peer, limit, []) by { NothingCarried(peer, limit); }
    assert [fromHeight] + [] == [fromHeight];
    if !Carried(Answer(peer, fromHeight), limit) {
      RunStaysWithin(p, u, n, meanwhile(round));
      if reaction.Request? {
        AllCarriedCons(peer, limit, fromHeight, Requested(p, u, m, peer, announced, reaction.fromHeight, meanwhile, round + 1));
      }
    } else if reaction.Request? {
      SyncEndsExactly(p, u, m, peer, limit, announced, reaction.fromHeight, meanwhile, round + 1);
      AllCarriedCons(peer, limit, fromHeight, Requested(p, u, m, peer, announced, reaction.fromHeight, meanwhile, round + 1));
      ExtendsTransitive(n.blocks, m.blocks, SyncLoop(p, u, n, peer, limit, announced, fromHeight, meanwhile, round).0.blocks);
    } else {
      var last := LastServed(peer, fromHeight);
      forall k: nat | k <= announced ensures Knows(m, peer, k) { KnowsBelow(p, u, m, peer, k, last); }
    }
  }

  lemma NothingCarried(peer: Node, limit: nat)
    ensures AllCarried(peer, limit, [])
  {
  }

  ghost predicate KnowsUpTo(n: Node, peer: Node, height: nat) { forall k: nat :: k <= height ==> Knows(n, peer, k) }

  lemma KnowsBelow(p: Params, u: Blocks, n: Node, peer: Node, low: nat, high: nat)
    requires Universe(p, u) && Within(p, u, n) && Within(p, u, peer) && low <= high && Knows(n, peer, high)
    ensures Knows(n, peer, low)
  {
    hide Within, Universe;
    KnownBelow(p, u, n, peer, low, high);
  }

  /** A node that stores a peer's canonical block at some height has a head at least as good. */
  lemma KnowsMeansAsGood(p: Params, u: Blocks, n: Node, peer: Node, height: nat)
    requires Universe(p, u) && Within(p, u, n) && HasHead(n) && Within(p, u, peer) && Knows(n, peer, height)
    ensures peer.index[height] in peer.blocks && AtLeastAsGood(p, n, peer.blocks[peer.index[height]].header)
  {
    hide Follows, HeaderHash, LedgerAt, PathTo, HeadIsLeaf, Better;
    PeerFacts(p, u, peer);
    assert peer.index[height] in peer.index;
    PathReplays(p, peer.blocks, peer.index, height);
    GrowthKeeps(p, peer.blocks, u, peer.index[height]);
    GrowthKeeps(p, n.blocks, u, peer.index[height]);
  }

  /** Two nodes on one genesis whose blocks are those of one universe. */
  ghost predicate Session(p: Params, u: Blocks, n: Node, peer: Node) {
    Universe(p, u) && Within(p, u, n) && HasHead(n) && Within(p, u, peer) && HasHead(peer)
  }

  /** The session with a peer that announces its head: one status, then the exchange it starts, if any. */
  ghost function Synchronise(p: Params, u: Blocks, n: Node, peer: Node, limit: nat, meanwhile: nat -> seq<Block>): (r: (Node, Reaction))
    requires Session(p, u, n, peer) && Servable(peer)
    requires Deliverable(p, u, meanwhile)
    ensures HasHead(r.0)
  {
    hide Within, Universe, From;
    var reaction := OnStatus(n, Height(peer));
    if reaction.Request? then SyncLoop(p, u, n, peer, limit, Height(peer), reaction.fromHeight, meanwhile, 0)
    else (Run(p, n, meanwhile(0)), reaction)
  }

  /** The heights a session with a higher peer asks for. */
  ghost function SessionRequests(p: Params, u: Blocks, n: Node, peer: Node, meanwhile: nat -> seq<Block>): seq<u64>
    requires Session(p, u, n, peer) && Height(peer) > Height(n)
    requires Deliverable(p, u, meanwhile)
  {
    Requested(p, u, n, peer, Height(peer), Height(n) + 1, meanwhile, 0)
  }

  /** Sync completes exactly when its replies fit: behind a peer with a replayable chain on the same genesis, whatever
      else is imported meanwhile, the exchange terminates and never drops the peer. If every reply it asks for is within
      the message limit, the whole chain is stored and the head is at least as good; if one is not, the connection ends. */
  lemma SyncCompletes(p: Params, u: Blocks, n: Node, peer: Node, limit: nat, meanwhile: nat -> seq<Block>)
    requires Session(p, u, n, peer) && Servable(peer)
    requires Deliverable(p, u, meanwhile)
    requires Height(peer) > Height(n)
    ensures var (final, reaction) := Synchronise(p, u, n, peer, limit, meanwhile);
      Within(p, u, final) &&
      if AllCarried(peer, limit, SessionRequests(p, u, n, peer, meanwhile))
      then reaction == Idle && (forall h <- peer.index :: h in final.blocks) && AtLeastAsGood(p, final, Head(peer))
      else reaction == Disconnect
  {
    hide Within, Universe, From, SyncLoop, Requested, Better, Linked, Tree, Servable, AllCarried;
    PeerFacts(p, u, peer);
    SyncEndsExactly(p, u, n, peer, limit, Height(peer), Height(n) + 1, meanwhile, 0);
    var final := Synchronise(p, u, n, peer, limit, meanwhile).0;
    if AllCarried(peer, limit, SessionRequests(p, u, n, peer, meanwhile)) {
      forall h <- peer.index ensures h in final.blocks {
        var k :| 0 <= k < |peer.index| && peer.index[k] == h;
        assert Knows(final, peer, k);
      }
      assert Knows(final, peer, Height(peer));
      KnowsMeansAsGood(p, u, final, peer, Height(peer));
    }
  }

  /** Every run of up to 64 consecutive canonical blocks of the peer encodes within the limit. */
  ghost predicate RunsFit(peer: Node, limit: nat) { forall h: u64 :: Carried(Answer(peer, h), limit) }

  /** A check on the peer's chain alone under which sync completes from every node behind it. */
  lemma SyncCompletesWhenRunsFit(p: Params, u: Blocks, n: Node, peer: Node, limit: nat, meanwhile: nat -> seq<Block>)
    requires Session(p, u, n, peer) && Servable(peer) && RunsFit(peer, limit)
    requires Deliverable(p, u, meanwhile)
    requires Height(peer) > Height(n)
    ensures var (final, reaction) := Synchronise(p, u, n, peer, limit, meanwhile);
      reaction == Idle && (forall h <- peer.index :: h in final.blocks) && AtLeastAsGood(p, final, Head(peer))
  {
    hide Session, Synchronise, SessionRequests, AtLeastAsGood, Servable, Carried, Answer, Deliverable;
    SyncCompletes(p, u, n, peer, limit, meanwhile);
  }

  lemma RefusedReplyEnds(p: Params, u: Blocks, n: Node, peer: Node, limit: nat, announced: u64, fromHeight: u64,
                         meanwhile: nat -> seq<Block>, round: nat)
    requires Syncing(p, u, n, peer, announced, fromHeight) && Servable(peer)
    requires Deliverable(p, u, meanwhile)
    requires !Carried(Answer(peer, fromHeight), limit)
    ensures SyncLoop(p, u, n, peer, limit, announced, fromHeight, meanwhile, round) == (Run(p, n, meanwhile(round)), Disconnect)
  {
    hide Within, Universe, From, Carried, Answer, Round, Answered, Servable, Head, HasHead, Run, OnBlocks, Knows, Arriving;
    RoundExactly(p, n, peer, limit, announced, fromHeight, meanwhile(round));
  }

  /** A first reply over the limit: nothing of the peer's is stored. With no blocks from elsewhere the node is just
      what it was, so every later session with that peer ends the same way. */
  lemma OversizedFirstReply(p: Params, u: Blocks, n: Node, peer: Node, limit: nat, meanwhile: nat -> seq<Block>)
    requires Session(p, u, n, peer) && Servable(peer)
    requires Deliverable(p, u, meanwhile)
    requires Height(peer) > Height(n) && !Carried(Answer(peer, Height(n) + 1), limit)
    ensures Synchronise(p, u, n, peer, limit, meanwhile) == (Run(p, n, meanwhile(0)), Disconnect)
    ensures meanwhile(0) == [] ==> Synchronise(p, u, n, peer, limit, meanwhile) == (n, Disconnect)
  {
    hide Within, Universe, From, Carried, Answer, Servable, SyncLoop, Run, Deliverable;
    RefusedReplyEnds(p, u, n, peer, limit, Height(peer), Height(n) + 1, meanwhile, 0);
    RunNothing(p, n);
  }

  // ------------------------------------------------------- sessions without other imports

  function Quiet(): nat -> seq<Block> { i => [] }

  lemma QuietDelivers(p: Params, u: Blocks)
    ensures Deliverable(p, u, Quiet())
  {
  }

  /** The requests in closed form: steps of 64 up from where the chains connect, after steps of 64 down to there. */
  ghost function Plan(n: Node, peer: Node, announced: nat, fromHeight: u64): seq<u64>
    requires 1 <= fromHeight && announced < U64
    decreases fromHeight
  {
    [fromHeight] +
    if fromHeight == 1 || Knows(n, peer, fromHeight - 1) then Upwards(announced, fromHeight + MAX_BLOCKS_PER_REQUEST)
    else Plan(n, peer, announced, WalkBack(fromHeight))
  }

  function Upwards(announced: nat, fromHeight: nat): seq<u64>
    requires announced < U64
    decreases announced - fromHeight
  {
    if fromHeight > announced then [] else [fromHeight as u64] + Upwards(announced, fromHeight + MAX_BLOCKS_PER_REQUEST)
  }

  /** Where the chains connect a full reply is served, unless it reaches the announced height. */
  lemma LastServedIs(p: Params, u: Blocks, peer: Node, announced: u64, fromHeight: u64)
    requires Universe(p, u) && Within(p, u, peer) && HasHead(peer) && 1 <= fromHeight <= announced <= Height(peer)
    ensures announced > LastServed(peer, fromHeight) ==> LastServed(peer, fromHeight) + 1 == fromHeight + MAX_BLOCKS_PER_REQUEST
    ensures announced <= LastServed(peer, fromHeight) ==> announced < fromHeight + MAX_BLOCKS_PER_REQUEST
  {
    hide Within, Universe, Serve, Head;
    PeerFacts(p, u, peer);
    ServeIsSegment(peer, fromHeight, MAX_BLOCKS_PER_REQUEST);
  }

  /** Once the chains connect the requests go up in steps of 64, whatever is imported meanwhile. */
  lemma {:induction false} ConnectedRequests(p: Params, u: Blocks, n: Node, peer: Node, announced: u64, fromHeight: u64,
                                             meanwhile: nat -> seq<Block>, round: nat)
    requires Syncing(p, u, n, peer, announced, fromHeight) && Knows(n, peer, fromHeight - 1)
    requires Deliverable(p, u, meanwhile)
    ensures Requested(p, u, n, peer, announced, fromHeight, meanwhile, round) ==
      [fromHeight] + Upwards(announced, fromHeight + MAX_BLOCKS_PER_REQUEST)
    decreases announced - fromHeight
  {
    hide Within, Universe, OnBlocks, Answer, From, Head, HasHead, Knows, Answered, LastServed;
    NextRequest(p, u, n, peer, announced, fromHeight, meanwhile(round));
    AnsweredFacts(p, u, n, peer, announced, fromHeight, meanwhile(round));
    var (m, reaction) := Answered(p, n, peer, announced, fromHeight, meanwhile(round));
    KnowsStays(n, m, peer, fromHeight - 1);
    LastServedIs(p, u, peer, announced, fromHeight);
    if reaction.Request? {
      ConnectedRequests(p, u, m, peer, announced, reaction.fromHeight, meanwhile, round + 1);
    }
  }

  /** Without other imports the requests can be told in advance. */
  lemma {:induction false} QuietRequests(p: Params, u: Blocks, n: Node, peer: Node, announced: u64, fromHeight: u64, round: nat)
    requires Syncing(p, u, n, peer, announced, fromHeight) && Knows(n, peer, 0)
    ensures Deliverable(p, u, Quiet())
    ensures Requested(p, u, n, peer, announced, fromHeight, Quiet(), round) == Plan(n, peer, announced, fromHeight)
    decreases WalkLeft(n, peer, fromHeight), announced - fromHeight
  {
    hide Within, Universe, OnBlocks, Answer, From, Head, HasHead, Knows, Answered, LastServed;
    QuietDelivers(p, u);
    if Knows(n, peer, fromHeight - 1) {
      ConnectedRequests(p, u, n, peer, announced, fromHeight, Quiet(), round);
    } else {
      NextRequest(p, u, n, peer, announced, fromHeight, []);
      AnsweredFacts(p, u, n, peer, announced, fromHeight, []);
      var (m, reaction) := Answered(p, n, peer, announced, fromHeight, []);
      assert !Knows(m, peer, fromHeight - 1) by { QuietWalk(p, u, n, peer, announced, fromHeight); }
      assert Run(p, n, []) == n;
      QuietRequests(p, u, n, peer, announced, WalkBack(fromHeight), round + 1);
    }
  }

  lemma QuietWalk(p: Params, u: Blocks, n: Node, peer: Node, announced: u64, fromHeight: u64)
    requires Syncing(p, u, n, peer, announced, fromHeight) && !Knows(n, peer, fromHeight - 1)
    ensures Answered(p, n, peer, announced, fromHeight, []).0 == n
  {
    hide Within, Universe, Serve, Reply, Answer, HasHead, Head, Segment, ImportAll, From;
    assert Run(p, n, []) == n;
    ReplyFacts(p, u, peer, fromHeight);
    DisconnectedSegment(p, u, n, peer, fromHeight, Answer(peer, fromHeight));
  }

  lemma {:induction false} HeadStaysBelow(p: Params, n: Node, blocks: seq<Block>, height: nat)
    requires HasHead(n) && Height(n) < height && forall b <- blocks :: b.header.height < height
    ensures Height(ImportAll(p, n, blocks).0) < height
    decreases |blocks|
  {
    hide Import, HasHead, HeaderHash;
    if blocks != [] {
      ImportPersistsAndAborts(p, n, blocks[0]);
      var m := Import(p, n, blocks[0]).0;
      assert Height(m) < height by { assert blocks[0] in blocks; StepBelow(p, n, blocks[0]); }
      HeadStaysBelow(p, m, blocks[1..], height);
    }
  }

  lemma StepBelow(p: Params, n: Node, b: Block)
    requires HasHead(n)
    ensures Height(Import(p, n, b).0) == Height(n) || Height(Import(p, n, b).0) == b.header.height
  {
    hide Import, HeaderHash;
    ImportPersistsAndAborts(p, n, b);
  }

  /** A disconnected exchange leaves the head below the announced height. */
  lemma {:induction false} DisconnectedStaysBelow(p: Params, u: Blocks, n: Node, peer: Node, limit: nat, announced: u64,
                                                  fromHeight: u64, round: nat)
    requires Syncing(p, u, n, peer, announced, fromHeight) && Servable(peer) && Height(n) < announced
    ensures Deliverable(p, u, Quiet())
    ensures var (final, reaction) := SyncLoop(p, u, n, peer, limit, announced, fromHeight, Quiet(), round);
      reaction == Disconnect ==> Height(final) < announced
    decreases WalkLeft(n, peer, fromHeight), announced - fromHeight
  {
    hide Within, Universe, OnBlocks, Answer, From, Head, HasHead, Knows, Round, Answered, Servable, Carried;
    QuietDelivers(p, u);
    NextRequest(p, u, n, peer, announced, fromHeight, []);
    RoundExactly(p, n, peer, limit, announced, fromHeight, []);
    assert Run(p, n, []) == n;
    var (m, reaction) := Answered(p, n, peer, announced, fromHeight, []);
    if Carried(Answer(peer, fromHeight), limit) && reaction.Request? {
      AnsweredBelow(p, u, n, peer, announced, fromHeight);
      DisconnectedStaysBelow(p, u, m, peer, limit, announced, reaction.fromHeight, round + 1);
    }
  }

  lemma AnsweredBelow(p: Params, u: Blocks, n: Node, peer: Node, announced: u64, fromHeight: u64)
    requires Syncing(p, u, n, peer, announced, fromHeight) && Height(n) < announced
    requires Answered(p, n, peer, announced, fromHeight, []).1.Request?
    ensures Height(Answered(p, n, peer, announced, fromHeight, []).0) < announced
  {
    hide Within, Universe, Serve, Reply, Answer, HasHead, Head, Segment, ImportAll, From, Run;
    assert Run(p, n, []) == n by { hide *; RunNothing(p, n); }
    AnsweredFacts(p, u, n, peer, announced, fromHeight, []);
    if Knows(n, peer, fromHeight - 1) {
      KnowsStays(n, Answered(p, n, peer, announced, fromHeight, []).0, peer, fromHeight - 1);
      ReplyFacts(p, u, peer, fromHeight);
      var reply := Answer(peer, fromHeight);
      forall b <- reply ensures b.header.height < announced {
        var i :| 0 <= i < |reply| && reply[i] == b;
        SegmentHeight(p, u, peer, fromHeight, reply, i);
      }
      HeadStaysBelow(p, n, reply, announced);
    } else {
      QuietWalk(p, u, n, peer, announced, fromHeight);
    }
  }

  lemma RunNothing(p: Params, n: Node)
    requires HasHead(n)
    ensures Run(p, n, []) == n
  {
  }

  lemma SegmentHeight(p: Params, u: Blocks, peer: Node, fromHeight: nat, blocks: seq<Block>, i: nat)
    requires Universe(p, u) && Within(p, u, peer) && 1 <= fromHeight && i < |blocks| && Segment(peer, fromHeight, blocks)
    ensures blocks[i].header.height == fromHeight + i
  {
    hide Within, Universe, HeaderHash, Follows, Replayable;
    assert IsCanonical(peer, fromHeight + i, blocks[i]);
    PeerBlock(p, u, peer, fromHeight + i);
  }

  /** A session during which nothing else is imported. */
  ghost function QuietSession(p: Params, u: Blocks, n: Node, peer: Node, limit: nat): (r: (Node, Reaction))
    requires Session(p, u, n, peer) && Servable(peer)
    ensures HasHead(r.0)
  {
    hide Session, Servable, Deliverable;
    QuietDelivers(p, u);
    Synchronise(p, u, n, peer, limit, Quiet())
  }

  /** The handshake compares heights only, and replies are bounded by count only. So, nothing else being imported, a
      session ends with a head at least as good as the peer's exactly when the peer was higher and the replies, which
      can be told in advance, fit, or the peer was not better to begin with: at equal height a better peer head is not
      fetched. */
  lemma SyncedExactly(p: Params, u: Blocks, n: Node, peer: Node, limit: nat)
    requires Session(p, u, n, peer) && Servable(peer)
    ensures AtLeastAsGood(p, QuietSession(p, u, n, peer, limit).0, Head(peer)) <==>
      if Height(peer) > Height(n) then AllCarried(peer, limit, Plan(n, peer, Height(peer), Height(n) + 1))
      else !Better(p, Head(peer), Head(n))
  {
    hide Within, Universe, From, SyncLoop, Requested, Plan, Compare, Servable, AllCarried, Knows;
    GenesisKnown(p, u, n, peer);
    QuietDelivers(p, u);
    if Height(peer) > Height(n) {
      SyncCompletes(p, u, n, peer, limit, Quiet());
      QuietRequests(p, u, n, peer, Height(peer), Height(n) + 1, 0);
      DisconnectedStaysBelow(p, u, n, peer, limit, Height(peer), Height(n) + 1, 0);
      HigherIsBetter(p, Head(peer), Head(QuietSession(p, u, n, peer, limit).0));
    } else {
      RunNothing(p, n);
      BetterTransitive(p, Head(n), Head(peer), Head(n));
      HeadsTieOnlyWhenEqual(p, u, n, peer);
    }
  }

  lemma HigherIsBetter(p: Params, a: BlockHeader, b: BlockHeader)
    ensures a.height > b.height ==> Better(p, a, b) && !Better(p, b, a) && a != b
  {
    CompareIsNumeric(p, a, b);
    CompareIsNumeric(p, b, a);
    hide Compare;
  }

  lemma HeadsTieOnlyWhenEqual(p: Params, u: Blocks, n: Node, peer: Node)
    requires Session(p, u, n, peer)
    ensures Head(n) == Head(peer) || Better(p, Head(n), Head(peer)) || Better(p, Head(peer), Head(n))
  {
    CompareIsNumeric(p, Head(n), Head(peer));
    CompareTotalPreorder(p, Head(n), Head(peer), Head(n));
    hide Follows, HeaderHash, LedgerAt, PathTo, HeadIsBest, HeadIsLeaf, Compare;
  }

  /** The case left out by the handshake: equal heights, the peer's tip has the smaller hash, nothing is requested. */
  lemma EqualHeightNotFetched(p: Params, u: Blocks, n: Node, peer: Node, limit: nat, meanwhile: nat -> seq<Block>)
    requires Session(p, u, n, peer) && Servable(peer)
    requires Deliverable(p, u, meanwhile)
    requires Height(peer) == Height(n) && Better(p, Head(peer), Head(n))
    ensures Synchronise(p, u, n, peer, limit, meanwhile) == (Run(p, n, meanwhile(0)), Idle)
    ensures !AtLeastAsGood(p, n, Head(peer)) && HeadHash(peer) !in n.blocks
  {
    hide Within, Universe, From, SyncLoop, Compare, Servable;
    BetterTransitive(p, Head(peer), Head(n), Head(peer));
    PeerFacts(p, u, peer);
    if HeadHash(peer) in n.blocks {
      assert Knows(n, peer, |peer.index| - 1);
      KnowsMeansAsGood(p, u, n, peer, |peer.index| - 1);
    }
  }

  // ------------------------------------------------------- a peer on another genesis

  /** A linked chain, hashed the same way, none of whose blocks this node stores. */
  ghost predicate Foreign(p: Params, n: Node, peer: Node) {
    peer.index != [] && |peer.index| < U64 && forall k :: 0 <= k < |peer.index| ==> ForeignBlock(p, n, peer, k)
  }

  ghost predicate ForeignBlock(p: Params, n: Node, peer: Node, k: nat)
    requires k < |peer.index|
  {
    peer.index[k] in peer.blocks && peer.index[k] !in n.blocks &&
    var header := peer.blocks[peer.index[k]].header;
    HeaderHash(p, header) == peer.index[k] && header.height == k && (k > 0 ==> header.parentHash == peer.index[k - 1])
  }

  lemma {:induction false} ForeignSegment(p: Params, n: Node, peer: Node, fromHeight: nat, blocks: seq<Block>)
    requires HasHead(n) && Foreign(p, n, peer) && 1 <= fromHeight && Segment(peer, fromHeight, blocks)
    ensures ImportAll(p, n, blocks) == (n, Some(0))
    ensures blocks != [] ==> blocks[0].header.height == fromHeight
    decreases |blocks|
  {
    hide HeaderHash, Follows, Execute, LedgerAt, PathTo, Better;
    if blocks != [] {
      assert IsCanonical(peer, fromHeight + 0, blocks[0]);
      assert ForeignBlock(p, n, peer, fromHeight) && ForeignBlock(p, n, peer, fromHeight - 1);
      assert Import(p, n, blocks[0]) == (n, Orphaned);
      SegmentTail(peer, fromHeight, blocks);
      ForeignSegment(p, n, peer, fromHeight + 1, blocks[1..]);
    }
  }

  lemma ForeignAnswered(p: Params, n: Node, peer: Node, announced: u64, fromHeight: u64)
    requires HasHead(n) && Foreign(p, n, peer) && 1 <= fromHeight < |peer.index|
    ensures Answered(p, n, peer, announced, fromHeight, []) == (n, if fromHeight == 1 then Drop else Request(WalkBack(fromHeight)))
  {
    hide Import, ImportAll, Segment, Serve, HeaderHash, HasHead;
    assert forall h <- peer.index :: h in peer.blocks by {
      forall h <- peer.index ensures h in peer.blocks {
        var k :| 0 <= k < |peer.index| && peer.index[k] == h;
        assert ForeignBlock(p, n, peer, k);
      }
    }
    ServeIsSegment(peer, fromHeight, MAX_BLOCKS_PER_REQUEST);
    ForeignSegment(p, n, peer, fromHeight, Answer(peer, fromHeight));
  }

  lemma ForeignRound(p: Params, n: Node, peer: Node, limit: nat, announced: u64, fromHeight: u64)
    requires HasHead(n) && Foreign(p, n, peer) && 1 <= fromHeight < |peer.index| && Servable(peer)
    ensures Round(p, n, peer, limit, announced, fromHeight, []) ==
      (n, if !Carried(Answer(peer, fromHeight), limit) then Disconnect
          else if fromHeight == 1 then Drop else Request(WalkBack(fromHeight)))
  {
    hide Foreign, Round, Answered, Answer, Carried, Servable, HasHead, Run;
    RoundExactly(p, n, peer, limit, announced, fromHeight, []);
    RunNothing(p, n);
    ForeignAnswered(p, n, peer, announced, fromHeight);
  }

  /** The exchange with such a peer. */
  ghost function ForeignLoop(p: Params, n: Node, peer: Node, limit: nat, announced: u64, fromHeight: u64): (Node, Reaction)
    requires HasHead(n) && Foreign(p, n, peer) && 1 <= fromHeight < |peer.index| && Servable(peer)
    decreases fromHeight
  {
    ForeignRound(p, n, peer, limit, announced, fromHeight);
    var (m, reaction) := Round(p, n, peer, limit, announced, fromHeight, []);
    if reaction.Request? then ForeignLoop(p, m, peer, limit, announced, reaction.fromHeight) else (m, reaction)
  }

  /** The heights of a walk back that never connects. */
  function WalkHeights(fromHeight: u64): seq<u64>
    requires fromHeight >= 1
    decreases fromHeight
  {
    [fromHeight] + if fromHeight == 1 then [] else WalkHeights(WalkBack(fromHeight))
  }

  /** A peer that does not share our genesis is walked back to height 1 and dropped, or disconnected on the way by a
      reply over the limit. Nothing is stored from it. */
  lemma {:induction false} ForeignPeerIsDropped(p: Params, n: Node, peer: Node, limit: nat, announced: u64, fromHeight: u64)
    requires HasHead(n) && Foreign(p, n, peer) && 1 <= fromHeight < |peer.index| && Servable(peer)
    ensures ForeignLoop(p, n, peer, limit, announced, fromHeight) ==
      (n, if AllCarried(peer, limit, WalkHeights(fromHeight)) then Drop else Disconnect)
    decreases fromHeight
  {
    hide Foreign, Round, Servable, Carried, Answer, AllCarried, HasHead;
    ForeignRound(p, n, peer, limit, announced, fromHeight);
    NothingCarried(peer, limit);
    if fromHeight == 1 {
      AllCarriedCons(peer, limit, fromHeight, []);
    } else {
      AllCarriedCons(peer, limit, fromHeight, WalkHeights(WalkBack(fromHeight)));
      if Carried(Answer(peer, fromHeight), limit) {
        ForeignPeerIsDropped(p, n, peer, limit, announced, WalkBack(fromHeight));
      }
    }
  }
}
