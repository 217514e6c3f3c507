/** One mining step: template, preview, seal, import. */
module Mining {
  import opened Core
  import opened Numbers
  import opened Primitives
  import opened Ledger
  import opened Execution
  import opened Supply
  import opened Pow
  import opened BlockTree
  import opened ChainRuns
  import opened KvChain
  import opened Manager
  import opened Mempool

  function ZeroHash(): Hash256 { seq(32, _ => 0) }

  /** The header as the miner fills it in. */
  function Blank(headHash: Hash256, head: BlockHeader, now: u64, beneficiary: Address): BlockHeader {
    BlockHeader(1, headHash, ZeroHash(), ZeroHash(), Add64(head.height, 1), now, beneficiary, [], [], [])
  }

  /** The draft as the engine prepares it, before its state root is known. */
  function Draft(headHash: Hash256, head: BlockHeader, now: u64, beneficiary: Address, ts: seq<Transaction>): Block {
    Block(Prepare(Blank(headHash, head, now, beneficiary), head), ts)
  }

  function WithRoot(b: Block, root: Hash256): Block { b.(header := b.header.(stateRoot := root)) }

  function WithSeal(b: Block, nonce: u64): Block { b.(header := WithNonce(b.header, nonce)) }

  /** The header that is submitted: every field but the root and the seal is fixed when the draft is made. */
  lemma SealedHeader(headHash: Hash256, head: BlockHeader, now: u64, beneficiary: Address, ts: seq<Transaction>, root: Hash256, nonce: u64)
    ensures var h := WithSeal(WithRoot(Draft(headHash, head, now, beneficiary, ts), root), nonce).header;
      h.version == 1 && h.parentHash == headHash && h.stateRoot == root && (forall i :: 0 <= i < 32 ==> h.transactionsRoot[i] == 0) &&
      h.height == Add64(head.height, 1) && h.beneficiary == beneficiary && h.extraData == [] && h.extensions == [] &&
      |h.consensusSeal| == 8 && FromLE(h.consensusSeal) == nonce &&
      (head.timestamp + 1 < U64 ==> h.timestamp == if now > head.timestamp then now else head.timestamp + 1)
  {
    hide LE, FromLE, Pow256;
    SealNumbers();
    LEInverse(8, nonce);
  }

  lemma SealedTransactions(headHash: Hash256, head: BlockHeader, now: u64, beneficiary: Address, ts: seq<Transaction>, root: Hash256, nonce: u64)
    ensures WithSeal(WithRoot(Draft(headHash, head, now, beneficiary, ts), root), nonce).transactions == ts
  {
  }

  /** No stored block other than an equal one shares the hash of the new header. */
  ghost predicate NoCollision(p: Params, blocks: Blocks, h: BlockHeader) {
    var hash := HeaderHash(p, h);
    hash in blocks ==> blocks[hash].header == h
  }

  /** A header on top of the head is new: the head is a leaf, and genesis is not above it. */
  lemma ChildOfHeadIsNew(p: Params, n: Node, h: BlockHeader)
    requires Inv(p, n) && NoCollision(p, n.blocks, h) && h.parentHash == HeadHash(n) && h.height > 0
    ensures HeaderHash(p, h) !in n.blocks
  {
    hide HeaderHash, Follows, LedgerAt, PathTo, HeadIsBest;
  }

  /** What one mining step submits when the search stops at `nonce`. */
  function Mined(p: Params, n: Node, pool: seq<Transaction>, maxCount: nat, now: u64, beneficiary: Address, nonce: u64): Option<Block>
    requires HasHead(n)
  {
    var draft := Draft(HeadHash(n), Head(n), now, beneficiary, Template(p, n.ledger, pool, maxCount));
    var preview := Apply(p, n.ledger, draft);
    if preview.None? then None else Some(WithSeal(WithRoot(draft, StateRoot(p, preview.value)), nonce))
  }

  /** Mining lands. From any pool without twins, with the supply below 2^64, the draft always executes; a solved
      block is imported exactly when the head's timestamp is not the last 64-bit value, which no child can follow. */
  lemma MiningLands(p: Params, n: Node, pool: seq<Transaction>, maxCount: nat, now: u64, beneficiary: Address, nonce: u64)
    requires Inv(p, n) && |n.blocks| < U64 && NoTwins(pool) && Total(n.ledger) < U64
    ensures var mined := Mined(p, n, pool, maxCount, now, beneficiary, nonce);
      mined.Some? && DistinctSenders(mined.value.transactions) &&
      mined.value.header.parentHash == HeadHash(n) && Execute(p, n.ledger, mined.value).Some? &&
      (MeetsDifficulty(p, HeaderHash(p, mined.value.header)) ==>
        (Follows(p, mined.value.header, Head(n)) <==> Head(n).timestamp + 1 < U64)) &&
      (NoCollision(p, n.blocks, mined.value.header) && MeetsDifficulty(p, HeaderHash(p, mined.value.header)) ==>
        Import(p, n, mined.value).1 == if Head(n).timestamp + 1 < U64 then Imported else Invalid)
  {
    hide Follows, MeetsDifficulty, HeaderHash, Template, Inv, NoTwins, Total, Import, NoCollision;
    InvHasHead(p, n);
    var draft := Draft(HeadHash(n), Head(n), now, beneficiary, Template(p, n.ledger, pool, maxCount));
    TemplateExecutes(p, n.ledger, pool, maxCount, draft);
    var preview := Apply(p, n.ledger, draft).value;
    var rooted := WithRoot(draft, StateRoot(p, preview));
    var b := WithSeal(rooted, nonce);
    SameEffect(p, n.ledger, draft, b);
    if MeetsDifficulty(p, HeaderHash(p, b.header)) {
      PreparedFollows(p, Blank(HeadHash(n), Head(n), now, beneficiary), Head(n), StateRoot(p, preview), nonce);
      if NoCollision(p, n.blocks, b.header) { MinedIsImported(p, n, b); }
    }
  }

  /** What is mined, field by field: one above the head, no earlier than the clock, rewarding the beneficiary, its
      transactions covered by the ledger, and its root that of the ledger they and the reward lead to. */
  lemma MinedExactly(p: Params, n: Node, pool: seq<Transaction>, maxCount: nat, now: u64, beneficiary: Address, nonce: u64)
    returns (after: Accounts)
    requires Inv(p, n) && |n.blocks| < U64 && NoTwins(pool) && Total(n.ledger) < U64
    ensures HasHead(n) && var mined := Mined(p, n, pool, maxCount, now, beneficiary, nonce);
      mined.Some? && var b, head := mined.value, Head(n);
      b.transactions == Template(p, n.ledger, pool, maxCount) &&
      (forall i :: 0 <= i < |b.transactions| ==> Covered(p, n.ledger, b.transactions, i)) &&
      IsAfter(p, n.ledger, b.transactions, beneficiary, after) && b.header.stateRoot == p.hash(EncodeAccounts(after)) &&
      b.header.version == 1 && b.header.parentHash == HeadHash(n) && b.header.height == head.height as int + 1 &&
      b.header.beneficiary == beneficiary && b.header.extraData == [] && b.header.extensions == [] &&
      (forall i :: 0 <= i < 32 ==> b.header.transactionsRoot[i] == 0) &&
      |b.header.consensusSeal| == 8 && FromLE(b.header.consensusSeal) == nonce &&
      (head.timestamp + 1 < U64 ==> b.header.timestamp == if now > head.timestamp then now else head.timestamp + 1)
  {
    hide Template, Inv, NoTwins, Total, Covered, IsAfter, Apply, FromLE, EncodeAccounts, Draft, WithSeal, WithRoot, StateRoot,
      Follows, MeetsDifficulty, NoCollision, Import, HeaderHash, Execute;
    InvHasHead(p, n);
    HeightBound(p, n.blocks, HeadHash(n));
    MiningLands(p, n, pool, maxCount, now, beneficiary, nonce);
    var mined := Mined(p, n, pool, maxCount, now, beneficiary, nonce);
    after := Execute(p, n.ledger, mined.value).value;
    BlockExecutesExactly(p, n.ledger, mined.value, after);
    var ts := Template(p, n.ledger, pool, maxCount);
    var preview := Apply(p, n.ledger, Draft(HeadHash(n), Head(n), now, beneficiary, ts));
    SealedHeader(HeadHash(n), Head(n), now, beneficiary, ts, StateRoot(p, preview.value), nonce);
    SealedTransactions(HeadHash(n), Head(n), now, beneficiary, ts, StateRoot(p, preview.value), nonce);
  }

  lemma SameEffect(p: Params, ledger: Accounts, b: Block, c: Block)
    requires b.transactions == c.transactions && b.header.beneficiary == c.header.beneficiary
    ensures Apply(p, ledger, b) == Apply(p, ledger, c)
  {
  }

  lemma MinedIsImported(p: Params, n: Node, b: Block)
    requires Inv(p, n) && |n.blocks| < U64 && NoCollision(p, n.blocks, b.header)
    requires b.header.parentHash == HeadHash(n) && b.header.height == Add64(Head(n).height, 1)
    requires Execute(p, n.ledger, b).Some?
    ensures Import(p, n, b).1 == if Follows(p, b.header, Head(n)) then Imported else Invalid
  {
    hide HeaderHash, Follows, LedgerAt, PathTo, Execute, Better, Inv;
    InvHasHead(p, n);
    HeightBound(p, n.blocks, HeadHash(n));
    ChildOfHeadIsNew(p, n, b.header);
  }

  /** A new block that executes on its parent is never invalid, and is imported exactly on top of the head. */
  lemma NewReplayableBlock(p: Params, m: Node, b: Block)
    requires Inv(p, m) && |m.blocks| < U64 && HeaderHash(p, b.header) !in m.blocks
    requires b.header.parentHash in m.blocks && Follows(p, b.header, m.blocks[b.header.parentHash].header)
    requires var before := LedgerAt(p, m.blocks, b.header.parentHash); before.Some? && Execute(p, before.value, b).Some?
    ensures HasHead(m) && var (after, outcome) := Import(p, m, b);
      HeaderHash(p, b.header) in after.blocks && (outcome == Imported <==> HeadHash(m) == b.header.parentHash) &&
      (outcome == Imported || outcome == Forked || outcome == Reorged)
  {
    hide HeaderHash, Follows, LedgerAt, PathTo, Execute, Better, Inv, Tree;
    InvHasHead(p, m);
    NewLedger(p, m.blocks, b);
  }

  /** A block mined on one head and submitted after other imports is never invalid or an orphan: it extends the chain
      when the head is still the same, and is otherwise kept beside it or reorganised to. */
  lemma MinedAfterOthers(p: Params, n: Node, b: Block, others: seq<Block>)
    requires Inv(p, n) && |n.blocks| + |others| + 1 < U64
    requires b.header.parentHash == HeadHash(n) && Follows(p, b.header, Head(n)) && Execute(p, n.ledger, b).Some?
    requires HeaderHash(p, b.header) !in Run(p, n, others).blocks
    ensures var m := Run(p, n, others); var (after, outcome) := Import(p, m, b);
      HeaderHash(p, b.header) in after.blocks && (outcome == Imported <==> HeadHash(m) == HeadHash(n)) &&
      (outcome == Imported || outcome == Forked || outcome == Reorged)
  {
    hide HeaderHash, Follows, LedgerAt, PathTo, Execute, Better, Inv, Run, Tree, Import;
    InvHasHead(p, n);
    RunKeepsInv(p, n, others);
    GrowthKeeps(p, n.blocks, Run(p, n, others).blocks, HeadHash(n));
    NewReplayableBlock(p, Run(p, n, others), b);
  }

  /** What `prepare` makes of any draft one above the head follows the head, once its state root is filled in and it
      is sealed and solved, exactly when the head's timestamp can be exceeded. */
  lemma PreparedFollows(p: Params, draft: BlockHeader, head: BlockHeader, root: Hash256, nonce: u64)
    requires draft.height == Add64(head.height, 1)
    requires MeetsDifficulty(p, HeaderHash(p, WithNonce(Prepare(draft, head).(stateRoot := root), nonce)))
    ensures Follows(p, WithNonce(Prepare(draft, head).(stateRoot := root), nonce), head) <==> head.timestamp + 1 < U64
  {
    hide MeetsDifficulty, HeaderHash;
  }

  /** A mined header takes 168 bytes and the transaction count eight. */
  lemma MinedSize(b: Block)
    requires b.header.extraData == [] && b.header.extensions == [] && |b.header.consensusSeal| == SEAL_SIZE
    ensures |EncodeBlock(b)| == 176 + |EncodeTransactions(b.transactions)|
  {
    hide LE, EncodeTransactions;
  }

  lemma FitsMeans(b: Block)
    ensures Fits(b) <==> |EncodeBlock(b)| < SIZE_LIMIT
  {
  }

  datatype Result = Submitted(outcome: Outcome, block: Block) | ExecutionFailed | SealCancelled | NoncesExhausted

  class Miner {
    const p: Params
    const manager: ChainManager
    const mempool: SimpleMempool
    const beneficiary: Address
    const maxTransactions: nat

    constructor (p: Params, manager: ChainManager, mempool: SimpleMempool, beneficiary: Address, maxTransactions: nat)
      ensures this.p == p && this.manager == manager && this.mempool == mempool
      ensures this.beneficiary == beneficiary && this.maxTransactions == maxTransactions
    {
      this.p, this.manager, this.mempool, this.beneficiary, this.maxTransactions := p, manager, mempool, beneficiary, maxTransactions;
    }

    /** `now` is the clock, `stopRequested` the interruption of the nonce search, which a remote block that becomes
        head requests, and `others` the blocks that other threads import while it runs. */
    method MineOne(now: u64, stopRequested: nat -> bool, others: seq<Block>) returns (result: Result)
      requires manager.p == p && manager.Valid() && mempool.Valid() && |manager.chain.blocks| + |others| + 1 < U64
      requires AllFit(others) && Total(manager.ledger) < U64
      requires |EncodeTransactions(Template(p, manager.ledger, mempool.transactions, maxTransactions))| + 176 < SIZE_LIMIT
      modifies mempool, manager, manager.chain, manager.chain.store
      ensures manager.Valid() && mempool.Valid() && HasHead(old(manager.State()))
      ensures !result.ExecutionFailed?
      ensures result.Submitted? ==> exists nonce: u64 ::
        Mined(p, old(manager.State()), old(mempool.transactions), maxTransactions, now, beneficiary, nonce) == Some(result.block) &&
        MeetsDifficulty(p, HeaderHash(p, result.block.header)) &&
        (manager.State(), result.outcome) == Import(p, Run(p, old(manager.State()), others), result.block)
      ensures !result.Submitted? ==> manager.State() == Run(p, old(manager.State()), others)
      ensures result.Submitted? && others == [] && NoCollision(p, old(manager.chain.blocks), result.block.header) ==>
        result.outcome == if old(manager.chain.head.timestamp) + 1 < U64 then Imported else Invalid
      ensures result.Submitted? && old(manager.chain.head.timestamp) + 1 < U64 ==>
        var meanwhile := Run(p, old(manager.State()), others); var hash := HeaderHash(p, result.block.header);
        hash in meanwhile.blocks ||
        (hash in manager.chain.blocks &&
         (result.outcome == Imported <==> HeadHash(meanwhile) == old(manager.chain.headHash)) &&
         (result.outcome == Imported || result.outcome == Forked || result.outcome == Reorged))
    {
      hide HeaderHash, MeetsDifficulty, Inv, Import, Apply, Fits, Blockchain.Valid, NoTwins, Total, Template, NoCollision, Run, Execute, Follows, AllFit, Solves, NoneBelow, FromLE, LE;
      ghost var before, pool := manager.State(), mempool.transactions;
      InvHasHead(p, before);
      ChainFacts(manager.chain);
      var ts := mempool.Take(p, manager.ledger, maxTransactions);
      var draft := Draft(manager.chain.headHash, manager.chain.head, now, beneficiary, ts);
      TemplateExecutes(p, manager.ledger, pool, maxTransactions, draft);
      var preview := ApplyBlock(p, manager.ledger, draft);
      if preview.None? {
        return ExecutionFailed;
      }
      var root := ComputeStateRoot(p, preview.value);
      SealedHeader(manager.chain.headHash, manager.chain.head, now, beneficiary, ts, root, 0);
      draft := WithRoot(draft, root);
      manager.ImportSequence(others);
      var sealed := Seal(p, draft, stopRequested);
      match sealed {
        case Cancelled => return SealCancelled;
        case Exhausted => return NoncesExhausted;
        case Sealed(block, nonce) =>
          SealedMeets(p, draft, block, nonce);
          assert Mined(p, before, pool, maxTransactions, now, beneficiary, nonce) == Some(block);
          MiningLands(p, before, pool, maxTransactions, now, beneficiary, nonce);
          if before.blocks[HeadHash(before)].header.timestamp + 1 < U64 && HeaderHash(p, block.header) !in Run(p, before, others).blocks {
            MinedAfterOthers(p, before, block, others);
          }
          RunNothing(p, before, others);
          assert Fits(block) by { MinedSize(block); FitsMeans(block); }
          var outcome := manager.ImportBlock(block);
          return Submitted(outcome, block);
      }
    }
  }

  lemma RunNothing(p: Params, n: Node, others: seq<Block>)
    requires HasHead(n)
    ensures others == [] ==> Run(p, n, others) == n
  {
  }
}
