/** What every import answers and leaves behind, said of the tree alone. */
module Outcomes {
  import opened Core
  import opened Numbers
  import opened Primitives
  import opened Ledger
  import opened Pow
  import opened BlockTree

  /** The new block's own ledger and, on top of the head, its place in the order. */
  lemma NewBlockFacts(p: Params, n: Node, b: Block, next: Blocks)
    requires Inv(p, n) && |n.blocks| < U64 && HasHead(n)
    requires HeaderHash(p, b.header) !in n.blocks && next == n.blocks[HeaderHash(p, b.header) := b]
    requires b.header.parentHash in n.blocks && Follows(p, b.header, n.blocks[b.header.parentHash].header)
    ensures var before := LedgerAt(p, n.blocks, b.header.parentHash);
      LedgerAt(p, next, HeaderHash(p, b.header)) == if before.None? then None else Execute(p, before.value, b)
    ensures b.header.parentHash == HeadHash(n) ==>
      LedgerAt(p, n.blocks, b.header.parentHash) == Some(n.ledger) && Better(p, b.header, Head(n))
  {
    hide Follows, Execute, HeaderHash, LedgerAt, PathTo, Better, HeadIsBest, HeadIsLeaf, Tree;
    NewLedger(p, n.blocks, b);
    if b.header.parentHash == HeadHash(n) {
      HeightExact(p, n.blocks, b.header);
      ChildIsBetter(p, b.header, Head(n));
    }
  }

  /** The answer to any block, each as an if and only if. A block over a stored parent is invalid exactly when it
      breaks a header rule, or would become head but does not replay. */
  lemma OutcomeExactly(p: Params, n: Node, b: Block, next: Blocks)
    requires Inv(p, n) && HasHead(n) && |n.blocks| < U64 && next == n.blocks[HeaderHash(p, b.header) := b]
    ensures var h, parent := HeaderHash(p, b.header), b.header.parentHash; var outcome := Import(p, n, b).1;
      if h in n.blocks then outcome == AlreadyKnown
      else if parent !in n.blocks then outcome == Orphaned
      else
        var follows, better, replays := Follows(p, b.header, n.blocks[parent].header), Better(p, b.header, Head(n)), Replayable(p, next, h);
        (outcome == Invalid <==> !follows || (better && !replays)) &&
        (outcome == Forked <==> follows && !better) &&
        (outcome == Imported <==> follows && replays && parent == HeadHash(n)) &&
        (outcome == Reorged <==> follows && replays && parent != HeadHash(n) && better)
  {
    hide Follows, Execute, HeaderHash, LedgerAt, PathTo, Better, Inv;
    if HeaderHash(p, b.header) !in n.blocks && b.header.parentHash in n.blocks &&
      Follows(p, b.header, n.blocks[b.header.parentHash].header)
    {
      NewBlockFacts(p, n, b, next);
    }
  }

  /** What is stored and which block is head afterwards. A side block is kept whether or not it executes, a child of
      the head only when it does. */
  lemma AftermathExactly(p: Params, n: Node, b: Block, next: Blocks)
    requires Inv(p, n) && HasHead(n) && |n.blocks| < U64 && next == n.blocks[HeaderHash(p, b.header) := b]
    ensures var h, parent := HeaderHash(p, b.header), b.header.parentHash; var m := Import(p, n, b).0;
      m.blocks == (if h !in n.blocks && parent in n.blocks && Follows(p, b.header, n.blocks[parent].header) &&
                     (parent != HeadHash(n) || Replayable(p, next, h)) then next else n.blocks) &&
      HeadHash(m) == (if h !in n.blocks && parent in n.blocks && Follows(p, b.header, n.blocks[parent].header) &&
                        Better(p, b.header, Head(n)) && Replayable(p, next, h) then h else HeadHash(n))
  {
    hide Follows, Execute, HeaderHash, LedgerAt, PathTo, Better, Inv;
    if HeaderHash(p, b.header) !in n.blocks && b.header.parentHash in n.blocks &&
      Follows(p, b.header, n.blocks[b.header.parentHash].header)
    {
      NewBlockFacts(p, n, b, next);
    }
  }

  /** The header rules as numbers, over a parent that is not at the last height. */
  lemma FollowsExactly(p: Params, h: BlockHeader, parent: BlockHeader)
    requires p.difficultyBits <= 256 && parent.height + 1 < U64
    ensures Follows(p, h, parent) <==>
      h.height == parent.height + 1 && h.timestamp > parent.timestamp && |h.consensusSeal| == 8 &&
      BE(p.hash(EncodeHeader(h))) < Pow2(256 - p.difficultyBits)
  {
    hide MeetsDifficulty, BE, Pow2, EncodeHeader;
    DifficultyIsNumericBound(p, HeaderHash(p, h));
  }

  lemma BetterExactly(p: Params, l: BlockHeader, r: BlockHeader)
    ensures Better(p, l, r) <==>
      l.height > r.height || (l.height == r.height && BE(p.hash(EncodeHeader(l))) < BE(p.hash(EncodeHeader(r))))
  {
    hide Compare, BE, EncodeHeader;
    CompareIsNumeric(p, l, r);
  }
}
