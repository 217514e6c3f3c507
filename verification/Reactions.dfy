/** What a node answers its peers, said of the blocks they send and of what importing them one by one does. */
module Reactions {
  import opened Core
  import opened Primitives
  import opened Ledger
  import opened Pow
  import opened BlockTree
  import opened Sync

  /** What the i-th block is answered after those before it. */
  function OutcomeAt(p: Params, n: Node, blocks: seq<Block>, i: nat): Outcome
    requires HasHead(n) && i < |blocks|
  {
    Import(p, Run(p, n, blocks[..i]), blocks[i]).1
  }

  ghost predicate Somewhere(p: Params, n: Node, blocks: seq<Block>, outcome: Outcome)
    requires HasHead(n)
  {
    exists i :: 0 <= i < |blocks| && OutcomeAt(p, n, blocks, i) == outcome
  }

  ghost predicate Everywhere(p: Params, n: Node, blocks: seq<Block>, outcome: Outcome)
    requires HasHead(n)
  {
    forall i :: 0 <= i < |blocks| ==> OutcomeAt(p, n, blocks, i) == outcome
  }

  /** The first invalid block is the i-th. */
  ghost predicate FirstInvalid(p: Params, n: Node, blocks: seq<Block>, i: nat)
    requires HasHead(n)
  {
    i < |blocks| && OutcomeAt(p, n, blocks, i) == Invalid && forall j :: 0 <= j < i ==> OutcomeAt(p, n, blocks, j) != Invalid
  }

  lemma OutcomeShift(p: Params, n: Node, blocks: seq<Block>, i: nat)
    requires HasHead(n) && blocks != [] && i < |blocks|
    ensures OutcomeAt(p, n, blocks, 0) == Import(p, n, blocks[0]).1
    ensures i > 0 ==> OutcomeAt(p, n, blocks, i) == OutcomeAt(p, Import(p, n, blocks[0]).0, blocks[1..], i - 1)
    ensures Run(p, n, blocks[..i + 1]) == Run(p, Import(p, n, blocks[0]).0, blocks[1..][..i])
  {
    hide Import;
    assert blocks[..0] == [];
    if i > 0 {
      assert blocks[..i][1..] == blocks[1..][..i - 1] && blocks[1..][i - 1] == blocks[i];
    }
    assert blocks[..i + 1][1..] == blocks[1..][..i] && blocks[..i + 1][0] == blocks[0];
  }

  lemma {:induction false} ImportAllExactly(p: Params, n: Node, blocks: seq<Block>)
    requires HasHead(n)
    ensures var (m, accepted) := ImportAll(p, n, blocks);
      (accepted.None? <==> Somewhere(p, n, blocks, Invalid)) &&
      (accepted.Some? ==> m == Run(p, n, blocks) && (accepted.value == 0 <==> Everywhere(p, n, blocks, Orphaned))) &&
      forall i: nat :: FirstInvalid(p, n, blocks, i) ==> m == Run(p, n, blocks[..i + 1])
    decreases |blocks|
  {
    hide Import, HasHead, OutcomeAt;
    if blocks != [] {
      var next, outcome := Import(p, n, blocks[0]).0, Import(p, n, blocks[0]).1;
      forall i: nat | i < |blocks|
        ensures OutcomeAt(p, n, blocks, 0) == outcome
        ensures i > 0 ==> OutcomeAt(p, n, blocks, i) == OutcomeAt(p, next, blocks[1..], i - 1)
        ensures Run(p, n, blocks[..i + 1]) == Run(p, next, blocks[1..][..i])
      {
        OutcomeShift(p, n, blocks, i);
      }
      if outcome == Invalid {
        assert Run(p, next, blocks[1..][..0]) == next;
        assert forall i: nat :: FirstInvalid(p, n, blocks, i) ==> i == 0;
      } else {
        ImportAllExactly(p, next, blocks[1..]);
        RestExactly(p, n, next, blocks, Invalid);
        RestExactly(p, n, next, blocks, Orphaned);
        forall i: nat | FirstInvalid(p, n, blocks, i) ensures ImportAll(p, n, blocks).0 == Run(p, n, blocks[..i + 1]) {
          assert i > 0;
          assert forall j :: 0 <= j < i - 1 ==> OutcomeAt(p, next, blocks[1..], j) == OutcomeAt(p, n, blocks, j + 1);
          assert FirstInvalid(p, next, blocks[1..], i - 1);
          assert ImportAll(p, n, blocks).0 == ImportAll(p, next, blocks[1..]).0;
        }
      }
    }
  }

  lemma RestExactly(p: Params, n: Node, next: Node, blocks: seq<Block>, outcome: Outcome)
    requires HasHead(n) && HasHead(next) && blocks != []
    requires forall i :: 0 < i < |blocks| ==> OutcomeAt(p, n, blocks, i) == OutcomeAt(p, next, blocks[1..], i - 1)
    ensures Somewhere(p, n, blocks, outcome) <==> OutcomeAt(p, n, blocks, 0) == outcome || Somewhere(p, next, blocks[1..], outcome)
    ensures Everywhere(p, n, blocks, outcome) <==> OutcomeAt(p, n, blocks, 0) == outcome && Everywhere(p, next, blocks[1..], outcome)
  {
    hide OutcomeAt, HasHead;
    forall i | 0 <= i < |blocks[1..]| ensures OutcomeAt(p, next, blocks[1..], i) == OutcomeAt(p, n, blocks, i + 1) {
      assert OutcomeAt(p, n, blocks, i + 1) == OutcomeAt(p, next, blocks[1..], i + 1 - 1);
    }
  }

  /** Every answer to a list of blocks, each as an if and only if. The peer is dropped exactly when one of its blocks is
      invalid where it is imported, or all are orphaned and the list already began at height 1 or below. */
  lemma BlocksAnsweredExactly(p: Params, n: Node, peerHeight: u64, blocks: seq<Block>)
    requires HasHead(n) && blocks != []
    ensures var first, last := blocks[0].header.height as int, blocks[|blocks| - 1].header.height as int;
      var invalid, orphaned := Somewhere(p, n, blocks, Invalid), Everywhere(p, n, blocks, Orphaned);
      var reaction := OnBlocks(p, n, peerHeight, blocks).1;
      (reaction == Drop <==> invalid || (orphaned && first <= 1)) &&
      (reaction == Idle <==> !invalid && !orphaned && peerHeight <= last) &&
      (reaction.Request? <==> !invalid && (if orphaned then first > 1 else peerHeight > last)) &&
      (reaction.Request? ==>
        reaction.fromHeight == if !orphaned then last + 1 else if first > 64 then first - 64 else 1)
  {
    hide ImportAll, Somewhere, Everywhere, HasHead;
    ImportAllExactly(p, n, blocks);
  }

  /** What such a list leaves behind: the imports up to and with the first invalid block, or all of them. */
  lemma BlocksLeaveExactly(p: Params, n: Node, peerHeight: u64, blocks: seq<Block>)
    requires HasHead(n)
    ensures var m := OnBlocks(p, n, peerHeight, blocks).0;
      (!Somewhere(p, n, blocks, Invalid) ==> m == Run(p, n, blocks)) &&
      forall i: nat :: FirstInvalid(p, n, blocks, i) ==> m == Run(p, n, blocks[..i + 1])
    ensures blocks == [] ==> OnBlocks(p, n, peerHeight, blocks) == (n, Idle)
  {
    hide ImportAll, Somewhere, FirstInvalid, HasHead;
    ImportAllExactly(p, n, blocks);
    if blocks == [] {
      RunNothing(p, n);
      hide *;
      NoneInvalid(p, n);
    }
  }

  lemma NoneInvalid(p: Params, n: Node)
    requires HasHead(n)
    ensures forall i: nat :: !FirstInvalid(p, n, [], i)
  {
  }

  /** A pushed block: its peer is dropped exactly when it is invalid, and asked for the blocks above the head exactly
      when it is an orphan. */
  lemma PushAnsweredExactly(p: Params, n: Node, b: Block)
    requires HasHead(n) && Head(n).height + 1 < U64
    ensures var (m, reaction) := OnPushed(p, n, b); var outcome := Import(p, n, b).1;
      m == Run(p, n, [b]) &&
      (reaction == Drop <==> outcome == Invalid) &&
      (reaction.Request? <==> outcome == Orphaned) &&
      (reaction.Request? ==> m == n && reaction.fromHeight == Head(n).height + 1) &&
      (reaction == Idle <==> outcome != Invalid && outcome != Orphaned)
  {
    hide Follows, Execute, LedgerAt, PathTo, Better, HeaderHash;
    assert [b][1..] == [];
    RunNothing(p, Import(p, n, b).0);
  }

  /** A status: blocks are asked for, from just above the head, exactly when the peer announces more height. */
  lemma StatusAnsweredExactly(n: Node, announced: u64)
    requires HasHead(n)
    ensures OnStatus(n, announced) == if announced > Head(n).height then Request(Head(n).height + 1) else Idle
  {
  }

  /** A request: consecutive canonical blocks, as many as asked for, at most 64, and no more than there are. */
  lemma ReplyExactly(n: Node, fromHeight: u64, maxCount: u32)
    requires |n.index| < U64 && forall h <- n.index :: h in n.blocks
    ensures var reply, left := Reply(n, fromHeight, maxCount), |n.index| - fromHeight;
      |reply| <= maxCount && |reply| <= 64 && |reply| <= (if left > 0 then left else 0) &&
      (|reply| == maxCount || |reply| == 64 || |reply| == left || left <= 0) &&
      forall i :: 0 <= i < |reply| ==> n.index[fromHeight + i] in n.blocks && reply[i] == n.blocks[n.index[fromHeight + i]]
  {
    hide Serve;
    ServeIsSegment(n, fromHeight, if maxCount < MAX_BLOCKS_PER_REQUEST then maxCount else MAX_BLOCKS_PER_REQUEST);
    var reply := Reply(n, fromHeight, maxCount);
    forall i | 0 <= i < |reply| ensures n.index[fromHeight + i] in n.blocks && reply[i] == n.blocks[n.index[fromHeight + i]] {
      assert IsCanonical(n, fromHeight + i, reply[i]);
    }
  }
}
