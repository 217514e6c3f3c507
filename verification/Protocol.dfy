/** The message handlers on the live node. Each computes, and acts on, the reaction that module Sync defines. */
module Protocol {
  import opened Core
  import opened Primitives
  import opened PrimitiveCodec
  import opened Ledger
  import opened Pow
  import opened BlockTree
  import opened ChainRuns
  import opened KvChain
  import opened Manager
  import opened Messages
  import opened Sync

  type PeerId = string

  datatype PeerSession = PeerSession(ready: bool, peerHeight: u64, seenBlocks: set<Hash256>)

  const SEEN_BLOCKS_LIMIT: nat := 4096

  type Outbox = seq<(PeerId, Message)>

  ghost function Counted(accepted: nat, rest: (Node, Option<nat>)): (Node, Option<nat>) {
    (rest.0, if rest.1.None? then None else Some(accepted + rest.1.value))
  }

  lemma ManagerFacts(manager: ChainManager)
    requires manager.Valid()
    ensures HasHead(manager.State()) && manager.chain.Valid()
    ensures manager.chain.head == Head(manager.State()) && manager.chain.headHash == HeadHash(manager.State())
  {
    hide Inv, Blockchain.Valid;
    InvHasHead(manager.p, manager.State());
    ChainFacts(manager.chain);
  }

  class RSCoinProtocol {
    const p: Params
    const manager: ChainManager
    const version: u32

    var sessions: map<PeerId, PeerSession>
    var sent: Outbox
    var dropped: seq<PeerId>

    constructor (p: Params, manager: ChainManager, version: u32)
      ensures this.p == p && this.manager == manager && this.version == version
      ensures sessions == map[] && sent == [] && dropped == []
    {
      this.p, this.manager, this.version := p, manager, version;
      sessions, sent, dropped := map[], [], [];
    }

    ghost predicate Valid()
      reads this, manager, manager.chain, manager.chain.store
    {
      manager.p == p && manager.Valid()
    }

    function PeerHeight(peer: PeerId): u64
      reads this
    {
      if peer in sessions then sessions[peer].peerHeight else 0
    }

    method OnPeerConnected(peer: PeerId)
      requires Valid()
      modifies this
      ensures Valid() && dropped == old(dropped)
      ensures sessions == old(sessions)[peer := PeerSession(false, 0, {})]
      ensures HasHead(manager.State()) &&
        sent == old(sent) + [(peer, Status(version, p.chainId, Height(manager.State()), HeadHash(manager.State())))]
    {
      hide ChainManager.Valid, Blockchain.Valid, Inv, Wrap;
      ManagerFacts(manager);
      sessions := sessions[peer := PeerSession(false, 0, {})];
      sent := sent + [(peer, Status(version, p.chainId, manager.chain.head.height, manager.chain.headHash))];
    }

    method OnPeerDisconnected(peer: PeerId)
      modifies this
      ensures sessions == old(sessions) - {peer} && sent == old(sent) && dropped == old(dropped)
    {
      sessions := sessions - {peer};
    }

    method HandleStatus(from: PeerId, peerVersion: u32, peerChainId: u64, height: u64)
      requires Valid()
      modifies this
      ensures Valid() && HasHead(manager.State())
      ensures peerVersion != version || peerChainId != p.chainId ==>
        dropped == old(dropped) + [from] && sent == old(sent) && sessions == old(sessions)
      ensures peerVersion == version && peerChainId == p.chainId ==>
        dropped == old(dropped) &&
        (if from in old(sessions)
         then sessions == old(sessions)[from := PeerSession(true, height, old(sessions)[from].seenBlocks)] &&
           sent == old(sent) + (var head := Head(manager.State()).height; if height > head then [(from, GetBlocks(head + 1, 64))] else [])
         else sessions == old(sessions) && sent == old(sent))
    {
      hide ChainManager.Valid, Blockchain.Valid, Inv;
      ManagerFacts(manager);
      if peerVersion != version || peerChainId != p.chainId {
        dropped := dropped + [from];
        return;
      }
      if from !in sessions {
        return;
      }
      sessions := sessions[from := sessions[from].(ready := true, peerHeight := height)];
      var behind := height > manager.chain.head.height;
      if behind {
        sent := sent + [(from, GetBlocks(Add64(manager.chain.head.height, 1), MAX_BLOCKS_PER_REQUEST))];
      }
    }

    method HandleGetBlocks(from: PeerId, fromHeight: u64, maxCount: u32)
      requires Valid()
      modifies this
      ensures Valid() && sessions == old(sessions) && dropped == old(dropped)
      ensures sent == old(sent) + [(from, Blocks(Reply(manager.State(), fromHeight, maxCount)))]
    {
      hide ChainManager.Valid, Blockchain.Valid, Inv, Wrap, Serve;
      var blocks := CollectBlocks(fromHeight, if maxCount < MAX_BLOCKS_PER_REQUEST then maxCount else MAX_BLOCKS_PER_REQUEST);
      sent := sent + [(from, Blocks(blocks))];
    }

    /** The loop of handleGetBlocks. */
    method CollectBlocks(fromHeight: u64, count: nat) returns (blocks: seq<Block>)
      requires Valid()
      ensures blocks == Serve(manager.State(), fromHeight, count)
    {
      hide ChainManager.Valid, Blockchain.Valid, Inv, Wrap, Linked;
      ManagerFacts(manager);
      ChainFacts(manager.chain);
      ghost var n := manager.State();
      blocks := [];
      var i, height: u64 := 0, fromHeight;
      while i < count
        invariant i <= count
        invariant blocks + Serve(n, height, count - i) == Serve(n, fromHeight, count)
      {
        var block := manager.chain.BlockByHeight(height);
        assert block == BlockAt(n, height);
        if block.None? {
          break;
        }
        assert blocks + ([block.value] + Serve(n, Add64(height, 1), count - i - 1)) ==
          blocks + [block.value] + Serve(n, Add64(height, 1), count - i - 1);
        blocks := blocks + [block.value];
        i := i + 1;
        height := Add64(height, 1);
      }
      assert Serve(n, height, count - i) == [];
      assert blocks + [] == blocks;
    }

    /** The import loop of handleBlocks; None when a block was invalid. */
    method ImportBlocks(blocks: seq<Block>) returns (result: Option<nat>)
      requires Valid() && AllFit(blocks) && |manager.chain.blocks| + |blocks| + 1 < U64
      modifies manager, manager.chain, manager.chain.store
      ensures Valid() && HasHead(old(manager.State()))
      ensures (manager.State(), result) == ImportAll(p, old(manager.State()), blocks)
    {
      hide ChainManager.Valid, Blockchain.Valid, Inv, Import, Fits, Head, Wrap, Extends, HeaderHash;
      ghost var before := manager.State();
      ManagerFacts(manager);
      var accepted, i := 0, 0;
      while i < |blocks|
        invariant i <= |blocks| && Valid() && HasHead(manager.State())
        invariant |manager.chain.blocks| + (|blocks| - i) + 1 < U64
        invariant ImportAll(p, before, blocks) == Counted(accepted, ImportAll(p, manager.State(), blocks[i..]))
      {
        assert blocks[i..][1..] == blocks[i + 1..];
        assert Fits(blocks[i]);
        ghost var here := manager.State();
        var outcome := manager.ImportBlock(blocks[i]);
        ManagerFacts(manager);
        ImportPersistsAndAborts(p, here, blocks[i]);
        if outcome == Invalid {
          return None;
        }
        if outcome != Orphaned {
          accepted := accepted + 1;
        }
        i := i + 1;
      }
      return Some(accepted);
    }

    method HandleBlocks(from: PeerId, blocks: seq<Block>)
      requires Valid() && AllFit(blocks) && |manager.chain.blocks| + |blocks| + 1 < U64
      modifies this, manager, manager.chain, manager.chain.store
      ensures Valid() && sessions == old(sessions) && HasHead(old(manager.State()))
      ensures var (m, reaction) := OnBlocks(p, old(manager.State()), old(PeerHeight(from)), blocks);
        manager.State() == m &&
        sent == old(sent) + (if reaction.Request? then [(from, GetBlocks(reaction.fromHeight, 64))] else []) &&
        dropped == old(dropped) + (if reaction.Drop? then [from] else [])
    {
      hide ChainManager.Valid, Blockchain.Valid, Inv, ImportAll, AllFit, Head, HasHead, Wrap;
      ManagerFacts(manager);
      if blocks == [] {
        return;
      }
      var accepted := ImportBlocks(blocks);
      if accepted.None? {
        dropped := dropped + [from];
        return;
      }
      if accepted.value == 0 {
        var firstHeight := blocks[0].header.height;
        if firstHeight <= 1 {
          dropped := dropped + [from];
          return;
        }
        var back := if firstHeight > MAX_BLOCKS_PER_REQUEST then firstHeight - MAX_BLOCKS_PER_REQUEST else 1;
        sent := sent + [(from, GetBlocks(back, MAX_BLOCKS_PER_REQUEST))];
        return;
      }
      var peerHeight := PeerHeight(from);
      var lastHeight := Last(blocks).header.height;
      if peerHeight > lastHeight {
        sent := sent + [(from, GetBlocks(Add64(lastHeight, 1), MAX_BLOCKS_PER_REQUEST))];
      }
    }

    /** What handleNewBlock notes of the peer before it imports the block. */
    method NotePushed(from: PeerId, block: Block)
      requires from in sessions
      modifies this`sessions
      ensures var s, h := old(sessions)[from], block.header;
        sessions == old(sessions)[from := PeerSession(s.ready, if h.height > s.peerHeight then h.height else s.peerHeight,
          (if |s.seenBlocks| >= 4096 then {} else s.seenBlocks) + {HeaderHash(p, h)})]
    {
      hide EncodeHeader;
      var encoded := EncodeHeaderBytes(block.header);
      var session := sessions[from];
      if |session.seenBlocks| >= SEEN_BLOCKS_LIMIT {
        session := session.(seenBlocks := {});
      }
      session := session.(seenBlocks := session.seenBlocks + {p.hash(encoded)});
      if block.header.height > session.peerHeight {
        session := session.(peerHeight := block.header.height);
      }
      sessions := sessions[from := session];
    }

    method HandleNewBlock(from: PeerId, block: Block)
      requires Valid() && Fits(block) && |manager.chain.blocks| + 1 < U64
      modifies this, manager, manager.chain, manager.chain.store
      ensures Valid() && HasHead(old(manager.State()))
      ensures var known := from in old(sessions) && old(sessions)[from].ready;
        var (m, reaction) := OnPushed(p, old(manager.State()), block);
        if known then
          manager.State() == m &&
          sent == old(sent) + (if reaction.Request? then [(from, GetBlocks(reaction.fromHeight, 64))] else []) &&
          dropped == old(dropped) + (if reaction.Drop? then [from] else []) &&
          var s, h := old(sessions)[from], block.header;
          sessions == old(sessions)[from := PeerSession(true, if h.height > s.peerHeight then h.height else s.peerHeight,
            (if |s.seenBlocks| >= 4096 then {} else s.seenBlocks) + {HeaderHash(p, h)})]
        else manager.State() == old(manager.State()) && sent == old(sent) && dropped == old(dropped) && sessions == old(sessions)
    {
      hide ChainManager.Valid, Blockchain.Valid, Inv, Import, Fits, Wrap, HeaderHash;
      ManagerFacts(manager);
      if from !in sessions || !sessions[from].ready {
        return;
      }
      NotePushed(from, block);
      var outcome := manager.ImportBlock(block);
      ManagerFacts(manager);
      match outcome {
        case Orphaned => sent := sent + [(from, GetBlocks(Add64(manager.chain.head.height, 1), MAX_BLOCKS_PER_REQUEST))];
        case Invalid => dropped := dropped + [from];
        case _ =>
      }
    }
  }
}
