/** Whole nodes, each a chain manager on its own store: restarting one, and running two side by side. */
module Nodes {
  import opened Core
  import opened Primitives
  import opened Ledger
  import opened BlockTree
  import opened Convergence
  import opened Storage
  import opened KvChain
  import opened Manager

  /** A node started on an empty store, fed any blocks, stopped, and started again on what it left: the second start
      writes nothing and is the node that the run describes. */
  method Restart(p: Params, store: MemoryStore, blocks: seq<Block>) returns (node: ChainManager)
    requires GenesisOk(p) && Fits(p.genesis) && store.entries == map[]
    requires AllFit(blocks) && 1 + |blocks| < U64
    modifies store
    ensures fresh(node) && fresh(node.chain) && node.p == p && node.chain.store == store && node.Valid()
    ensures node.State() == Run(p, FreshNode(p), blocks)
  {
    hide Inv, Blockchain.Valid, Exact, Fits, GenesisOk, Run, AllFit;
    var first := Boot(p, store, FreshNode(p));
    first.value.ImportSequence(blocks);
    ghost var n := first.value.State();
    assert Exact(p, store.entries, n.blocks, n.index) by { ExactEntries(first.value.chain); }
    ExactHasHead(p, store.entries, n.blocks, n.index);
    var second := Boot(p, store, n);
    node := second.value;
  }

  lemma ExactEntries(chain: Blockchain)
    requires chain.Valid()
    ensures Exact(chain.p, chain.store.entries, chain.blocks, chain.index)
  {
  }

  /** Two nodes on one genesis, fed from one universe in any way that brings the best block to both in order, end with
      the same head, the same ledger, and stores with the same head entry and the same height index. */
  method RunBoth(p: Params, ghost u: Blocks, a: MemoryStore, b: MemoryStore, xs: seq<Block>, ys: seq<Block>, ghost best: Hash256)
    returns (m: ChainManager, n: ChainManager)
    requires GenesisOk(p) && Fits(p.genesis) && a != b && a.entries == map[] && b.entries == map[]
    requires Universe(p, u) && Delivery(p, u, xs) && Delivery(p, u, ys)
    requires IsBest(p, u, best) && InOrder(p, u, xs, best) && InOrder(p, u, ys, best)
    requires AllFit(xs) && AllFit(ys) && 1 + |xs| < U64 && 1 + |ys| < U64
    modifies a, b
    ensures m.Valid() && n.Valid() && m.chain.store == a && n.chain.store == b
    ensures m.chain.headHash == n.chain.headHash == best && m.chain.head == n.chain.head && m.ledger == n.ledger
    ensures StoredHead(a.entries) == StoredHead(b.entries) == Some(best)
    ensures forall height: u64 :: Slot(a.entries, height) == Slot(b.entries, height)
  {
    hide Inv, Blockchain.Valid, Exact, Fits, GenesisOk, Run, AllFit, Universe, Delivery, IsBest, InOrder, Slot, StoredHead;
    var first := Boot(p, a, FreshNode(p));
    m := first.value;
    m.ImportSequence(xs);
    var second := Boot(p, b, FreshNode(p));
    n := second.value;
    n.ImportSequence(ys);
    Convergence.Convergence(p, u, xs, ys, best);
    ManagerHead(m);
    ManagerHead(n);
    DeliveryHead(p, u, xs, best);
    DeliveryHead(p, u, ys, best);
  }

  ghost predicate HoldsIndex(entries: Entries, index: seq<Hash256>) {
    forall k: u64 :: Slot(entries, k) == if k < |index| then Some(index[k]) else None
  }

  /** What a valid node keeps in memory and in its store, in terms of its abstract state. */
  lemma ManagerHead(m: ChainManager)
    requires m.Valid()
    ensures HasHead(m.State()) && m.chain.headHash == HeadHash(m.State()) && m.chain.head == Head(m.State())
    ensures StoredHead(m.chain.store.entries) == Some(m.chain.headHash)
    ensures HoldsIndex(m.chain.store.entries, m.chain.index)
  {
    hide Inv, Slot;
    InvHasHead(m.p, m.State());
    ChainFacts(m.chain);
    ExactEntries(m.chain);
    OldSlots(m.chain.store.entries, m.chain.blocks, m.chain.index);
  }

  lemma DeliveryHead(p: Params, u: Blocks, xs: seq<Block>, best: Hash256)
    requires GenesisOk(p) && Universe(p, u) && Delivery(p, u, xs)
    requires HeadHash(Run(p, FreshNode(p), xs)) == best
    ensures best in u && Head(Run(p, FreshNode(p), xs)) == u[best].header
  {
    hide Inv, Run, From, Universe, GenesisOk;
    StartWithin(p, u);
    RunStaysWithin(p, u, FreshNode(p), xs);
  }
}
