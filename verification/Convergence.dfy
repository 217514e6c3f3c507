/** Nodes that receive the same blocks agree, whatever the order, duplicates and invalid blocks among them. */
module Convergence {
  import opened Core
  import opened Primitives
  import opened Ledger
  import opened Pow
  import opened BlockTree
  import opened ChainRuns

  /** A finite set of blocks, genesis among them, in which a header hash names one block. It may hold blocks
      that are invalid, do not connect, or do not execute. */
  ghost predicate Universe(p: Params, u: Blocks) {
    |u| < U64 && GenesisHash(p) in u && u[GenesisHash(p)] == p.genesis &&
    forall h <- u :: HeaderHash(p, u[h].header) == h
  }

  ghost predicate From(p: Params, u: Blocks, b: Block) {
    HeaderHash(p, b.header) in u && u[HeaderHash(p, b.header)] == b
  }

  /** A node holding only blocks of the universe. */
  ghost predicate Within(p: Params, u: Blocks, n: Node) { Inv(p, n) && Extends(n.blocks, u) }

  lemma StartWithin(p: Params, u: Blocks)
    requires GenesisOk(p) && Universe(p, u)
    ensures Within(p, u, FreshNode(p))
  {
    StartInv(p);
  }

  lemma ImportStaysWithin(p: Params, u: Blocks, n: Node, b: Block)
    requires Universe(p, u) && Within(p, u, n) && From(p, u, b)
    ensures Within(p, u, Import(p, n, b).0)
  {
    hide Inv, Import;
    InvHasHead(p, n);
    ImportPersistsAndAborts(p, n, b);
    if HeaderHash(p, b.header) in n.blocks {
      KnownIsIgnored(p, n, b);
    } else {
      StrictlySmaller(n.blocks.Keys, u.Keys, HeaderHash(p, b.header));
      ImportKeepsInv(p, n, b);
    }
  }

  lemma {:induction false} RunStaysWithin(p: Params, u: Blocks, n: Node, bs: seq<Block>)
    requires Universe(p, u) && Within(p, u, n) && HasHead(n) && forall b <- bs :: From(p, u, b)
    ensures Within(p, u, Run(p, n, bs)) && Extends(n.blocks, Run(p, n, bs).blocks)
    decreases |bs|
  {
    hide Inv, Import, From, Universe, HasHead;
    if bs != [] {
      ImportStaysWithin(p, u, n, bs[0]);
      ImportPersistsAndAborts(p, n, bs[0]);
      RunStaysWithin(p, u, Import(p, n, bs[0]).0, bs[1..]);
    }
  }

  /** A block that replays in the universe is stored as soon as it arrives after its parent. */
  lemma ReplayableIsStored(p: Params, u: Blocks, n: Node, b: Block)
    requires Universe(p, u) && Within(p, u, n) && HasHead(n) && From(p, u, b)
    requires Replayable(p, u, HeaderHash(p, b.header)) && b.header.parentHash in n.blocks
    requires HeaderHash(p, b.header) != GenesisHash(p)
    ensures HeaderHash(p, b.header) in Import(p, n, b).0.blocks
  {
    hide Follows, Execute, Better, HeaderHash, HeadIsBest, HeadIsLeaf, PathTo, Tree;
    var h := HeaderHash(p, b.header);
    var parent := b.header.parentHash;
    assert u[parent] == n.blocks[parent];
    GrowthKeeps(p, n.blocks, u, parent);
  }

  // ------------------------------------------------------- what a delivery leaves behind

  /** A sequence of blocks of the universe: any order, repetitions and invalid blocks included, any of them missing. */
  ghost predicate Delivery(p: Params, u: Blocks, xs: seq<Block>) { forall b <- xs :: From(p, u, b) }

  /** Some copy of the block arrives after its parent did so, and so on down to genesis. Copies that come too early
      do no harm. */
  ghost predicate InOrder(p: Params, u: Blocks, xs: seq<Block>, h: Hash256)
    decreases |xs|
  {
    h == GenesisHash(p) ||
    (h in u && exists k :: 0 <= k < |xs| && HeaderHash(p, xs[k].header) == h && InOrder(p, u, xs[..k], u[h].header.parentHash))
  }

  lemma InOrderGrows(p: Params, u: Blocks, xs: seq<Block>, more: seq<Block>, h: Hash256)
    requires InOrder(p, u, xs, h)
    ensures InOrder(p, u, xs + more, h)
  {
    hide HeaderHash;
    if h != GenesisHash(p) {
      var k :| 0 <= k < |xs| && HeaderHash(p, xs[k].header) == h && InOrder(p, u, xs[..k], u[h].header.parentHash);
      assert (xs + more)[k] == xs[k] && (xs + more)[..k] == xs[..k];
    }
  }

  lemma InOrderNext(p: Params, u: Blocks, xs: seq<Block>, b: Block)
    requires From(p, u, b) && InOrder(p, u, xs, b.header.parentHash)
    ensures InOrder(p, u, xs + [b], HeaderHash(p, b.header))
  {
    hide HeaderHash;
    assert (xs + [b])[|xs|] == b && (xs + [b])[..|xs|] == xs;
  }

  lemma ParentReplays(p: Params, u: Blocks, h: Hash256)
    requires Replayable(p, u, h) && h != GenesisHash(p)
    ensures Replayable(p, u, u[h].header.parentHash)
  {
  }

  lemma FromMeans(p: Params, u: Blocks, b: Block)
    requires From(p, u, b)
    ensures HeaderHash(p, b.header) in u && u[HeaderHash(p, b.header)] == b
  {
  }

  lemma HoldsGenesis(p: Params, u: Blocks, n: Node)
    requires Within(p, u, n)
    ensures GenesisHash(p) in n.blocks && GenesisHash(p) in u
  {
    hide HeaderHash, Follows, LedgerAt, PathTo, HeadIsBest, HeadIsLeaf;
  }

  lemma {:induction false} InOrderIsStored(p: Params, u: Blocks, xs: seq<Block>, h: Hash256)
    requires GenesisOk(p) && Universe(p, u) && Delivery(p, u, xs) && Replayable(p, u, h) && InOrder(p, u, xs, h)
    ensures h in Run(p, FreshNode(p), xs).blocks
    decreases |xs|
  {
    hide Inv, Import, Run, HeaderHash, LedgerAt, Universe, From, GenesisOk;
    StartWithin(p, u);
    RunStaysWithin(p, u, FreshNode(p), xs);
    HoldsGenesis(p, u, Run(p, FreshNode(p), xs));
    if h != GenesisHash(p) {
      var k :| 0 <= k < |xs| && HeaderHash(p, xs[k].header) == h && InOrder(p, u, xs[..k], u[h].header.parentHash);
      var n := Run(p, FreshNode(p), xs[..k]);
      assert From(p, u, xs[k]);
      FromMeans(p, u, xs[k]);
      ParentReplays(p, u, h);
      InOrderIsStored(p, u, xs[..k], xs[k].header.parentHash);
      RunStaysWithin(p, u, FreshNode(p), xs[..k]);
      ReplayableIsStored(p, u, n, xs[k]);
      ImportStaysWithin(p, u, n, xs[k]);
      RunAppend(p, FreshNode(p), xs[..k], xs[k]);
      RunStaysWithin(p, u, Import(p, n, xs[k]).0, xs[k + 1..]);
      RunConcat(p, FreshNode(p), xs[..k] + [xs[k]], xs[k + 1..]);
      assert xs == xs[..k] + [xs[k]] + xs[k + 1..];
    }
  }

  /** A block enters the tree only above a stored parent. */
  lemma NewBlockHasParent(p: Params, n: Node, b: Block, h: Hash256)
    requires HasHead(n) && h in Import(p, n, b).0.blocks && h !in n.blocks
    ensures h == HeaderHash(p, b.header) && b.header.parentHash in n.blocks
  {
    hide Follows, Execute, LedgerAt, PathTo, Better, HeaderHash;
  }

  lemma {:induction false} StoredIsInOrder(p: Params, u: Blocks, xs: seq<Block>, h: Hash256)
    requires Delivery(p, u, xs) && h in Run(p, FreshNode(p), xs).blocks
    ensures InOrder(p, u, xs, h)
    decreases |xs|
  {
    hide Import, HeaderHash, From;
    if xs != [] {
      var before, b := xs[..|xs| - 1], Last(xs);
      assert xs == before + [b];
      RunAppend(p, FreshNode(p), before, b);
      var n := Run(p, FreshNode(p), before);
      if h in n.blocks {
        StoredIsInOrder(p, u, before, h);
        InOrderGrows(p, u, before, [b], h);
      } else {
        NewBlockHasParent(p, n, b, h);
        StoredIsInOrder(p, u, before, b.header.parentHash);
        InOrderNext(p, u, before, b);
      }
    }
  }

  /** What a node holds after any delivery: of the blocks that replay, exactly those that arrived in order. */
  lemma StoredExactly(p: Params, u: Blocks, xs: seq<Block>, h: Hash256)
    requires GenesisOk(p) && Universe(p, u) && Delivery(p, u, xs) && Replayable(p, u, h)
    ensures h in Run(p, FreshNode(p), xs).blocks <==> InOrder(p, u, xs, h)
  {
    hide Run, Universe, Delivery, InOrder, GenesisOk, Replayable;
    if InOrder(p, u, xs, h) { InOrderIsStored(p, u, xs, h); }
    if h in Run(p, FreshNode(p), xs).blocks { StoredIsInOrder(p, u, xs, h); }
  }

  // ------------------------------------------------------- the head after a delivery

  /** `h` is the best block of the universe that replays. */
  ghost predicate IsBest(p: Params, u: Blocks, h: Hash256) {
    Replayable(p, u, h) && forall x <- u :: Replayable(p, u, x) && x != h ==> Better(p, u[h].header, u[x].header)
  }

  /** `h` is the best of the blocks that replay and arrived in order. */
  ghost predicate IsBestInOrder(p: Params, u: Blocks, xs: seq<Block>, h: Hash256) {
    Replayable(p, u, h) && InOrder(p, u, xs, h) &&
    forall x <- u :: Replayable(p, u, x) && InOrder(p, u, xs, x) && x != h ==> Better(p, u[h].header, u[x].header)
  }

  lemma BestInOrderIsUnique(p: Params, u: Blocks, xs: seq<Block>, g: Hash256, h: Hash256)
    requires IsBestInOrder(p, u, xs, g) && IsBestInOrder(p, u, xs, h)
    ensures g == h
  {
    hide LedgerAt, Better, InOrder;
    if g != h { BetterTransitive(p, u[g].header, u[h].header, u[h].header); }
  }

  /** The best block of all, once it arrived in order, is the best that did. */
  lemma BestOfAll(p: Params, u: Blocks, xs: seq<Block>, h: Hash256)
    requires IsBest(p, u, h) && InOrder(p, u, xs, h)
    ensures IsBestInOrder(p, u, xs, h)
  {
    hide LedgerAt, Better, InOrder;
  }

  /** After any delivery whatever, head, index and ledger are functions of which blocks arrived in order: the best
      replayable one among them, its path and its replay. */
  lemma DeliveryDeterminesNode(p: Params, u: Blocks, xs: seq<Block>)
    requires GenesisOk(p) && Universe(p, u) && Delivery(p, u, xs)
    ensures var n := Run(p, FreshNode(p), xs);
      HeadHash(n) in u && IsBestInOrder(p, u, xs, HeadHash(n)) &&
      n.index == PathTo(p, u, HeadHash(n)) && Some(n.ledger) == LedgerAt(p, u, HeadHash(n))
  {
    hide Import, Run, HeaderHash, LedgerAt, PathTo, Universe, Tree, From, InOrder, Better;
    var n := Run(p, FreshNode(p), xs);
    StartWithin(p, u);
    RunStaysWithin(p, u, FreshNode(p), xs);
    GrowthKeeps(p, n.blocks, u, HeadHash(n));
    StoredExactly(p, u, xs, HeadHash(n));
    forall x <- u | Replayable(p, u, x) && InOrder(p, u, xs, x) && x != HeadHash(n)
      ensures Better(p, u[HeadHash(n)].header, u[x].header)
    {
      StoredExactly(p, u, xs, x);
      GrowthKeeps(p, n.blocks, u, x);
    }
  }

  /** A node ends on the best block of the universe exactly when that block reached it in order. */
  lemma EndsOnBestExactly(p: Params, u: Blocks, xs: seq<Block>, h: Hash256)
    requires GenesisOk(p) && Universe(p, u) && Delivery(p, u, xs) && IsBest(p, u, h)
    ensures HeadHash(Run(p, FreshNode(p), xs)) == h <==> InOrder(p, u, xs, h)
  {
    hide Run, LedgerAt, PathTo, Universe, Delivery, InOrder, IsBest, GenesisOk, Replayable, Better;
    DeliveryDeterminesNode(p, u, xs);
    if InOrder(p, u, xs, h) {
      BestOfAll(p, u, xs, h);
      BestInOrderIsUnique(p, u, xs, h, HeadHash(Run(p, FreshNode(p), xs)));
    }
  }

  /** Two nodes end alike exactly when the best replayable block among those in order is the same for both; then
      index and ledger are the same too. */
  lemma AgreeExactly(p: Params, u: Blocks, xs: seq<Block>, ys: seq<Block>)
    requires GenesisOk(p) && Universe(p, u) && Delivery(p, u, xs) && Delivery(p, u, ys)
    ensures var m, n := Run(p, FreshNode(p), xs), Run(p, FreshNode(p), ys);
      (HeadHash(m) == HeadHash(n) <==> exists h <- u :: IsBestInOrder(p, u, xs, h) && IsBestInOrder(p, u, ys, h)) &&
      (HeadHash(m) == HeadHash(n) ==> m.index == n.index && m.ledger == n.ledger)
  {
    hide Run, LedgerAt, PathTo, Universe, Delivery, IsBestInOrder, GenesisOk;
    var m, n := Run(p, FreshNode(p), xs), Run(p, FreshNode(p), ys);
    DeliveryDeterminesNode(p, u, xs);
    DeliveryDeterminesNode(p, u, ys);
    forall h <- u | IsBestInOrder(p, u, xs, h) && IsBestInOrder(p, u, ys, h) ensures HeadHash(m) == h == HeadHash(n) {
      BestInOrderIsUnique(p, u, xs, h, HeadHash(m));
      BestInOrderIsUnique(p, u, ys, h, HeadHash(n));
    }
  }

  /** Convergence: two nodes on one genesis that each receive the best block in order, whatever else they receive,
      lack or receive too early, end with the same head, canonical index and ledger. */
  lemma Convergence(p: Params, u: Blocks, xs: seq<Block>, ys: seq<Block>, best: Hash256)
    requires GenesisOk(p) && Universe(p, u) && Delivery(p, u, xs) && Delivery(p, u, ys)
    requires IsBest(p, u, best) && InOrder(p, u, xs, best) && InOrder(p, u, ys, best)
    ensures var m, n := Run(p, FreshNode(p), xs), Run(p, FreshNode(p), ys);
      HeadHash(m) == HeadHash(n) == best && m.index == n.index && m.ledger == n.ledger
  {
    hide Run, LedgerAt, PathTo, Universe, Delivery, InOrder, IsBest, IsBestInOrder, GenesisOk;
    EndsOnBestExactly(p, u, xs, best);
    EndsOnBestExactly(p, u, ys, best);
    AgreeExactly(p, u, xs, ys);
  }

  lemma EitherBetter(p: Params, u: Blocks, g: Hash256, h: Hash256)
    requires Universe(p, u) && g in u && h in u && g != h
    ensures Better(p, u[g].header, u[h].header) || Better(p, u[h].header, u[g].header)
  {
    hide HeaderHash, Compare;
    CompareIsNumeric(p, u[g].header, u[h].header);
    CompareTotalPreorder(p, u[g].header, u[h].header, u[g].header);
  }

  ghost predicate IsBestAmong(p: Params, u: Blocks, hs: set<Hash256>, h: Hash256)
    requires hs <= u.Keys && h in hs
  {
    Replayable(p, u, h) && forall x <- hs :: Replayable(p, u, x) && x != h ==> Better(p, u[h].header, u[x].header)
  }

  lemma {:induction false} BestAmong(p: Params, u: Blocks, hs: set<Hash256>, some: Hash256) returns (best: Hash256)
    requires Universe(p, u) && hs <= u.Keys && some in hs && Replayable(p, u, some)
    ensures best in hs && IsBestAmong(p, u, hs, best)
    decreases hs
  {
    hide Universe, LedgerAt, Better;
    best := some;
    if hs != {some} {
      var x :| x in hs && x != some;
      best := BestAmong(p, u, hs - {x}, some);
      if Replayable(p, u, x) {
        EitherBetter(p, u, best, x);
        if !Better(p, u[best].header, u[x].header) {
          forall y <- hs | Replayable(p, u, y) && y != x ensures Better(p, u[x].header, u[y].header) {
            BetterTransitive(p, u[x].header, u[best].header, u[y].header);
            BetterTransitive(p, u[x].header, u[best].header, u[best].header);
          }
          best := x;
        }
      }
    }
  }

  /** Every universe has exactly one best block. */
  lemma BestExists(p: Params, u: Blocks) returns (best: Hash256)
    requires Universe(p, u)
    ensures IsBest(p, u, best) && forall h :: IsBest(p, u, h) ==> h == best
  {
    hide HeaderHash, Better;
    best := BestAmong(p, u, u.Keys, GenesisHash(p));
    forall h | IsBest(p, u, h) ensures h == best {
      if h != best { BetterTransitive(p, u[h].header, u[best].header, u[best].header); }
    }
  }

  // ------------------------------------------------------- parents first

  /** The blocks delivered are exactly those of the universe (genesis is there from the start). */
  ghost predicate Delivers(p: Params, u: Blocks, xs: seq<Block>) {
    Delivery(p, u, xs) && forall h <- u :: h == GenesisHash(p) || ArrivesBefore(p, xs, |xs|, h)
  }

  ghost predicate ArrivesBefore(p: Params, xs: seq<Block>, i: nat, h: Hash256)
    requires i <= |xs|
  {
    exists k :: 0 <= k < i && HeaderHash(p, xs[k].header) == h
  }

  /** A block whose parent is in the universe is delivered after it. */
  ghost predicate ParentsFirst(p: Params, u: Blocks, xs: seq<Block>) {
    forall i :: 0 <= i < |xs| && xs[i].header.parentHash in u && xs[i].header.parentHash != GenesisHash(p) ==>
      ArrivesBefore(p, xs, i, xs[i].header.parentHash)
  }

  lemma {:induction false} ParentsFirstIsInOrder(p: Params, u: Blocks, xs: seq<Block>, i: nat, h: Hash256)
    requires Universe(p, u) && Delivery(p, u, xs) && ParentsFirst(p, u, xs) && i <= |xs|
    requires Replayable(p, u, h) && (h == GenesisHash(p) || ArrivesBefore(p, xs, i, h))
    ensures InOrder(p, u, xs[..i], h)
    decreases i
  {
    hide HeaderHash, LedgerAt, From;
    if h != GenesisHash(p) {
      var k :| 0 <= k < i && HeaderHash(p, xs[k].header) == h;
      assert From(p, u, xs[k]);
      FromMeans(p, u, xs[k]);
      ParentReplays(p, u, h);
      ParentsFirstIsInOrder(p, u, xs, k, xs[k].header.parentHash);
      InOrderNext(p, u, xs[..k], xs[k]);
      assert xs[..i] == xs[..k] + [xs[k]] + xs[k + 1..i];
      InOrderGrows(p, u, xs[..k] + [xs[k]], xs[k + 1..i], h);
    }
  }

  /** In particular: the same finite set of blocks in any two parents-before-children orders. */
  lemma ParentsFirstConverges(p: Params, u: Blocks, xs: seq<Block>, ys: seq<Block>)
    requires GenesisOk(p) && Universe(p, u)
    requires Delivers(p, u, xs) && ParentsFirst(p, u, xs)
    requires Delivers(p, u, ys) && ParentsFirst(p, u, ys)
    ensures var m, n := Run(p, FreshNode(p), xs), Run(p, FreshNode(p), ys);
      HeadHash(m) == HeadHash(n) && IsBest(p, u, HeadHash(m)) && m.index == n.index && m.ledger == n.ledger
  {
    hide Run, HeaderHash, LedgerAt, Universe, Delivery, InOrder, ParentsFirst, GenesisOk, ArrivesBefore;
    var best := BestExists(p, u);
    ParentsFirstIsInOrder(p, u, xs, |xs|, best);
    ParentsFirstIsInOrder(p, u, ys, |ys|, best);
    assert xs[..|xs|] == xs && ys[..|ys|] == ys;
    Convergence(p, u, xs, ys, best);
  }

  // ------------------------------------------------------- a two-block chain

  /** Two blocks on top of genesis, both executing. */
  ghost predicate TwoBlockChain(p: Params, b: Block, c: Block) {
    GenesisOk(p) && b.header.parentHash == GenesisHash(p) && Follows(p, b.header, p.genesis.header) &&
    c.header.parentHash == HeaderHash(p, b.header) && Follows(p, c.header, b.header) &&
    HeaderHash(p, b.header) != GenesisHash(p) &&
    HeaderHash(p, c.header) != GenesisHash(p) && HeaderHash(p, c.header) != HeaderHash(p, b.header) &&
    var l := Execute(p, GenesisLedger(p), b); l.Some? && Execute(p, l.value, c).Some?
  }

  /** Orphans are dropped: a child delivered only before its parent is lost, and the node stays on the parent.
      Delivered once more, as when the request an orphan triggers is answered, it becomes the head. */
  lemma OrphansDiverge(p: Params, b: Block, c: Block)
    requires TwoBlockChain(p, b, c)
    ensures HeadHash(Run(p, FreshNode(p), [b, c])) == HeaderHash(p, c.header)
    ensures HeadHash(Run(p, FreshNode(p), [c, b])) == HeaderHash(p, b.header)
    ensures Run(p, FreshNode(p), [c, b, c]) == Run(p, FreshNode(p), [b, c])
  {
    hide Follows, Execute, HeaderHash, Better, LedgerAt, PathTo;
    var n := FreshNode(p);
    assert [b, c][1..] == [c] && [c, b][1..] == [b] && [b][1..] == [] && [c][1..] == [] && [c, b, c][1..] == [b, c];
    assert Import(p, n, c) == (n, Orphaned);
    var m := Import(p, n, b).0;
    assert HeadHash(m) == HeaderHash(p, b.header);
    assert Run(p, n, [b, c]) == Run(p, m, [c]) == Run(p, Import(p, m, c).0, []);
    assert Run(p, n, [c, b]) == Run(p, n, [b]) == Run(p, m, []);
  }

  lemma StrictlySmaller<T>(small: set<T>, big: set<T>, x: T)
    requires small <= big && x in big && x !in small
    ensures |small| < |big|
  {
    StrictSubset(small + {x}, big);
  }

  lemma {:induction false} StrictSubset<T>(small: set<T>, big: set<T>)
    requires small <= big
    ensures |small| <= |big|
  {
    if small != {} {
      var x :| x in small;
      StrictSubset(small - {x}, big - {x});
    }
  }
}
