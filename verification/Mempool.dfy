/** The transaction pool: admission, lazy eviction, and what block templates taken from it are worth. */
module Mempool {
  import opened Core
  import opened Primitives
  import opened Ledger
  import opened Supply

  datatype AddOutcome = Added | AlreadyPooled | Rejected

  predicate Twins(s: Transaction, t: Transaction) { s.from == t.from && s.nonce == t.nonce }

  predicate Pooled(pool: seq<Transaction>, t: Transaction) { exists known <- pool :: Twins(known, t) }

  /** No sender and nonce twice. */
  ghost predicate NoTwins(pool: seq<Transaction>) {
    forall i, j :: 0 <= i < j < |pool| ==> !Twins(pool[i], pool[j])
  }

  /** The elements that satisfy `keep`, in order. */
  function Filter<T>(s: seq<T>, keep: T -> bool): (r: seq<T>)
    ensures |r| <= |s|
  {
    if s == [] then [] else (if keep(s[0]) then [s[0]] else []) + Filter(s[1..], keep)
  }

  lemma {:induction false} FilterAppend<T>(s: seq<T>, x: T, keep: T -> bool)
    ensures Filter(s + [x], keep) == Filter(s, keep) + if keep(x) then [x] else []
  {
    if s == [] {
      assert [] + [x] == [x] && [x][1..] == [];
    } else {
      assert (s + [x])[1..] == s[1..] + [x];
      FilterAppend(s[1..], x, keep);
    }
  }

  lemma {:induction false} FilterKeepsExactly<T>(s: seq<T>, keep: T -> bool)
    ensures forall x :: x in Filter(s, keep) <==> x in s && keep(x)
  {
    if s != [] {
      FilterKeepsExactly(s[1..], keep);
      assert s == [s[0]] + s[1..];
    }
  }

  /** The positions kept: exactly those that satisfy `keep`, in their order. */
  lemma {:induction false} FilterPositions<T>(s: seq<T>, keep: T -> bool) returns (kept: seq<nat>)
    ensures |kept| == |Filter(s, keep)|
    ensures forall k :: 0 <= k < |kept| ==> kept[k] < |s| && Filter(s, keep)[k] == s[kept[k]]
    ensures forall j, k :: 0 <= j < k < |kept| ==> kept[j] < kept[k]
    ensures forall i: nat :: i < |s| ==> (i in kept <==> keep(s[i]))
  {
    kept := [];
    var i := 0;
    while i < |s|
      invariant i <= |s| && |kept| == |Filter(s[..i], keep)|
      invariant forall k :: 0 <= k < |kept| ==> kept[k] < i && Filter(s[..i], keep)[k] == s[kept[k]]
      invariant forall j, k :: 0 <= j < k < |kept| ==> kept[j] < kept[k]
      invariant forall j: nat :: j < i ==> (j in kept <==> keep(s[j]))
    {
      assert s[..i + 1] == s[..i] + [s[i]];
      FilterAppend(s[..i], s[i], keep);
      if keep(s[i]) { kept := kept + [i]; }
      i := i + 1;
    }
    assert s[..i] == s;
  }

  lemma {:induction false} FilterKeepsNoTwins(s: seq<Transaction>, keep: Transaction -> bool)
    requires NoTwins(s)
    ensures NoTwins(Filter(s, keep))
  {
    if s != [] {
      var rest := Filter(s[1..], keep);
      FilterKeepsNoTwins(s[1..], keep);
      FilterKeepsExactly(s[1..], keep);
      forall t | t in rest ensures !Twins(s[0], t) {
        var k :| 0 <= k < |s[1..]| && s[1..][k] == t;
        assert s[k + 1] == t;
      }
    }
  }

  class SimpleMempool {
    var transactions: seq<Transaction>

    ghost predicate Valid()
      reads this
    {
      NoTwins(transactions)
    }

    constructor ()
      ensures Valid() && transactions == []
    {
      transactions := [];
    }

    /** `ledger` is the chain manager's current ledger. */
    method Add(p: Params, ledger: Accounts, t: Transaction) returns (outcome: AddOutcome)
      requires Valid()
      modifies this
      ensures Valid()
      ensures outcome != Rejected <==>
        p.authenticate(p.hash(EncodeForSigning(t, p.chainId)), t.signature) == Some(t.from) &&
        t.from in ledger && t.nonce == ledger[t.from].nonce && t.value <= ledger[t.from].balance
      ensures outcome != Rejected ==>
        (outcome == AlreadyPooled <==> (exists known <- old(transactions) :: known.from == t.from && known.nonce == t.nonce))
      ensures transactions == if outcome == Added then old(transactions) + [t] else old(transactions)
    {
      if !Ledger.Valid(p, ledger, t) {
        return Rejected;
      }
      var i := 0;
      while i < |transactions|
        invariant i <= |transactions| && forall known <- transactions[..i] :: !Twins(known, t)
      {
        if Twins(transactions[i], t) {
          assert transactions[i] in transactions;
          return AlreadyPooled;
        }
        i := i + 1;
      }
      assert transactions[..i] == transactions;
      transactions := transactions + [t];
      return Added;
    }

    /** Keeps, in place and in order, what satisfies `keep`. */
    method EraseIfNot(keep: Transaction -> bool)
      requires Valid()
      modifies this
      ensures Valid() && transactions == Filter(old(transactions), keep)
    {
      var kept, i := [], 0;
      while i < |transactions|
        invariant i <= |transactions| && transactions == old(transactions)
        invariant kept == Filter(transactions[..i], keep)
      {
        assert transactions[..i + 1] == transactions[..i] + [transactions[i]];
        FilterAppend(transactions[..i], transactions[i], keep);
        if keep(transactions[i]) {
          kept := kept + [transactions[i]];
        }
        i := i + 1;
      }
      assert transactions[..i] == transactions;
      FilterKeepsNoTwins(transactions, keep);
      transactions := kept;
    }

    method Take(p: Params, ledger: Accounts, maxCount: nat) returns (taken: seq<Transaction>)
      requires Valid()
      modifies this
      ensures Valid() && transactions == Filter(old(transactions), t => Ledger.Valid(p, ledger, t))
      ensures taken == Template(p, ledger, old(transactions), maxCount)
    {
      EraseIfNot(t => Ledger.Valid(p, ledger, t));
      var count := if maxCount < |transactions| then maxCount else |transactions|;
      return transactions[..count];
    }

    method RemoveIncluded(block: Block)
      requires Valid()
      modifies this
      ensures Valid() && transactions == Filter(old(transactions), t => !Pooled(block.transactions, t))
      ensures forall t :: t in transactions <==>
        t in old(transactions) && forall included <- block.transactions :: !(included.from == t.from && included.nonce == t.nonce)
    {
      FilterKeepsExactly(transactions, t => !Pooled(block.transactions, t));
      EraseIfNot(t => !Pooled(block.transactions, t));
    }
  }

  /** What `take` hands to the miner. */
  function Template(p: Params, ledger: Accounts, pool: seq<Transaction>, maxCount: nat): seq<Transaction> {
    var kept := Filter(pool, t => Ledger.Valid(p, ledger, t));
    kept[..if maxCount < |kept| then maxCount else |kept|]
  }

  /** A template is the first `maxCount` transactions of the pool, in its order, that are valid now. */
  lemma TemplateExactly(p: Params, ledger: Accounts, pool: seq<Transaction>, maxCount: nat) returns (chosen: seq<nat>)
    ensures var ts := Template(p, ledger, pool, maxCount);
      |chosen| == |ts| <= maxCount &&
      (forall k :: 0 <= k < |ts| ==> chosen[k] < |pool| && ts[k] == pool[chosen[k]]) &&
      (forall j, k :: 0 <= j < k < |ts| ==> chosen[j] < chosen[k]) &&
      forall i: nat :: i < |pool| ==>
        (i in chosen ==> Ledger.Valid(p, ledger, pool[i])) &&
        (Ledger.Valid(p, ledger, pool[i]) && i !in chosen ==> |ts| == maxCount && forall c <- chosen :: c < i)
  {
    hide Ledger.Valid;
    var keep := t => Ledger.Valid(p, ledger, t);
    var kept := FilterPositions(pool, keep);
    chosen := kept[..|Template(p, ledger, pool, maxCount)|];
    forall i: nat | i < |pool| && Ledger.Valid(p, ledger, pool[i]) && i !in chosen
      ensures |chosen| == maxCount && forall c <- chosen :: c < i
    {
      assert keep(pool[i]) && i in kept;
      var k :| 0 <= k < |kept| && kept[k] == i;
      forall c | 0 <= c < |chosen| ensures kept[c] != i { assert chosen[c] in chosen; }
      assert k >= |chosen|;
    }
    forall i: nat | i < |pool| && i in chosen ensures Ledger.Valid(p, ledger, pool[i]) {
      assert i in kept;
      assert keep(pool[i]);
    }
  }

  // ------------------------------------------------------- templates execute

  ghost predicate DistinctSenders(ts: seq<Transaction>) {
    forall i, j :: 0 <= i < j < |ts| ==> ts[i].from != ts[j].from
  }

  ghost predicate AllValid(p: Params, ledger: Accounts, ts: seq<Transaction>) {
    forall t <- ts :: Ledger.Valid(p, ledger, t)
  }

  lemma NotTwins(pool: seq<Transaction>, i: nat, j: nat)
    requires NoTwins(pool) && i < j < |pool|
    ensures !Twins(pool[i], pool[j])
  {
  }

  lemma SenderNonce(p: Params, ledger: Accounts, t: Transaction)
    requires Ledger.Valid(p, ledger, t)
    ensures t.from in ledger && t.nonce == ledger[t.from].nonce
  {
  }

  /** All surviving transactions carry their sender's current nonce, so one sender has at most one of them. */
  lemma TemplateSenders(p: Params, ledger: Accounts, pool: seq<Transaction>, maxCount: nat)
    requires NoTwins(pool)
    ensures DistinctSenders(Template(p, ledger, pool, maxCount)) && AllValid(p, ledger, Template(p, ledger, pool, maxCount))
  {
    hide Ledger.Valid, Filter, NoTwins;
    var keep := t => Ledger.Valid(p, ledger, t);
    FilterKeepsExactly(pool, keep);
    FilterKeepsNoTwins(pool, keep);
    var ts := Template(p, ledger, pool, maxCount);
    var kept := Filter(pool, keep);
    assert ts <= kept;
    forall t <- ts ensures Ledger.Valid(p, ledger, t) {
      var k :| 0 <= k < |ts| && ts[k] == t;
      assert kept[k] == t;
      assert keep(t);
    }
    forall i, j | 0 <= i < j < |ts| ensures ts[i].from != ts[j].from {
      assert ts[i] in kept && ts[j] in kept;
      assert keep(ts[i]) && keep(ts[j]);
      NotTwins(kept, i, j);
      SenderNonce(p, ledger, ts[i]);
      SenderNonce(p, ledger, ts[j]);
    }
  }

  /** A transfer by somebody else leaves a valid transaction valid while the supply fits in 64 bits. */
  lemma OthersKeepValid(p: Params, ledger: Accounts, s: Transaction, t: Transaction)
    requires Ledger.Valid(p, ledger, s) && Ledger.Valid(p, ledger, t) && s.from != t.from && Total(ledger) < U64
    ensures Ledger.Valid(p, Transfer(ledger, s), t) && Total(Transfer(ledger, s)) < U64
  {
    TransferTotal(p, ledger, s);
    hide Total, EncodeForSigning;
    var middle := Debit(ledger, s.from, s.value);
    assert Lookup(middle, s.to).balance + s.value < U64;
    assert middle[t.from] == ledger[t.from];
  }

  /** Independent valid transactions all execute, one after the other. */
  lemma {:induction false} IndependentApply(p: Params, ledger: Accounts, ts: seq<Transaction>)
    requires DistinctSenders(ts) && AllValid(p, ledger, ts) && Total(ledger) < U64
    ensures ApplyAll(p, ledger, ts).Some?
    decreases |ts|
  {
    hide Ledger.Valid, Transfer, Total;
    if ts != [] {
      var next := Transfer(ledger, ts[0]);
      TransferKeepsTotal(p, ledger, ts[0]);
      forall t <- ts[1..] ensures Ledger.Valid(p, next, t) {
        var k :| 0 <= k < |ts[1..]| && ts[1..][k] == t;
        assert ts[k + 1] == t;
        OthersKeepValid(p, ledger, ts[0], t);
      }
      IndependentApply(p, next, ts[1..]);
    }
  }

  lemma TransferKeepsTotal(p: Params, ledger: Accounts, t: Transaction)
    requires Ledger.Valid(p, ledger, t)
    ensures Total(Transfer(ledger, t)) <= Total(ledger)
  {
    TransferTotal(p, ledger, t);
  }

  /** A template from any pool without twins executes on the ledger it was taken for, for any beneficiary. */
  lemma TemplateExecutes(p: Params, ledger: Accounts, pool: seq<Transaction>, maxCount: nat, b: Block)
    requires NoTwins(pool) && Total(ledger) < U64 && b.transactions == Template(p, ledger, pool, maxCount)
    ensures DistinctSenders(b.transactions) && Apply(p, ledger, b).Some?
  {
    TemplateSenders(p, ledger, pool, maxCount);
    IndependentApply(p, ledger, b.transactions);
  }
}
