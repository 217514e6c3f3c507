/** Nonces count transactions, so no transaction is executed twice on a path. */
module Nonces {
  import opened Core
  import opened Primitives
  import opened Ledger

  function NonceOf(accounts: Accounts, a: Address): u64 { Lookup(accounts, a).nonce }

  function CountFrom(ts: seq<Transaction>, a: Address): nat {
    if ts == [] then 0 else (if ts[0].from == a then 1 else 0) + CountFrom(ts[1..], a)
  }

  function AllTransactions(blocks: seq<Block>): seq<Transaction> {
    if blocks == [] then [] else blocks[0].transactions + AllTransactions(blocks[1..])
  }

  /** `ts[i]` carries its sender's starting nonce plus the number of the sender's transactions before it. */
  ghost predicate Numbered(start: Accounts, ts: seq<Transaction>) {
    forall i :: 0 <= i < |ts| ==> ts[i].nonce == Wrap(NonceOf(start, ts[i].from) + CountFrom(ts[..i], ts[i].from))
  }

  ghost predicate Advanced(start: Accounts, end: Accounts, ts: seq<Transaction>) {
    forall a :: NonceOf(end, a) == Wrap(NonceOf(start, a) + CountFrom(ts, a))
  }

  lemma {:induction false} CountSplit(s: seq<Transaction>, t: seq<Transaction>, a: Address)
    ensures CountFrom(s + t, a) == CountFrom(s, a) + CountFrom(t, a)
  {
    if s == [] {
      assert s + t == t;
    } else {
      assert (s + t)[1..] == s[1..] + t;
      CountSplit(s[1..], t, a);
    }
  }

  /** The positions of the transactions that `a` sent. */
  ghost function Positions(ts: seq<Transaction>, a: Address): set<nat> { set i: nat | i < |ts| && ts[i].from == a }

  lemma PositionsGrow(front: seq<Transaction>, t: Transaction, a: Address)
    ensures Positions(front + [t], a) == if t.from == a then Positions(front, a) + {|front|} else Positions(front, a)
  {
    var all := front + [t];
    assert forall i :: 0 <= i < |front| ==> all[i] == front[i];
  }

  /** CountFrom counts them. */
  lemma {:induction false} CountIsCardinality(ts: seq<Transaction>, a: Address)
    ensures CountFrom(ts, a) == |Positions(ts, a)|
    decreases |ts|
  {
    if ts == [] {
      assert Positions([], a) == {};
    } else {
      var front, t := ts[..|ts| - 1], ts[|ts| - 1];
      assert ts == front + [t] && [t][1..] == [];
      CountIsCardinality(front, a);
      CountSplit(front, [t], a);
      PositionsGrow(front, t, a);
    }
  }

  lemma {:induction false} CountBound(ts: seq<Transaction>, a: Address)
    ensures CountFrom(ts, a) <= |ts|
  {
    if ts != [] { CountBound(ts[1..], a); }
  }

  /** Two runs in a row. */
  lemma Chain(start: Accounts, middle: Accounts, end: Accounts, s: seq<Transaction>, t: seq<Transaction>)
    requires Numbered(start, s) && Advanced(start, middle, s)
    requires Numbered(middle, t) && Advanced(middle, end, t)
    ensures Numbered(start, s + t) && Advanced(start, end, s + t)
  {
    hide Wrap, CountFrom, Lookup;
    forall a ensures NonceOf(end, a) == Wrap(NonceOf(start, a) + CountFrom(s + t, a)) {
      CountSplit(s, t, a);
      WrapAdd(NonceOf(start, a) + CountFrom(s, a), CountFrom(t, a));
    }
    var u := s + t;
    forall i | 0 <= i < |u|
      ensures u[i].nonce == Wrap(NonceOf(start, u[i].from) + CountFrom(u[..i], u[i].from))
    {
      if i < |s| {
        assert u[..i] == s[..i];
      } else {
        var a, k := u[i].from, i - |s|;
        assert u[..i] == s + t[..k] && u[i] == t[k];
        CountSplit(s, t[..k], a);
        WrapAdd(NonceOf(start, a) + CountFrom(s, a), CountFrom(t[..k], a));
      }
    }
  }

  lemma NoneNumbered(start: Accounts)
    ensures Numbered(start, []) && Advanced(start, start, [])
  {
  }

  lemma FirstNumbered(p: Params, start: Accounts, t: Transaction)
    requires Valid(p, start, t)
    ensures Numbered(start, [t]) && Advanced(start, Transfer(start, t), [t])
  {
    assert [t][..0] == [] && [t][1..] == [];
    assert start[t.from].nonce == t.nonce;
    hide Valid;
    forall a ensures NonceOf(Transfer(start, t), a) == Wrap(NonceOf(start, a) + CountFrom([t], a)) {
      assert CountFrom([t], a) == if t.from == a then 1 else 0;
      TransferNonce(start, t, a);
    }
  }

  lemma TransferNonce(start: Accounts, t: Transaction, a: Address)
    ensures NonceOf(Transfer(start, t), a) == Wrap(NonceOf(start, a) + if t.from == a then 1 else 0)
  {
  }

  lemma {:induction false} ApplyAllNumbers(p: Params, start: Accounts, ts: seq<Transaction>)
    requires ApplyAll(p, start, ts).Some?
    ensures Numbered(start, ts) && Advanced(start, ApplyAll(p, start, ts).value, ts)
    decreases |ts|
  {
    hide Wrap, CountFrom, Numbered, Advanced, Transfer, Valid;
    if ts == [] {
      NoneNumbered(start);
    } else {
      var next := Transfer(start, ts[0]);
      FirstNumbered(p, start, ts[0]);
      ApplyAllNumbers(p, next, ts[1..]);
      Chain(start, next, ApplyAll(p, start, ts).value, [ts[0]], ts[1..]);
      assert ts == [ts[0]] + ts[1..];
    }
  }

  lemma {:induction false} ReplayNumbers(p: Params, start: Accounts, blocks: seq<Block>)
    requires Replay(p, start, blocks).Some?
    ensures Numbered(start, AllTransactions(blocks))
    ensures Advanced(start, Replay(p, start, blocks).value, AllTransactions(blocks))
    decreases |blocks|
  {
    if blocks != [] {
      var ts := blocks[0].transactions;
      ApplyAllNumbers(p, start, ts);
      var middle := ApplyAll(p, start, ts).value;
      var next := Execute(p, start, blocks[0]).value;
      assert Advanced(start, next, ts) by {
        assert forall a :: NonceOf(next, a) == NonceOf(middle, a);
      }
      ReplayNumbers(p, next, blocks[1..]);
      Chain(start, next, Replay(p, start, blocks).value, ts, AllTransactions(blocks[1..]));
    }
  }

  lemma {:induction false} AllocationsHaveNonceZero(accounts: Accounts, allocations: seq<(Address, u64)>)
    requires forall a <- accounts :: accounts[a].nonce == 0
    ensures forall a :: NonceOf(Allocate(accounts, allocations), a) == 0
    decreases |allocations|
  {
    if allocations != [] {
      AllocationsHaveNonceZero(accounts[allocations[0].0 := Account(allocations[0].1, 0)], allocations[1..]);
    }
  }

  /** On a path from genesis with fewer than 2^64 transactions, an account's nonce is the number of its
      transactions, and no two transactions of the path share sender and nonce. */
  lemma NoReplay(p: Params, blocks: seq<Block>)
    requires Replay(p, GenesisLedger(p), blocks).Some?
    requires |AllTransactions(blocks)| < U64
    ensures var ts := AllTransactions(blocks);
      (forall a :: NonceOf(Replay(p, GenesisLedger(p), blocks).value, a) == CountFrom(ts, a)) &&
      (forall i, j :: 0 <= i < j < |ts| && ts[i].from == ts[j].from ==> ts[i].nonce < ts[j].nonce)
  {
    hide CountFrom, Lookup, Allocate, Replay, AllTransactions;
    var ts := AllTransactions(blocks);
    AllocationsHaveNonceZero(map[], p.allocations);
    ReplayNumbers(p, GenesisLedger(p), blocks);
    forall a ensures NonceOf(Replay(p, GenesisLedger(p), blocks).value, a) == CountFrom(ts, a) {
      CountBound(ts, a);
    }
    forall i, j | 0 <= i < j < |ts| && ts[i].from == ts[j].from ensures ts[i].nonce < ts[j].nonce {
      CountBound(ts[..i], ts[i].from);
      CountBound(ts[..j], ts[i].from);
      CountGrows(ts, i, j);
    }
  }

  lemma CountGrows(ts: seq<Transaction>, i: nat, j: nat)
    requires i < j < |ts|
    ensures CountFrom(ts[..i], ts[i].from) < CountFrom(ts[..j], ts[i].from)
  {
    var a := ts[i].from;
    assert ts[..j] == ts[..i] + ts[i..j];
    CountSplit(ts[..i], ts[i..j], a);
    assert ts[i..j][0] == ts[i];
  }
}
