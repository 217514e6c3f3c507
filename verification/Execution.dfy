/** Execution without its steps: which transactions and blocks execute, and to which ledger. */
module Execution {
  import opened Core
  import opened Primitives
  import opened Ledger
  import opened Nonces
  import opened History

  // ------------------------------------------------------- which transactions execute

  /** The address has an account once these transactions are executed: from the start, or by receiving one. */
  ghost predicate Known(start: Accounts, ts: seq<Transaction>, a: Address) {
    a in start || exists t <- ts :: t.to == a
  }

  /** The i-th transaction can follow those before it: signed by its sender, whose account exists by then, numbered by
      the sender's transactions so far, and at most what the sender was given and did not spend. */
  ghost predicate Covered(p: Params, start: Accounts, ts: seq<Transaction>, i: nat)
    requires i < |ts|
  {
    var before, a := ts[..i], ts[i].from;
    Signed(p, ts[i]) && Known(start, before, a) &&
    ts[i].nonce == (NonceOf(start, a) + CountFrom(before, a)) % 0x1_0000_0000_0000_0000 &&
    ts[i].value <= (BalanceOf(start, a) + Received(before, a) - Sent(before, a)) % 0x1_0000_0000_0000_0000
  }

  lemma {:induction false} ApplyAllAppend(p: Params, start: Accounts, ts: seq<Transaction>, t: Transaction)
    ensures var before := ApplyAll(p, start, ts);
      ApplyAll(p, start, ts + [t]) ==
        if before.None? || !Valid(p, before.value, t) then None else Some(Transfer(before.value, t))
    decreases |ts|
  {
    hide Valid, Transfer;
    if ts == [] {
      assert [] + [t] == [t] && [t][1..] == [];
      assert ApplyAll(p, Transfer(start, t), []) == Some(Transfer(start, t));
    } else {
      assert (ts + [t])[1..] == ts[1..] + [t];
      if Valid(p, start, ts[0]) { ApplyAllAppend(p, Transfer(start, ts[0]), ts[1..], t); }
    }
  }

  lemma TransferKeys(start: Accounts, t: Transaction, a: Address)
    ensures a in Transfer(start, t) <==> a in start || a == t.from || a == t.to
  {
  }

  /** Accounts appear by receiving and never disappear. */
  lemma {:induction false} KeysExactly(p: Params, start: Accounts, ts: seq<Transaction>, a: Address)
    requires ApplyAll(p, start, ts).Some?
    ensures a in ApplyAll(p, start, ts).value <==> Known(start, ts, a)
    decreases |ts|
  {
    hide Transfer;
    if ts != [] {
      TransferKeys(start, ts[0], a);
      KeysExactly(p, Transfer(start, ts[0]), ts[1..], a);
      assert ts == [ts[0]] + ts[1..];
    }
  }

  lemma CoveredAgainst(p: Params, start: Accounts, ts: seq<Transaction>, t: Transaction, l: Accounts)
    requires t.from in l <==> Known(start, ts, t.from)
    requires NonceOf(l, t.from) == Wrap(NonceOf(start, t.from) + CountFrom(ts, t.from))
    requires BalanceOf(l, t.from) == Wrap(BalanceOf(start, t.from) + Received(ts, t.from) - Sent(ts, t.from))
    ensures Valid(p, l, t) <==> Covered(p, start, ts + [t], |ts|)
  {
    hide CountFrom, Received, Sent, Known, EncodeForSigning;
    assert (ts + [t])[..|ts|] == ts;
  }

  lemma CoveredExactly(p: Params, start: Accounts, ts: seq<Transaction>, t: Transaction)
    requires ApplyAll(p, start, ts).Some?
    ensures Valid(p, ApplyAll(p, start, ts).value, t) <==> Covered(p, start, ts + [t], |ts|)
  {
    hide CountFrom, Received, Sent, Known, Valid, Covered, ApplyAll, Lookup, Wrap;
    KeysExactly(p, start, ts, t.from);
    ApplyAllNumbers(p, start, ts);
    TransfersBalance(p, start, ts, t.from);
    CoveredAgainst(p, start, ts, t, ApplyAll(p, start, ts).value);
  }

  lemma CoveredPrefix(p: Params, start: Accounts, ts: seq<Transaction>, t: Transaction, i: nat)
    requires i < |ts|
    ensures Covered(p, start, ts + [t], i) == Covered(p, start, ts, i)
  {
    assert (ts + [t])[..i] == ts[..i];
  }

  /** A list of transactions executes exactly when each is covered by the start and those before it. */
  lemma {:induction false} ExecutesExactly(p: Params, start: Accounts, ts: seq<Transaction>)
    ensures ApplyAll(p, start, ts).Some? <==> forall i :: 0 <= i < |ts| ==> Covered(p, start, ts, i)
    decreases |ts|
  {
    hide Covered, Valid, Transfer;
    if ts != [] {
      var before, t := ts[..|ts| - 1], ts[|ts| - 1];
      assert ts == before + [t];
      ExecutesExactly(p, start, before);
      ApplyAllAppend(p, start, before, t);
      forall i | 0 <= i < |before| ensures Covered(p, start, ts, i) == Covered(p, start, before, i) {
        CoveredPrefix(p, start, before, t, i);
      }
      if ApplyAll(p, start, before).Some? { CoveredExactly(p, start, before, t); }
    }
  }

  // ------------------------------------------------------- the ledger after a block

  /** The ledger after these transactions and the reward, account by account. */
  ghost predicate IsAfter(p: Params, start: Accounts, ts: seq<Transaction>, beneficiary: Address, after: Accounts) {
    forall a: Address ::
      (a in after <==> Known(start, ts, a) || a == beneficiary) && (a in after ==> AccountIs(p, start, ts, beneficiary, a, after[a]))
  }

  ghost predicate AccountIs(p: Params, start: Accounts, ts: seq<Transaction>, beneficiary: Address, a: Address, account: Account) {
    account.nonce == (NonceOf(start, a) + CountFrom(ts, a)) % 0x1_0000_0000_0000_0000 &&
    account.balance ==
      (BalanceOf(start, a) + Received(ts, a) - Sent(ts, a) + (if a == beneficiary then p.blockReward else 0)) % 0x1_0000_0000_0000_0000
  }

  lemma CreditExactly(start: Accounts, b: Address, amount: u64, a: Address)
    ensures a in Credit(start, b, amount) <==> a in start || a == b
    ensures BalanceOf(Credit(start, b, amount), a) == Wrap(BalanceOf(start, a) + if a == b then amount else 0)
    ensures NonceOf(Credit(start, b, amount), a) == NonceOf(start, a)
  {
  }

  lemma ApplyIsAfter(p: Params, start: Accounts, b: Block)
    requires ApplyAll(p, start, b.transactions).Some?
    ensures IsAfter(p, start, b.transactions, b.header.beneficiary, Apply(p, start, b).value)
  {
    hide Credit, ApplyAll, Lookup, CountFrom, Received, Sent, Known, Wrap, AccountIs;
    var ts, who := b.transactions, b.header.beneficiary;
    var l, after := ApplyAll(p, start, ts).value, Apply(p, start, b).value;
    ApplyAllNumbers(p, start, ts);
    forall a: Address
      ensures a in after <==> Known(start, ts, a) || a == who
      ensures a in after ==> AccountIs(p, start, ts, who, a, after[a])
    {
      KeysExactly(p, start, ts, a);
      TransfersBalance(p, start, ts, a);
      CreditExactly(l, who, p.blockReward, a);
      assert NonceOf(l, a) == Wrap(NonceOf(start, a) + CountFrom(ts, a));
      WrapAdd(BalanceOf(start, a) + Received(ts, a) - Sent(ts, a), if a == who then p.blockReward else 0);
      if a in after { AccountIntro(p, start, ts, who, a, after); }
    }
  }

  lemma AccountIntro(p: Params, start: Accounts, ts: seq<Transaction>, beneficiary: Address, a: Address, after: Accounts)
    requires a in after && NonceOf(after, a) == Wrap(NonceOf(start, a) + CountFrom(ts, a))
    requires BalanceOf(after, a) ==
      Wrap(BalanceOf(start, a) + Received(ts, a) - Sent(ts, a) + (if a == beneficiary then p.blockReward else 0))
    ensures AccountIs(p, start, ts, beneficiary, a, after[a])
  {
    hide CountFrom, Received, Sent;
  }

  lemma AfterIsUnique(p: Params, start: Accounts, ts: seq<Transaction>, beneficiary: Address, x: Accounts, y: Accounts)
    requires IsAfter(p, start, ts, beneficiary, x) && IsAfter(p, start, ts, beneficiary, y)
    ensures x == y
  {
    hide Known, CountFrom, Received, Sent, Lookup;
    forall a | a in x ensures a in y && x[a] == y[a] { assert AccountIs(p, start, ts, beneficiary, a, x[a]); }
    forall a | a in y ensures a in x {}
  }

  /** A block executes to `after` exactly when its transactions are covered, `after` is the history of its accounts, and
      the header names its root. */
  lemma BlockExecutesExactly(p: Params, start: Accounts, b: Block, after: Accounts)
    ensures Execute(p, start, b) == Some(after) <==>
      (forall i :: 0 <= i < |b.transactions| ==> Covered(p, start, b.transactions, i)) &&
      IsAfter(p, start, b.transactions, b.header.beneficiary, after) &&
      p.hash(EncodeAccounts(after)) == b.header.stateRoot
  {
    hide Covered, IsAfter, ApplyAll, Credit, EncodeAccounts;
    ExecutesExactly(p, start, b.transactions);
    if ApplyAll(p, start, b.transactions).Some? {
      ApplyIsAfter(p, start, b);
      if IsAfter(p, start, b.transactions, b.header.beneficiary, after) {
        AfterIsUnique(p, start, b.transactions, b.header.beneficiary, after, Apply(p, start, b).value);
      }
    }
  }

  /** Blocks replay to `end` exactly when there is a ledger after each from which the next executes. */
  ghost predicate Trace(p: Params, blocks: seq<Block>, ledgers: seq<Accounts>) {
    |ledgers| == |blocks| + 1 && forall i :: 0 <= i < |blocks| ==> Execute(p, ledgers[i], blocks[i]) == Some(ledgers[i + 1])
  }

  lemma {:induction false} TraceReplays(p: Params, blocks: seq<Block>, ledgers: seq<Accounts>)
    requires Trace(p, blocks, ledgers)
    ensures Replay(p, ledgers[0], blocks) == Some(ledgers[|blocks|])
    decreases |blocks|
  {
    hide Execute;
    if blocks != [] { TraceReplays(p, blocks[1..], ledgers[1..]); }
  }

  lemma {:induction false} ReplayTraces(p: Params, start: Accounts, blocks: seq<Block>) returns (ledgers: seq<Accounts>)
    requires Replay(p, start, blocks).Some?
    ensures Trace(p, blocks, ledgers) && ledgers[0] == start && Replay(p, start, blocks) == Some(ledgers[|blocks|])
    decreases |blocks|
  {
    hide Execute;
    ledgers := [start];
    if blocks != [] {
      var rest := ReplayTraces(p, Execute(p, start, blocks[0]).value, blocks[1..]);
      ledgers := [start] + rest;
      forall i | 0 <= i < |blocks| ensures Execute(p, ledgers[i], blocks[i]) == Some(ledgers[i + 1]) {
        if i > 0 { assert blocks[i] == blocks[1..][i - 1] && ledgers[i] == rest[i - 1] && ledgers[i + 1] == rest[i]; }
      }
    }
  }

  // ------------------------------------------------------- the genesis ledger

  /** The last allocation to an address is the k-th. */
  ghost predicate LastAllocation(allocations: seq<(Address, u64)>, k: nat, a: Address) {
    k < |allocations| && allocations[k].0 == a && forall j :: k < j < |allocations| ==> allocations[j].0 != a
  }

  lemma {:induction false} AllocateExactly(accounts: Accounts, allocations: seq<(Address, u64)>, a: Address)
    ensures a in Allocate(accounts, allocations) <==> a in accounts || exists k :: 0 <= k < |allocations| && allocations[k].0 == a
    ensures forall k: nat :: LastAllocation(allocations, k, a) ==>
      a in Allocate(accounts, allocations) && Allocate(accounts, allocations)[a] == Account(allocations[k].1, 0)
    ensures (forall k :: 0 <= k < |allocations| ==> allocations[k].0 != a) && a in accounts ==>
      Allocate(accounts, allocations)[a] == accounts[a]
    decreases |allocations|
  {
    if allocations != [] {
      var first, rest := allocations[0], allocations[1..];
      var next := accounts[first.0 := Account(first.1, 0)];
      AllocateExactly(next, rest, a);
      forall k: nat | LastAllocation(allocations, k, a)
        ensures Allocate(accounts, allocations)[a] == Account(allocations[k].1, 0)
      {
        if k > 0 {
          assert LastAllocation(rest, k - 1, a);
        } else {
          forall j | 0 <= j < |rest| ensures rest[j].0 != a { assert rest[j] == allocations[j + 1]; }
        }
      }
      if exists k :: 0 <= k < |allocations| && allocations[k].0 == a {
        var k :| 0 <= k < |allocations| && allocations[k].0 == a;
        if k > 0 { assert rest[k - 1].0 == a; }
      }
      assert forall j :: 0 <= j < |rest| ==> rest[j] == allocations[j + 1];
    }
  }

  /** Genesis: each allocated address holds what its last allocation says, with nonce 0, and there is no other. */
  lemma GenesisExactly(p: Params, a: Address)
    ensures a in GenesisLedger(p) <==> exists k :: 0 <= k < |p.allocations| && p.allocations[k].0 == a
    ensures forall k: nat :: LastAllocation(p.allocations, k, a) ==>
      a in GenesisLedger(p) && GenesisLedger(p)[a] == Account(p.allocations[k].1, 0)
  {
    hide Allocate, LastAllocation;
    AllocateExactly(map[], p.allocations, a);
  }
}
