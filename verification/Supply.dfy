/** Conservation of the coin supply along a replay of blocks. */
module Supply {
  import opened Core
  import opened Primitives
  import opened Ledger

  /** The sum of all balances, as an unbounded number. */
  ghost function Total(accounts: Accounts): nat
    decreases |accounts|
  {
    if accounts == map[] then 0 else
      var a :| a in accounts;
      accounts[a].balance + Total(accounts - {a})
  }

  lemma {:induction false} TotalRemove(accounts: Accounts, a: Address)
    requires a in accounts
    ensures Total(accounts) == accounts[a].balance + Total(accounts - {a})
    decreases |accounts|
  {
    var x :| x in accounts && Total(accounts) == accounts[x].balance + Total(accounts - {x});
    if x != a {
      TotalRemove(accounts - {x}, a);
      TotalRemove(accounts - {a}, x);
      assert accounts - {x} - {a} == accounts - {a} - {x};
    }
  }

  lemma TotalUpdate(accounts: Accounts, a: Address, account: Account)
    ensures Total(accounts[a := account]) == Total(accounts) - Lookup(accounts, a).balance + account.balance
    ensures Lookup(accounts, a).balance <= Total(accounts)
  {
    var next := accounts[a := account];
    TotalRemove(next, a);
    if a in accounts {
      TotalRemove(accounts, a);
      assert next - {a} == accounts - {a};
    } else {
      assert next - {a} == accounts;
    }
  }

  /** A credit adds its amount to the total, less 2^64 when the receiving balance wraps. */
  lemma CreditTotal(accounts: Accounts, a: Address, amount: u64)
    ensures var wrapped := Lookup(accounts, a).balance + amount >= U64;
      Total(Credit(accounts, a, amount)) == Total(accounts) + amount - (if wrapped then U64 else 0)
    ensures Total(accounts) + amount < U64 ==> Lookup(accounts, a).balance + amount < U64
  {
    TotalUpdate(accounts, a, Lookup(Credit(accounts, a, amount), a));
  }

  /** A valid transfer, self-transfers and new recipients included, moves coins without changing their sum. */
  lemma TransferTotal(p: Params, accounts: Accounts, t: Transaction)
    requires Valid(p, accounts, t)
    ensures var middle := Debit(accounts, t.from, t.value);
      Total(middle) + t.value == Total(accounts) && var wrapped := Lookup(middle, t.to).balance + t.value >= U64;
      Total(Transfer(accounts, t)) == Total(accounts) - (if wrapped then U64 else 0)
    ensures Total(accounts) < U64 ==> Lookup(Debit(accounts, t.from, t.value), t.to).balance + t.value < U64
  {
    TotalUpdate(accounts, t.from, Debit(accounts, t.from, t.value)[t.from]);
    CreditTotal(Debit(accounts, t.from, t.value), t.to, t.value);
  }

  /** Every addition to a balance made by these transactions stays below 2^64. */
  ghost predicate TransfersExact(p: Params, accounts: Accounts, ts: seq<Transaction>)
    decreases |ts|
  {
    ts == [] ||
    (Lookup(Debit(accounts, ts[0].from, ts[0].value), ts[0].to).balance + ts[0].value < U64 &&
     TransfersExact(p, Transfer(accounts, ts[0]), ts[1..]))
  }

  ghost predicate ReplayExact(p: Params, accounts: Accounts, blocks: seq<Block>)
    decreases |blocks|
  {
    blocks == [] ||
    var middle := ApplyAll(p, accounts, blocks[0].transactions);
    var next := Execute(p, accounts, blocks[0]);
    TransfersExact(p, accounts, blocks[0].transactions) &&
    (middle.Some? ==> Lookup(middle.value, blocks[0].header.beneficiary).balance + p.blockReward < U64) &&
    (next.Some? ==> ReplayExact(p, next.value, blocks[1..]))
  }

  /** Each balance that wraps loses exactly 2^64 coins; none does while the total fits. */
  lemma {:induction false} TransfersConserve(p: Params, accounts: Accounts, ts: seq<Transaction>) returns (wraps: nat)
    requires ApplyAll(p, accounts, ts).Some?
    ensures Total(ApplyAll(p, accounts, ts).value) + wraps * U64 == Total(accounts)
    ensures Total(accounts) < U64 ==> TransfersExact(p, accounts, ts)
    decreases |ts|
  {
    hide Valid, Lookup, Debit, Credit, Total;
    wraps := 0;
    if ts != [] {
      TransferTotal(p, accounts, ts[0]);
      var rest := TransfersConserve(p, Transfer(accounts, ts[0]), ts[1..]);
      wraps := if Total(Transfer(accounts, ts[0])) == Total(accounts) then rest else rest + 1;
    }
  }

  /** Along any replayable path the sum of balances is the starting supply plus one reward a block: modulo 2^64
      always, and exactly, with no balance ever wrapping, when that total fits in 64 bits. */
  lemma {:induction false} SupplyConserved(p: Params, start: Accounts, blocks: seq<Block>) returns (wraps: nat)
    requires Replay(p, start, blocks).Some?
    ensures Total(Replay(p, start, blocks).value) + wraps * U64 == Total(start) + |blocks| * p.blockReward
    ensures Total(start) + |blocks| * p.blockReward < U64 ==>
      Total(Replay(p, start, blocks).value) == Total(start) + |blocks| * p.blockReward && ReplayExact(p, start, blocks)
    decreases |blocks|
  {
    hide Lookup, Total, ApplyAll, StateRoot, TransfersExact;
    wraps := 0;
    if blocks != [] {
      var middle := ApplyAll(p, start, blocks[0].transactions).value;
      var w := TransfersConserve(p, start, blocks[0].transactions);
      CreditTotal(middle, blocks[0].header.beneficiary, p.blockReward);
      var next := Execute(p, start, blocks[0]).value;
      var rest := SupplyConserved(p, next, blocks[1..]);
      RewardStep(|blocks| - 1, p.blockReward);
      wraps := w + rest + if Total(next) == Total(middle) + p.blockReward then 0 else 1;
    }
  }

  lemma RewardStep(n: nat, reward: nat)
    ensures (n + 1) * reward == n * reward + reward && n * reward >= 0
  {
  }
}
