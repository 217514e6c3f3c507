/** What a replayed chain says about each account: its balance is the history of its payments, and every payment was
    signed by its sender. */
module History {
  import opened Core
  import opened Primitives
  import opened Ledger
  import opened Nonces

  function Received(ts: seq<Transaction>, a: Address): nat {
    if ts == [] then 0 else (if ts[0].to == a then ts[0].value else 0) + Received(ts[1..], a)
  }

  function Sent(ts: seq<Transaction>, a: Address): nat {
    if ts == [] then 0 else (if ts[0].from == a then ts[0].value else 0) + Sent(ts[1..], a)
  }

  function Rewards(p: Params, blocks: seq<Block>, a: Address): nat {
    if blocks == [] then 0 else (if blocks[0].header.beneficiary == a then p.blockReward else 0) + Rewards(p, blocks[1..], a)
  }

  function BalanceOf(accounts: Accounts, a: Address): u64 { Lookup(accounts, a).balance }

  lemma {:induction false} FlowsSplit(s: seq<Transaction>, t: seq<Transaction>, a: Address)
    ensures Received(s + t, a) == Received(s, a) + Received(t, a) && Sent(s + t, a) == Sent(s, a) + Sent(t, a)
  {
    if s == [] {
      assert s + t == t;
    } else {
      assert (s + t)[1..] == s[1..] + t;
      FlowsSplit(s[1..], t, a);
    }
  }

  lemma TransferBalance(start: Accounts, t: Transaction, a: Address)
    ensures BalanceOf(Transfer(start, t), a) ==
      Wrap(BalanceOf(start, a) + (if t.to == a then t.value else 0) - (if t.from == a then t.value else 0))
  {
    hide Wrap;
    var b := BalanceOf(start, a);
    WrapSmall(b);
    WrapAdd(b - t.value, t.value);
    var middle := Debit(start, t.from, t.value);
    assert BalanceOf(middle, a) == if t.from == a then Wrap(b - t.value) else b;
    assert BalanceOf(Transfer(start, t), a) == if t.to == a then Wrap(BalanceOf(middle, a) + t.value) else BalanceOf(middle, a);
  }

  lemma {:induction false} TransfersBalance(p: Params, start: Accounts, ts: seq<Transaction>, a: Address)
    requires ApplyAll(p, start, ts).Some?
    ensures BalanceOf(ApplyAll(p, start, ts).value, a) == Wrap(BalanceOf(start, a) + Received(ts, a) - Sent(ts, a))
    decreases |ts|
  {
    hide Valid, Transfer, Wrap, Lookup;
    if ts == [] {
      WrapSmall(BalanceOf(start, a));
    } else {
      TransferBalance(start, ts[0], a);
      TransfersBalance(p, Transfer(start, ts[0]), ts[1..], a);
      var step := BalanceOf(start, a) + (if ts[0].to == a then ts[0].value else 0) - (if ts[0].from == a then ts[0].value else 0);
      WrapAdd(step, Received(ts[1..], a) - Sent(ts[1..], a));
    }
  }

  lemma WrapSmall(x: u64)
    ensures Wrap(x) == x
  {
  }

  /** After any replay an account holds what it started with, plus what it received, minus what it sent, plus the
      rewards of its blocks, modulo 2^64. */
  lemma {:induction false} BalancesAreHistory(p: Params, start: Accounts, blocks: seq<Block>, a: Address)
    requires Replay(p, start, blocks).Some?
    ensures var ts := AllTransactions(blocks);
      BalanceOf(Replay(p, start, blocks).value, a) == Wrap(BalanceOf(start, a) + Received(ts, a) - Sent(ts, a) + Rewards(p, blocks, a))
    decreases |blocks|
  {
    hide Wrap, ApplyAll, StateRoot, Received, Sent;
    if blocks == [] {
      WrapSmall(BalanceOf(start, a));
      NoFlows(a);
    } else {
      var ts, rest := blocks[0].transactions, AllTransactions(blocks[1..]);
      var middle, next := ApplyAll(p, start, ts).value, Execute(p, start, blocks[0]).value;
      TransfersBalance(p, start, ts, a);
      var reward: nat := if blocks[0].header.beneficiary == a then p.blockReward else 0;
      assert BalanceOf(next, a) == Wrap(BalanceOf(middle, a) + reward) by { WrapSmall(BalanceOf(middle, a)); }
      WrapAdd(BalanceOf(start, a) + Received(ts, a) - Sent(ts, a), reward);
      BalancesAreHistory(p, next, blocks[1..], a);
      FlowsSplit(ts, rest, a);
      WrapAdd(BalanceOf(start, a) + Received(ts, a) - Sent(ts, a) + reward,
              Received(rest, a) - Sent(rest, a) + Rewards(p, blocks[1..], a));
    }
  }

  lemma NoFlows(a: Address)
    ensures Received([], a) == 0 && Sent([], a) == 0
  {
  }

  ghost predicate Signed(p: Params, t: Transaction) {
    p.authenticate(p.hash(EncodeForSigning(t, p.chainId)), t.signature) == Some(t.from)
  }

  lemma {:induction false} TransfersSigned(p: Params, start: Accounts, ts: seq<Transaction>)
    requires ApplyAll(p, start, ts).Some?
    ensures forall t <- ts :: Signed(p, t)
    decreases |ts|
  {
    hide Transfer;
    if ts != [] {
      TransfersSigned(p, Transfer(start, ts[0]), ts[1..]);
      assert ts == [ts[0]] + ts[1..];
    }
  }

  /** No coin moves without its sender's signature over the transaction and the chain id. */
  lemma {:induction false} EverythingSigned(p: Params, start: Accounts, blocks: seq<Block>)
    requires Replay(p, start, blocks).Some?
    ensures forall t <- AllTransactions(blocks) :: Signed(p, t)
    decreases |blocks|
  {
    hide ApplyAll, StateRoot, Signed;
    if blocks != [] {
      TransfersSigned(p, start, blocks[0].transactions);
      EverythingSigned(p, Execute(p, start, blocks[0]).value, blocks[1..]);
    }
  }
}
