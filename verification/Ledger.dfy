/** The account ledger: the transition a block makes, and the state root. */
module Ledger {
  import opened Core
  import opened Numbers
  import opened Primitives

  datatype Account = Account(balance: u64, nonce: u64)

  /** The source's ordered map from addresses to accounts. */
  type Accounts = map<Address, Account>

  /** What the network's configuration fixes. The hasher and the signature scheme are arbitrary functions. */
  datatype Params = Params(
    hash: Bytes -> Hash256,
    authenticate: (Hash256, Bytes) -> Option<Address>,
    chainId: u64,
    blockReward: u64,
    difficultyBits: nat,
    genesis: Block,
    allocations: seq<(Address, u64)>)

  /** validateAgainst: signed by its sender over its own bytes and the chain id, the next of a known account, covered. */
  predicate Valid(p: Params, accounts: Accounts, t: Transaction) {
    p.authenticate(p.hash(EncodeForSigning(t, p.chainId)), t.signature) == Some(t.from) &&
    t.from in accounts &&
    t.nonce == accounts[t.from].nonce &&
    t.value <= accounts[t.from].balance
  }

  /** `accounts[a]` as the source's map index operator reads it: a missing account is created empty. */
  function Lookup(accounts: Accounts, a: Address): Account {
    if a in accounts then accounts[a] else Account(0, 0)
  }

  function Credit(accounts: Accounts, a: Address, amount: u64): Accounts {
    var account := Lookup(accounts, a);
    accounts[a := account.(balance := Add64(account.balance, amount))]
  }

  function Debit(accounts: Accounts, a: Address, amount: u64): Accounts {
    var account := Lookup(accounts, a);
    accounts[a := Account(Sub64(account.balance, amount), Add64(account.nonce, 1))]
  }

  function Transfer(accounts: Accounts, t: Transaction): Accounts {
    Credit(Debit(accounts, t.from, t.value), t.to, t.value)
  }

  function ApplyAll(p: Params, accounts: Accounts, ts: seq<Transaction>): Option<Accounts>
    decreases |ts|
  {
    if ts == [] then Some(accounts)
    else if !Valid(p, accounts, ts[0]) then None
    else ApplyAll(p, Transfer(accounts, ts[0]), ts[1..])
  }

  function Apply(p: Params, accounts: Accounts, b: Block): Option<Accounts> {
    var next := ApplyAll(p, accounts, b.transactions);
    if next.None? then None else Some(Credit(next.value, b.header.beneficiary, p.blockReward))
  }

  /** The transactions of a block one by one on a copy of the accounts, then the reward. */
  method ApplyBlock(p: Params, accounts: Accounts, b: Block) returns (result: Option<Accounts>)
    ensures result == Apply(p, accounts, b)
  {
    var next, i := accounts, 0;
    while i < |b.transactions|
      invariant i <= |b.transactions|
      invariant ApplyAll(p, accounts, b.transactions) == ApplyAll(p, next, b.transactions[i..])
    {
      var t := b.transactions[i];
      if !Valid(p, next, t) {
        return None;
      }
      assert b.transactions[i..][1..] == b.transactions[i + 1..];
      next := Debit(next, t.from, t.value);
      next := Credit(next, t.to, t.value);
      i := i + 1;
    }
    next := Credit(next, b.header.beneficiary, p.blockReward);
    return Some(next);
  }

  function Allocate(accounts: Accounts, allocations: seq<(Address, u64)>): Accounts
    decreases |allocations|
  {
    if allocations == [] then accounts
    else Allocate(accounts[allocations[0].0 := Account(allocations[0].1, 0)], allocations[1..])
  }

  function GenesisLedger(p: Params): Accounts { Allocate(map[], p.allocations) }

  // ------------------------------------------------------- the state root

  predicate IsLeast(a: Address, s: set<Address>) {
    a in s && forall b <- s :: b == a || LexLess(a, b)
  }

  lemma {:induction false} LeastExists(s: set<Address>)
    requires s != {}
    ensures exists a :: a in s && IsLeast(a, s)
  {
    var x :| x in s;
    if s == {x} {
      assert IsLeast(x, s);
    } else {
      LeastExists(s - {x});
      var y :| y in s - {x} && IsLeast(y, s - {x});
      LexTotal(x, y);
      LexIsNumeric(x, y);
      LexIsNumeric(y, x);
      var a := if LexLess(x, y) then x else y;
      forall b <- s ensures b == a || LexLess(a, b) {
        LexIsNumeric(y, b);
        LexIsNumeric(a, b);
      }
      assert IsLeast(a, s);
    }
  }

  lemma LeastUnique(s: set<Address>, a: Address, b: Address)
    requires IsLeast(a, s) && IsLeast(b, s)
    ensures a == b
  {
    LexIsNumeric(a, b);
    LexIsNumeric(b, a);
  }

  /** The first key of the ordered map. */
  function Least(s: set<Address>): (a: Address)
    requires s != {}
    ensures IsLeast(a, s)
  {
    LeastExists(s);
    assert forall a, b :: IsLeast(a, s) && IsLeast(b, s) ==> a == b by {
      forall a, b | IsLeast(a, s) && IsLeast(b, s) ensures a == b { LeastUnique(s, a, b); }
    }
    var a :| a in s && IsLeast(a, s);
    a
  }

  function EncodeAccount(a: Address, account: Account): (r: Bytes)
    ensures |r| == 36
  {
    a + (LE(8, account.balance) + LE(8, account.nonce))
  }

  /** One 36-byte record for each account, in key order. */
  function EncodeAccounts(accounts: Accounts): Bytes
    decreases |accounts|
  {
    if accounts == map[] then [] else
      var a := Least(accounts.Keys);
      EncodeAccount(a, accounts[a]) + EncodeAccounts(accounts - {a})
  }

  function StateRoot(p: Params, accounts: Accounts): Hash256 { p.hash(EncodeAccounts(accounts)) }

  method ComputeStateRoot(p: Params, accounts: Accounts) returns (root: Hash256)
    ensures root == StateRoot(p, accounts)
  {
    hide LE, IsLeast, LexLess;
    var encoded: Bytes, rest := [], accounts;
    while rest != map[]
      invariant encoded + EncodeAccounts(rest) == EncodeAccounts(accounts)
      decreases |rest|
    {
      var a := Least(rest.Keys);
      ghost var before := encoded;
      encoded := encoded + a;
      encoded := encoded + LE(8, rest[a].balance);
      encoded := encoded + LE(8, rest[a].nonce);
      assert encoded == before + EncodeAccount(a, rest[a]);
      assert encoded + EncodeAccounts(rest - {a}) == before + EncodeAccounts(rest);
      rest := rest - {a};
    }
    assert encoded + [] == encoded;
    return p.hash(encoded);
  }

  lemma AccountRecordInjective(a: Address, x: Account, b: Address, y: Account)
    requires EncodeAccount(a, x) == EncodeAccount(b, y)
    ensures a == b && x == y
  {
    var r, s := EncodeAccount(a, x), EncodeAccount(b, y);
    assert r[..20] == a && s[..20] == b;
    assert r[20..28] == LE(8, x.balance) && s[20..28] == LE(8, y.balance);
    assert r[28..36] == LE(8, x.nonce) && s[28..36] == LE(8, y.nonce);
    assert Pow256(8) == U64;
    LEInverse(8, x.balance);
    LEInverse(8, y.balance);
    LEInverse(8, x.nonce);
    LEInverse(8, y.nonce);
  }

  /** The hashed byte string determines the whole account map. */
  lemma {:induction false} AccountEncodingInjective(m: Accounts, n: Accounts)
    requires EncodeAccounts(m) == EncodeAccounts(n)
    ensures m == n
    decreases |m|
  {
    hide EncodeAccount, IsLeast;
    if m != map[] && n != map[] {
      var a, b := Least(m.Keys), Least(n.Keys);
      var r, s := EncodeAccount(a, m[a]), EncodeAccount(b, n[b]);
      var x, y := EncodeAccounts(m - {a}), EncodeAccounts(n - {b});
      assert (r + x)[..36] == r && (s + y)[..36] == s;
      assert (r + x)[36..] == x && (s + y)[36..] == y;
      AccountRecordInjective(a, m[a], b, n[b]);
      AccountEncodingInjective(m - {a}, n - {a});
      assert m == (m - {a})[a := m[a]] && n == (n - {a})[a := n[a]];
    }
  }

  /** With a hash that is injective on the two encodings, equal roots mean equal ledgers. */
  lemma StateRootInjective(p: Params, m: Accounts, n: Accounts)
    requires p.hash(EncodeAccounts(m)) == p.hash(EncodeAccounts(n)) ==> EncodeAccounts(m) == EncodeAccounts(n)
    ensures StateRoot(p, m) == StateRoot(p, n) <==> m == n
  {
    if StateRoot(p, m) == StateRoot(p, n) {
      AccountEncodingInjective(m, n);
    }
  }

  // ------------------------------------------------------- executing blocks

  /** Executing a block and checking its state root, as both import paths do. */
  function Execute(p: Params, accounts: Accounts, b: Block): Option<Accounts> {
    var next := Apply(p, accounts, b);
    if next.Some? && StateRoot(p, next.value) == b.header.stateRoot then next else None
  }

  function Replay(p: Params, accounts: Accounts, blocks: seq<Block>): Option<Accounts>
    decreases |blocks|
  {
    if blocks == [] then Some(accounts) else
      var next := Execute(p, accounts, blocks[0]);
      if next.None? then None else Replay(p, next.value, blocks[1..])
  }

  lemma {:induction false} ReplayAppend(p: Params, accounts: Accounts, blocks: seq<Block>, b: Block)
    ensures var before := Replay(p, accounts, blocks);
      Replay(p, accounts, blocks + [b]) == if before.None? then None else Execute(p, before.value, b)
    decreases |blocks|
  {
    hide Execute;
    if blocks == [] {
      assert [] + [b] == [b];
      assert [b][1..] == [];
      var after := Execute(p, accounts, b);
      assert Replay(p, accounts, [b]) == if after.None? then None else Replay(p, after.value, []);
    } else {
      assert (blocks + [b])[1..] == blocks[1..] + [b];
      var next := Execute(p, accounts, blocks[0]);
      if next.Some? { ReplayAppend(p, next.value, blocks[1..], b); }
    }
  }
}
