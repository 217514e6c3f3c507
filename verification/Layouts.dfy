/** Where every field stands in the bytes that are hashed, stored and sent, by its offset. */
module Layouts {
  import opened Core
  import opened Numbers
  import opened Primitives
  import opened Ledger
  import opened KvChain
  import CodecInverse
  import Messages

  /** The number in `width` bytes from `at` on, least significant byte first. */
  function NumberAt(e: Bytes, at: nat, width: nat): nat
    requires at + width <= |e|
  {
    FromLE(e[at..at + width])
  }

  /** The bytes from `at` on are `b`. */
  ghost predicate BytesAt(e: Bytes, at: nat, b: Bytes) { at + |b| <= |e| && e[at..at + |b|] == b }

  lemma FieldAt(e: Bytes, at: nat, width: nat, v: nat)
    requires BytesAt(e, at, LE(width, v)) && v < Pow256(width)
    ensures at + width <= |e| && NumberAt(e, at, width) == v
  {
    LEInverse(width, v);
  }

  lemma Widths()
    ensures Pow256(1) == 0x100 && Pow256(2) == 0x1_0000 && Pow256(4) == 0x1_0000_0000 && Pow256(8) == U64
  {
  }

  // ------------------------------------------------------- headers

  lemma RootsLayout(h: BlockHeader)
    ensures var e := EncodeRoots(h);
      |e| == 100 && NumberAt(e, 0, 4) == h.version && e[4..36] == h.parentHash && e[36..68] == h.stateRoot && e[68..100] == h.transactionsRoot
  {
    hide LE, FromLE, Pow256;
    Widths();
    FieldAt(EncodeRoots(h), 0, 4, h.version);
  }

  lemma PositionLayout(h: BlockHeader)
    ensures var e := EncodePosition(h);
      |e| == 36 && NumberAt(e, 0, 8) == h.height && NumberAt(e, 8, 8) == h.timestamp && e[16..36] == h.beneficiary
  {
    hide LE, FromLE, Pow256;
    Widths();
    FieldAt(EncodePosition(h), 0, 8, h.height);
    FieldAt(EncodePosition(h), 8, 8, h.timestamp);
  }

  /** The fixed fields of a header, then its variable ones. */
  lemma HeaderLayout(h: BlockHeader)
    ensures var e := EncodeHeader(h);
      |e| >= 136 && NumberAt(e, 0, 4) == h.version && e[4..36] == h.parentHash && e[36..68] == h.stateRoot &&
      e[68..100] == h.transactionsRoot && NumberAt(e, 100, 8) == h.height && NumberAt(e, 108, 8) == h.timestamp &&
      e[116..136] == h.beneficiary && e[136..] == EncodeTail(h)
  {
    hide LE, FromLE, EncodeRoots, EncodePosition, EncodeTail;
    RootsLayout(h);
    PositionLayout(h);
    var e, a, b := EncodeHeader(h), EncodeRoots(h), EncodePosition(h);
    assert e[..100] == a && e[100..136] == b;
    assert e[0..4] == a[0..4] && e[4..36] == a[4..36] && e[36..68] == a[36..68] && e[68..100] == a[68..100];
    assert e[100..108] == b[0..8] && e[108..116] == b[8..16] && e[116..136] == b[16..36];
  }

  /** Extra data, seal, number of extensions, extensions; each byte string behind its length in eight bytes. */
  lemma TailLayout(h: BlockHeader)
    requires |EncodeTail(h)| < SIZE_LIMIT
    ensures var e, x, s := EncodeTail(h), |h.extraData|, |h.consensusSeal|;
      |e| >= 24 + x + s && NumberAt(e, 0, 8) == x && e[8..8 + x] == h.extraData &&
      NumberAt(e, 8 + x, 8) == s && e[16 + x..16 + x + s] == h.consensusSeal &&
      NumberAt(e, 16 + x + s, 8) == |h.extensions| && e[24 + x + s..] == EncodeExtensions(h.extensions)
  {
    hide LE, FromLE, Pow256, EncodeExtensions;
    Widths();
    CodecInverse.ListSizes(h.extensions, []);
    var e, x, s := EncodeTail(h), |h.extraData|, |h.consensusSeal|;
    var es := EncodeExtensions(h.extensions);
    var third := LE(8, |h.extensions|) + es;
    var second := Prefixed(8, h.consensusSeal) + third;
    assert e == Prefixed(8, h.extraData) + second;
    assert e[8 + x..] == second && second[8 + s..] == third;
    assert e[0..8] == LE(8, x) && e[8 + x..16 + x] == second[0..8] == LE(8, s);
    assert e[16 + x + s..24 + x + s] == third[0..8] == LE(8, |h.extensions|);
    FieldAt(e, 0, 8, x);
    FieldAt(e, 8 + x, 8, s);
    FieldAt(e, 16 + x + s, 8, |h.extensions|);
    assert e[16 + x..16 + x + s] == second[8..8 + s] == h.consensusSeal;
    assert e[24 + x + s..] == third[8..] == es;
  }

  /** Each extension: tag in two bytes, length in eight, payload. */
  lemma ExtensionsLayout(es: seq<Extension>)
    requires |EncodeExtensions(es)| < SIZE_LIMIT
    ensures EncodeExtensions([]) == []
    ensures es != [] ==> var e, x := EncodeExtensions(es), |es[0].payload|;
      |e| >= 10 + x && NumberAt(e, 0, 2) == es[0].tag && NumberAt(e, 2, 8) == x && e[10..10 + x] == es[0].payload &&
      e[10 + x..] == EncodeExtensions(es[1..])
  {
    hide LE, FromLE, Pow256;
    Widths();
    if es != [] {
      var e, x, rest := EncodeExtensions(es), |es[0].payload|, EncodeExtensions(es[1..]);
      assert e == LE(2, es[0].tag) + (Prefixed(8, es[0].payload) + rest);
      assert e[0..2] == LE(2, es[0].tag) && e[2..10] == LE(8, x) && e[10..10 + x] == es[0].payload && e[10 + x..] == rest;
      FieldAt(e, 0, 2, es[0].tag);
      FieldAt(e, 2, 8, x);
    }
  }

  // ------------------------------------------------------- transactions and blocks

  lemma TransferLayout(t: Transaction)
    ensures var e := EncodeTransfer(t);
      |e| == 57 && e[0] == t.kind && e[1..21] == t.from && e[21..41] == t.to && NumberAt(e, 41, 8) == t.value && NumberAt(e, 49, 8) == t.nonce
  {
    var e := EncodeTransfer(t);
    assert LE(1, t.kind) == [t.kind % 256] + LE(0, t.kind / 256);
    hide LE, FromLE, Pow256;
    Widths();
    assert e[41..49] == LE(8, t.value) && e[49..57] == LE(8, t.nonce);
    FieldAt(e, 41, 8, t.value);
    FieldAt(e, 49, 8, t.nonce);
  }

  lemma TransactionLayout(t: Transaction)
    requires |EncodeTransaction(t)| < SIZE_LIMIT
    ensures var e, x, s := EncodeTransaction(t), |t.payload|, |t.signature|;
      |e| == 73 + x + s && e[0] == t.kind && e[1..21] == t.from && e[21..41] == t.to &&
      NumberAt(e, 41, 8) == t.value && NumberAt(e, 49, 8) == t.nonce &&
      NumberAt(e, 57, 8) == x && e[65..65 + x] == t.payload && NumberAt(e, 65 + x, 8) == s && e[73 + x..] == t.signature
  {
    hide LE, FromLE, Pow256, EncodeTransfer;
    Widths();
    TransferLayout(t);
    var e, x, s, a := EncodeTransaction(t), |t.payload|, |t.signature|, EncodeTransfer(t);
    assert e[..57] == a;
    assert e[0] == a[0] && e[1..21] == a[1..21] && e[21..41] == a[21..41] && e[41..49] == a[41..49] && e[49..57] == a[49..57];
    assert e[57..65] == LE(8, x) && e[65 + x..73 + x] == LE(8, s);
    FieldAt(e, 57, 8, x);
    FieldAt(e, 65 + x, 8, s);
  }

  /** What is signed: the transaction without its signature, and the chain id in its place. */
  lemma SigningLayout(t: Transaction, chainId: u64)
    ensures var e, x := EncodeForSigning(t, chainId), |t.payload|;
      |e| == 73 + x && e[..65 + x] == EncodeTransaction(t)[..65 + x] && NumberAt(e, 65 + x, 8) == chainId
  {
    hide LE, FromLE, Pow256, EncodeTransfer;
    Widths();
    assert |EncodeTransfer(t)| == 57 by { TransferLayout(t); }
    var e, x := EncodeForSigning(t, chainId), |t.payload|;
    assert e[65 + x..73 + x] == LE(8, chainId);
    FieldAt(e, 65 + x, 8, chainId);
    assert e[..65 + x] == EncodeTransfer(t) + Prefixed(8, t.payload) == EncodeTransaction(t)[..65 + x];
  }

  /** A block: header, number of transactions in eight bytes, transactions one after the other. */
  lemma BlockLayout(b: Block)
    requires |EncodeBlock(b)| < SIZE_LIMIT
    ensures var e, n := EncodeBlock(b), |EncodeHeader(b.header)|;
      |e| >= n + 8 && e[..n] == EncodeHeader(b.header) && NumberAt(e, n, 8) == |b.transactions| &&
      e[n + 8..] == EncodeTransactions(b.transactions)
    ensures forall t, ts :: EncodeTransactions([t] + ts) == EncodeTransaction(t) + EncodeTransactions(ts)
  {
    hide LE, FromLE, Pow256, EncodeHeader, EncodeTransaction;
    Widths();
    CodecInverse.ListSizes([], b.transactions);
    var e, n := EncodeBlock(b), |EncodeHeader(b.header)|;
    assert e[n..n + 8] == LE(8, |b.transactions|);
    FieldAt(e, n, 8, |b.transactions|);
    forall t, ts ensures EncodeTransactions([t] + ts) == EncodeTransaction(t) + EncodeTransactions(ts) {
      assert ([t] + ts)[1..] == ts;
    }
  }

  // ------------------------------------------------------- the state root

  lemma AccountLayout(a: Address, account: Account)
    ensures var e := EncodeAccount(a, account);
      e[0..20] == a && NumberAt(e, 20, 8) == account.balance && NumberAt(e, 28, 8) == account.nonce
  {
    hide LE, FromLE, Pow256;
    Widths();
    FieldAt(EncodeAccount(a, account), 20, 8, account.balance);
    FieldAt(EncodeAccount(a, account), 28, 8, account.nonce);
  }

  /** The i-th 36 bytes are the record of the account with the i-th smallest address. */
  ghost predicate RecordAt(e: Bytes, accounts: Accounts, order: seq<Address>, i: nat)
    requires i < |order|
  {
    36 * i + 36 <= |e| && order[i] in accounts && e[36 * i..36 * i + 20] == order[i] &&
    NumberAt(e, 36 * i + 20, 8) == accounts[order[i]].balance && NumberAt(e, 36 * i + 28, 8) == accounts[order[i]].nonce
  }

  lemma FirstRecord(accounts: Accounts, a: Address, rest: Bytes, order: seq<Address>)
    requires a in accounts && order != [] && order[0] == a
    ensures RecordAt(EncodeAccount(a, accounts[a]) + rest, accounts, order, 0)
  {
    hide EncodeAccount, FromLE;
    AccountLayout(a, accounts[a]);
    var r := EncodeAccount(a, accounts[a]);
    var e := r + rest;
    assert e[0..20] == r[0..20] && e[20..28] == r[20..28] && e[28..36] == r[28..36];
  }

  lemma LaterRecord(accounts: Accounts, rest: Accounts, r: Bytes, e: Bytes, order: seq<Address>, i: nat)
    requires |r| == 36 && 0 < i < |order| && RecordAt(e, rest, order[1..], i - 1)
    requires forall a <- rest :: a in accounts && accounts[a] == rest[a]
    ensures RecordAt(r + e, accounts, order, i)
  {
    hide FromLE;
    var all, j := r + e, 36 * (i - 1);
    assert order[1..][i - 1] == order[i];
    assert all[j + 36..j + 56] == e[j..j + 20] && all[j + 56..j + 64] == e[j + 20..j + 28] && all[j + 64..j + 72] == e[j + 28..j + 36];
  }

  lemma LeastIsBelow(s: set<Address>, b: Address)
    requires b in s && b != Least(s)
    ensures BE(Least(s)) < BE(b)
  {
    hide BE, LexLess;
    LexIsNumeric(Least(s), b);
  }

  lemma RecordKnown(e: Bytes, accounts: Accounts, order: seq<Address>, i: nat)
    requires i < |order| && RecordAt(e, accounts, order, i)
    ensures order[i] in accounts
  {
  }

  /** One record an account, in this order. */
  ghost predicate Records(e: Bytes, accounts: Accounts, order: seq<Address>) {
    |e| == 36 * |accounts| && |order| == |accounts| && forall i :: 0 <= i < |order| ==> RecordAt(e, accounts, order, i)
  }

  ghost predicate Ascending(order: seq<Address>) { forall i, j :: 0 <= i < j < |order| ==> BE(order[i]) < BE(order[j]) }

  lemma MoreRecords(accounts: Accounts, a: Address, rest: Accounts, e: Bytes, others: seq<Address>)
    requires a in accounts && rest == accounts - {a} && Records(e, rest, others)
    ensures Records(EncodeAccount(a, accounts[a]) + e, accounts, [a] + others)
  {
    hide EncodeAccount, RecordAt;
    var order := [a] + others;
    assert order[1..] == others;
    FirstRecord(accounts, a, e, order);
    forall i | 0 < i < |order| ensures RecordAt(EncodeAccount(a, accounts[a]) + e, accounts, order, i) {
      LaterRecord(accounts, rest, EncodeAccount(a, accounts[a]), e, order, i);
    }
  }

  lemma MoreAscending(accounts: Accounts, e: Bytes, others: seq<Address>)
    requires accounts != map[] && Records(e, accounts - {Least(accounts.Keys)}, others) && Ascending(others)
    ensures Ascending([Least(accounts.Keys)] + others)
  {
    hide RecordAt, BE;
    var a := Least(accounts.Keys);
    forall j | 0 <= j < |others| ensures BE(a) < BE(others[j]) {
      RecordKnown(e, accounts - {a}, others, j);
      LeastIsBelow(accounts.Keys, others[j]);
    }
  }

  /** What the state root hashes: one 36-byte record an account, by ascending address. */
  lemma {:induction false} AccountsLayout(accounts: Accounts) returns (order: seq<Address>)
    ensures Records(EncodeAccounts(accounts), accounts, order) && Ascending(order)
    decreases |accounts|
  {
    hide EncodeAccount;
    order := [];
    if accounts != map[] {
      hide Records, Ascending;
      var a := Least(accounts.Keys);
      var rest := accounts - {a};
      var others := AccountsLayout(rest);
      MoreRecords(accounts, a, rest, EncodeAccounts(rest), others);
      MoreAscending(accounts, EncodeAccounts(rest), others);
      order := [a] + others;
    }
  }

  // ------------------------------------------------------- keys

  function Text(s: string): seq<int> { seq(|s|, (i: nat) requires i < |s| => s[i] as int) }

  /** The keys of the store as text: "H:" and "B:" before a hash, "N:" before a height in eight bytes, "head". */
  lemma KeyText(h: Hash256, height: u64)
    ensures HashKey(HEADER, h)[..2] == Text("H:") && HashKey(BODY, h)[..2] == Text("B:") && HeightKey(height)[..2] == Text("N:")
    ensures HashKey(HEADER, h)[2..] == h && HashKey(BODY, h)[2..] == h && NumberAt(HeightKey(height), 2, 8) == height
    ensures HeadKey() == Text("head")
  {
    hide LE, FromLE;
    assert HeightKey(height)[2..10] == HeightKey(height)[2..];
  }

  // ------------------------------------------------------- messages

  /** The first two bytes of every frame. */
  lemma TopicBytes(m: Messages.Message)
    ensures Messages.Frame(Messages.Send(m))[..2] ==
      match m {
        case Status(_, _, _, _) => [0, 0]
        case Ping(_) => [1, 0]
        case Pong(_) => [2, 0]
        case NewBlock(_) => [0, 1]
        case GetBlocks(_, _) => [1, 1]
        case Blocks(_) => [2, 1]
        case NewTransaction(_) => [0, 2]
      }
  {
    hide Messages.Encode;
    var topic := Messages.Topic(m);
    assert LE(2, topic) == [topic % 256] + LE(1, topic / 256);
    assert LE(1, topic / 256) == [(topic / 256) % 256] + LE(0, topic / 256 / 256);
    assert Messages.Frame(Messages.Send(m))[..2] == LE(2, topic);
  }

  lemma ControlLayout(m: Messages.Message)
    ensures m.Status? ==> var e := Messages.Encode(m);
      |e| == 52 && NumberAt(e, 0, 4) == m.version && NumberAt(e, 4, 8) == m.chainId && NumberAt(e, 12, 8) == m.height && e[20..52] == m.headHash
    ensures m.Ping? ==> |Messages.Encode(m)| == 8 && NumberAt(Messages.Encode(m), 0, 8) == m.pingNonce
    ensures m.Pong? ==> |Messages.Encode(m)| == 8 && NumberAt(Messages.Encode(m), 0, 8) == m.pongNonce
    ensures m.GetBlocks? ==> var e := Messages.Encode(m);
      |e| == 12 && NumberAt(e, 0, 8) == m.fromHeight && NumberAt(e, 8, 4) == m.maxCount
  {
    hide LE, FromLE, Pow256;
    Widths();
    var e := Messages.Encode(m);
    match m {
      case Status(version, chainId, height, headHash) =>
        assert e[0..4] == LE(4, version) && e[4..12] == LE(8, chainId) && e[12..20] == LE(8, height);
        FieldAt(e, 0, 4, version);
        FieldAt(e, 4, 8, chainId);
        FieldAt(e, 12, 8, height);
      case Ping(nonce) => FieldAt(e, 0, 8, nonce);
      case Pong(nonce) => FieldAt(e, 0, 8, nonce);
      case GetBlocks(fromHeight, maxCount) =>
        assert e[0..8] == LE(8, fromHeight) && e[8..12] == LE(4, maxCount);
        FieldAt(e, 0, 8, fromHeight);
        FieldAt(e, 8, 4, maxCount);
      case _ =>
    }
  }

  /** Blocks and transactions travel behind their length in four bytes, a list of blocks behind its count as well. */
  lemma WrappedLayout(m: Messages.Message)
    requires |Messages.Encode(m)| < 0x1_0000_0000
    ensures m.NewBlock? ==> var e := Messages.Encode(m);
      |e| >= 4 && NumberAt(e, 0, 4) == |e| - 4 && e[4..] == EncodeBlock(m.block)
    ensures m.NewTransaction? ==> var e := Messages.Encode(m);
      |e| >= 4 && NumberAt(e, 0, 4) == |e| - 4 && e[4..] == EncodeTransaction(m.transaction)
    ensures m.Blocks? ==> var e := Messages.Encode(m);
      |e| >= 4 && NumberAt(e, 0, 4) == |m.blocks| && e[4..] == Messages.EncodeBlockList(m.blocks)
  {
    hide LE, FromLE, Pow256, EncodeBlock, EncodeTransaction;
    Widths();
    var e := Messages.Encode(m);
    match m {
      case NewBlock(block) => assert e[0..4] == LE(4, |EncodeBlock(block)|); FieldAt(e, 0, 4, |EncodeBlock(block)|);
      case NewTransaction(t) => assert e[0..4] == LE(4, |EncodeTransaction(t)|); FieldAt(e, 0, 4, |EncodeTransaction(t)|);
      case Blocks(blocks) =>
        Messages.BlockListSize(blocks);
        assert e[0..4] == LE(4, |blocks|);
        FieldAt(e, 0, 4, |blocks|);
      case _ =>
    }
  }

  lemma BlockListLayout(bs: seq<Block>)
    requires |Messages.EncodeBlockList(bs)| < 0x1_0000_0000
    ensures Messages.EncodeBlockList([]) == []
    ensures bs != [] ==> var e, n := Messages.EncodeBlockList(bs), |EncodeBlock(bs[0])|;
      |e| >= 4 + n && NumberAt(e, 0, 4) == n && e[4..4 + n] == EncodeBlock(bs[0]) && e[4 + n..] == Messages.EncodeBlockList(bs[1..])
  {
    hide LE, FromLE, Pow256, EncodeBlock;
    Widths();
    if bs != [] {
      var e, n, rest := Messages.EncodeBlockList(bs), |EncodeBlock(bs[0])|, Messages.EncodeBlockList(bs[1..]);
      assert e == LE(4, n) + EncodeBlock(bs[0]) + rest;
      assert e[0..4] == LE(4, n) && e[4..4 + n] == EncodeBlock(bs[0]) && e[4 + n..] == rest;
      FieldAt(e, 0, 4, n);
    }
  }
}
