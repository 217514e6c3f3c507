# RSCoin node: verified model

A Dafny model of the RSCoin proof-of-work node: the block tree and its canonical index in a key-value store, fork
choice and reorganisation, the account ledger, proof of work, block synchronisation between two peers, the
transaction pool and the miner, the binary codecs and frames, and streaming SHA-256.

The chain is modelled twice. `BlockTree.Import` says declaratively what importing a block does to a node seen as a
tree of blocks, an index of hashes and a ledger; a reorganisation there is "the path of the tip, if all of it
replays". The classes `MemoryStore`, `Blockchain`, `ChainManager`, `SimpleMempool`, `Miner` and `RSCoinProtocol` do
what the C++ classes do (byte keys, encoded values, batches, the fork walk, the replay loops) and are proved to
compute exactly that on every call, and on every sequence of imports (`ImportSequence`), so the theorems about runs hold
of the classes.

| file | contents |
|---|---|
| Core, Numbers | fixed-width integers and bytes, little- and big-endian numbers |
| Primitives, CodecInverse, CodecDefined | block format and reader as functions; decoding is the exact inverse of encoding; where it is defined |
| ByteBuffers, PrimitiveCodec | writer and reader objects and the block codec through them |
| Messages | protocol messages, frames, the byte stream |
| Ledger, Supply, Nonces, History | execution, state root; conservation, nonces, balances, signatures over whole replays |
| Pow | difficulty, header rules, fork order, sealing |
| BlockTree, ChainRuns, Convergence | the abstract node, its invariant, runs, convergence |
| Outcomes | every import's answer and aftermath as an if and only if |
| Execution | which transactions and blocks execute, and to which ledger |
| Layouts, Dispatch | where every field stands in the bytes; which payloads are accepted as which messages |
| Storage, KvChain, Manager, Nodes | store, block store, chain manager; whole nodes restarted and run side by side |
| Sync, Reactions, Protocol | the sync exchange, what each message is answered, and the message handlers |
| Mempool, Mining | pool and miner |
| Sha256Spec, Sha256Laws, Sha256 | FIPS 180-4 and RFC 2104 as functions, what they mean bit by bit and a known answer, and the streaming object |

## Assumptions

- The hash and `authenticate` are arbitrary functions, fields of `Params`. Single-node invariants need nothing about
  them. Convergence and sync speak of a `Universe`, a finite set of blocks in which a header hash names one block
  (a header hash does not fix the body, since `transactionsRoot` is never checked).
- Heights are 64-bit and wrap. A stored height is below the number of stored blocks (`BlockTree.HeightBound`), so the
  theorems ask that fewer than 2^64 blocks are stored and prove that no height computation wraps.
- `Importable` asks that a block's encoding fits in memory (below 2^63 bytes), as the C++ must build it.
- Genesis has height 0 and the state root of the genesis ledger, as `buildGenesis` and the composition root make it.
- The two C++ writer/reader pairs, in `primitives/Codec.cpp` and `protocol/Codec.hpp`, differ in the width of the
  length prefix only and share one pair of Dafny classes.
- Replies of the sync exchange travel as frames under the receiver's `maxMessageBytes`. The 52-byte status and the
  12-byte request (`Messages.ControlMessageSizes`) are taken to be within both nodes' limits, and a peer to have the
  memory for the replies it builds (`Servable`).
- Storage operations succeed, as in `MemoryStore`. Error codes and messages are reduced to `None` or an outcome.

## Where the code does less than its documentation suggests

- A sync reply is bounded by the number of its blocks, not by their bytes, while the receiver's reader gives up a
  connection at the first frame over `maxMessageBytes`. So sync behind a higher peer completes exactly when the replies
  it asks for are within that limit (`Sync.SyncCompletes`); otherwise the serving peer is disconnected, and with the
  shipped values eleven full blocks in a reply are enough (`Sync.FullBlocksAreRefused`, `Sync.OversizedFirstReply`).
- The handshake compares heights only, so two nodes at equal height do not exchange their heads through it
  (`Sync.EqualHeightNotFetched`). `Sync.SyncedExactly` gives the exact condition under which a session ends with a head as
  good as the peer's.
- Orphans are dropped, so nodes fed the same blocks need not agree. `Convergence.EndsOnBestExactly` and
  `Convergence.AgreeExactly` say exactly when they do.
- A head whose timestamp is 2^64 - 1 can have no child: `Mining.MiningLands` shows the mined block is then rejected,
  and imported in every other case.
- The bound check of `readBytes` adds in 64 bits and lets some sizes wrap. `CodecDefined.DefinedExactly` says on which
  inputs a decoder meets one; the model marks the reader undefined there and claims nothing of the result. Everywhere
  else decoding is the exact inverse of encoding.
- A block or transaction received in a message may be followed by any bytes inside its length-prefixed string; they are
  ignored (`Dispatch.DecodesExactly`).
- `BlocksMessage::decode` reserves room for the number of blocks the payload claims before it reads one, so a payload of
  four bytes can ask for 2^32 - 1 elements.
- docs/ARCHITECTURE.md says `extraData` is bounded by `block.maxExtraDataBytes`; no code enforces it, and the model
  has no such bound.

## Model

| member | source | states |
|---|---|---|
| Convergence.Convergence | src/chain/manager/ChainManager.cpp:46-119 | Two nodes on one genesis that each receive the best block in order (some copy of it after its parent, and so down to genesis) end with the same head, canonical index and ledger, whatever else they receive, lack or receive too early. |
| Convergence.ParentsFirstConverges | src/chain/manager/ChainManager.cpp:46-119 | In particular: fed the same finite set of blocks in any two parents-first orders, duplicates and invalid blocks included, both end on the best block of the set. |
| Convergence.EndsOnBestExactly | src/chain/manager/ChainManager.cpp:46-119 | A node ends on the best block of the universe exactly when that block reached it in order. |
| Convergence.AgreeExactly | src/chain/manager/ChainManager.cpp:46-119 | Two nodes fed any blocks at all end on the same head, and then with the same index and ledger, exactly when one block is for both the best of those that replay and arrived in order. |
| Convergence.StoredExactly | src/chain/manager/ChainManager.cpp:46-78 | Of the blocks that replay a node holds, after any delivery, exactly those that arrived in order. |
| Convergence.BestExists | src/consensus/pow/PowEngine.cpp:81-88 | Every universe has exactly one best replayable block. |
| Convergence.DeliveryDeterminesNode | src/chain/manager/ChainManager.cpp:46-119 | After any delivery the head is the unique best of the blocks that replay and arrived in order, the index its path and the ledger its replay. |
| Convergence.ReplayableIsStored | src/chain/manager/ChainManager.cpp:46-89 | A block that replays from genesis is stored as soon as it arrives after its parent, whichever branch of the import it takes. |
| Convergence.OrphansDiverge | src/chain/manager/ChainManager.cpp:52-53 | The failing family at its smallest: a child delivered only before its parent is lost, because orphans are dropped; delivered once more, as after the request that the orphan triggers, it is the head. |
| ChainRuns.HeadIsOptimal | src/chain/manager/ChainManager.cpp:60-119 | After any sequence of imports the head replays from genesis and beats every other stored block that replays. |
| BlockTree.ImportKeepsInv | src/chain/manager/ChainManager.cpp:46-119 | One import of an arbitrary block keeps the whole invariant: attached tree, index equal to the path of the head, ledger equal to the replay, head best and a leaf. |
| ChainRuns.RunKeepsInv | src/chain/manager/ChainManager.cpp:31-119 | Over whole runs the invariant holds, stored blocks stay, and the head only moves to better heads. |
| ChainRuns.ImportPersistsAndAborts | src/chain/manager/ChainManager.cpp:31-89 | Stored blocks are never lost or changed; any outcome but imported and reorged leaves head, index and ledger as they were, a failed reorganisation included. |
| Outcomes.OutcomeExactly | src/chain/manager/ChainManager.cpp:46-89 | The answer to any block as an if and only if over the tree: invalid exactly when it breaks a header rule over its stored parent, or would become head but does not replay; likewise the other five. |
| Outcomes.AftermathExactly | src/chain/manager/ChainManager.cpp:60-89 | Exactly when the block is stored and exactly when it is head afterwards: a side block is kept whether or not it executes, a child of the head only when it does. |
| Outcomes.FollowsExactly | src/consensus/pow/PowEngine.cpp:43-57 | The header rules as numbers, both ways: next height, later timestamp, eight-byte seal, hash below 2^(256-d). |
| Outcomes.BetterExactly | src/consensus/pow/PowEngine.cpp:81-88 | A header beats another exactly when it is higher, or as high with the smaller hash integer. |
| ChainRuns.HeadAdvances | src/chain/manager/ChainManager.cpp:60-89 | A head that moves moves to a header strictly better under compare. |
| ChainRuns.HeadNeverRevisited | src/chain/manager/ChainManager.cpp:60-119 | A head that was left is never the head again. |
| ChainRuns.ReorgReplaces | src/chain/manager/ChainManager.cpp:78-118 | Every reorganisation takes the old head off the canonical index. |
| ChainRuns.ImportOnce | src/chain/manager/ChainManager.cpp:34-50 | A header hash that was imported or reorged to is already known ever after, so subscribers hear of it at most once. |
| ChainRuns.LedgerRefinesReplay | src/chain/manager/ChainManager.cpp:60-75 | In every reached state the incremental ledger is the replay of the canonical blocks from the genesis ledger and has the state root of the head. |
| Nodes.Restart | src/node/Factory.cpp:43-57 | A node started on an empty store, fed any blocks and started again on what it left is the node the run describes. |
| Nodes.RunBoth | src/chain/manager/ChainManager.cpp:11-89 | Two nodes on their own stores that receive the best block in order end with the same head, ledger, head entry and height index. |
| ChainRuns.StoredBlocksAreWorked | src/consensus/pow/PowEngine.cpp:43-57 | Every stored block but genesis meets the difficulty bound and follows its parent in height, time and seal size. |
| ChainRuns.ReachedLedger | src/state/account/AccountStateMachine.cpp:37-53 | In every reached state the supply is the genesis supply plus one reward a height, and nonces count canonical transactions, none sharing sender and nonce. |
| BlockTree.HeightBound | src/consensus/pow/PowEngine.cpp:47 | A stored height is below the number of stored blocks, so `height + 1` cannot wrap while fewer than 2^64 blocks are stored. |
| BlockTree.GrowthKeeps | src/chain/kv/Blockchain.cpp:153-160 | Storing more blocks never changes the path or the replayed ledger of a stored block. |
| BlockTree.PathIsLinked | src/chain/kv/Blockchain.cpp:136-185 | The path of a stored block has one block a height from genesis, each linked to the one before by parent hash. |
| Manager.ChainManager.ImportBlock | src/chain/manager/ChainManager.cpp:31-44 | On the byte store, an import computes the abstract import exactly, in state and outcome, and notifies subscribers exactly when it imported or reorged. |
| Manager.ChainManager.ImportSequence | src/chain/manager/ChainManager.cpp:31-89 | Any sequence of imports on the byte store computes the abstract run, so the run theorems hold of the node. |
| Manager.ChainManager.ImportLocked | src/chain/manager/ChainManager.cpp:46-89 | All branches of the locked import; none of its error returns is reachable from a valid state. |
| Manager.ChainManager.ReorgLocked | src/chain/manager/ChainManager.cpp:91-119 | The tip becomes head exactly when its whole path replays; otherwise nothing changes. |
| Manager.ChainManager.WalkToTrunk | src/chain/manager/ChainManager.cpp:92-104 | The fork walk terminates, never misses a parent, and returns a parent-linked branch off the canonical index that joins it just below its first block. |
| Manager.WalkStep | src/chain/manager/ChainManager.cpp:92-103 | A block that is off the index and not attached to it has height at least 1 and a stored parent that is off the index too. |
| Manager.HighestCommonAncestor | src/chain/manager/ChainManager.cpp:91-104 | The path of the tip is the index below the fork followed by the branch, and shares exactly the blocks below the fork with the old index. |
| Manager.ChainManager.ReplayBranch | src/chain/manager/ChainManager.cpp:121-147 | Replaying canonical heights and then the branch gives the ledger the tree defines for the tip. |
| Manager.ChainManager.Create | src/chain/manager/ChainManager.cpp:11-19 | Creating the manager on an opened valid chain succeeds and restores the ledger. |
| Manager.Boot | src/node/Factory.cpp:43-57 | Opening a store and creating the manager gives the fresh node on an empty store and the very same node on a store a valid node left. |
| Manager.BranchReplay | src/chain/manager/ChainManager.cpp:121-147 | The forward replay of trunk and branch agrees at every block with the ledger defined by recursion over parents. |
| KvChain.Blockchain.AppendBlock | src/chain/kv/Blockchain.cpp:136-151 | Appending succeeds exactly for a child of the head one higher, then writes its four entries and grows index and tree by it, which stay exact unless another header was stored under its hash; otherwise nothing changes. |
| KvChain.Blockchain.StoreBlock | src/chain/kv/Blockchain.cpp:153-160 | Header and body of any block, already stored or not, are written; index, heights and head stay, and the store stays exact unless another header was stored under its hash. |
| KvChain.Blockchain.AdoptBranch | src/chain/kv/Blockchain.cpp:162-185 | Adopting a forking branch, its tip higher or lower than the head, makes the index exactly the trunk plus the branch, stale heights erased. |
| KvChain.Blockchain.Open | src/chain/kv/Blockchain.cpp:48-75 | A store without a head entry is given genesis; any other is left as it is and opened exactly when its head entry is a hash with a readable header; one that represents a chain is read back to the same tree, index and head. |
| KvChain.Blockchain.WriteBlock | src/chain/kv/Blockchain.cpp:187-194 | The four entries of a canonical block and nothing else change. |
| KvChain.Blockchain.HeaderByHash | src/chain/kv/Blockchain.cpp:92-99 | Lookup by hash finds exactly the stored headers, decoded back. |
| KvChain.Blockchain.HeaderByHeight | src/chain/kv/Blockchain.cpp:101-112 | Lookup by height finds exactly the canonical headers. |
| KvChain.Blockchain.BlockByHeight | src/chain/kv/Blockchain.cpp:114-125 | Lookup by height finds exactly the canonical blocks. |
| KvChain.Blockchain.BlockByHash | src/chain/kv/Blockchain.cpp:127-134 | Lookup by hash finds exactly the stored blocks, decoded back. |
| KvChain.KeysAreDisjoint | src/chain/kv/Blockchain.cpp:10-32 | No two entries of the chain share a key: headers, bodies, heights and head never collide. |
| Layouts.KeyText | src/chain/kv/Blockchain.cpp:10-32 | The keys as text: H:, B: and N: before hash or little-endian height, and head. |
| KvChain.SwitchEntries | src/chain/kv/Blockchain.cpp:162-185 | Rewriting height slots and head, all else equal, represents the new index over the same tree. |
| KvChain.ForkIsLinked | src/chain/kv/Blockchain.cpp:162-185 | The trunk below a fork followed by the branch is again a chain from genesis with one block a height. |
| Storage.MemoryStore.Apply | src/storage/memory/MemoryStore.cpp:29-42 | A batch acts on the entries operation by operation in order. |
| Storage.MemoryStore.Get | src/storage/memory/MemoryStore.cpp:9-15 | Exactly the stored value of a key, or nothing. |
| Storage.BatchExactly | src/storage/memory/MemoryStore.cpp:29-42 | What a batch leaves under a key is what its last operation on the key says, or what was there. |
| Sync.SyncCompletes | src/protocol/rscoin/RSCoinProtocol.cpp:76-183 | Behind a peer with a replayable chain on the same genesis, whatever is imported meanwhile, the exchange terminates and never drops the peer. When every reply it asks for is within the message limit it stores the whole chain and ends with a head at least as good; when one is not it ends in a disconnect. |
| Sync.SyncEndsExactly | src/protocol/rscoin/RSCoinProtocol.cpp:142-183 | From any request on the exchange ends idle, with every peer block up to the announced height stored, when all replies it asks for are within the limit, and in a disconnect otherwise. |
| Sync.SyncCompletesWhenRunsFit | src/protocol/rscoin/RSCoinProtocol.cpp:127-140 | A check on the peer alone: when every run of up to 64 of its canonical blocks encodes within the limit, sync completes from every node behind it. |
| Sync.SyncedExactly | src/protocol/rscoin/RSCoinProtocol.cpp:76-97 | Without other imports a session ends with a head at least as good as the peer's exactly when the peer was higher and all replies, listed in advance by `Plan`, are within the limit, or its head was not better to begin with. |
| Sync.QuietRequests | src/protocol/rscoin/RSCoinProtocol.cpp:162-182 | The heights asked for in closed form: down by 64 to where the chains connect, then up by 64 to the announced height. |
| Sync.ConnectedRequests | src/protocol/rscoin/RSCoinProtocol.cpp:175-182 | Once the chains connect the requests go up by 64 whatever is imported meanwhile. |
| Sync.OversizedFirstReply | src/network/tcp/TcpNetwork.cpp:147-158 | A first reply over the limit: nothing of the peer is stored and, with no blocks from elsewhere, every session with it ends the same way. |
| Sync.FullBlocksAreRefused | config/node.json:7 | With the shipped limit and 5,000 transactions a block, a reply of eleven full blocks is over the limit. |
| Sync.ArrivalExactly | src/network/tcp/TcpNetwork.cpp:141-159 | A reply framed by the peer is read and decoded back exactly when it is within the limit; any other ends the connection. |
| Sync.RoundExactly | src/network/tcp/TcpNetwork.cpp:141-159 | A round over frames is the handler's answer to the reply when the reply is within the limit, and a disconnect otherwise. |
| Sync.EqualHeightNotFetched | src/protocol/rscoin/RSCoinProtocol.cpp:84-96 | At equal heights a better peer head is not requested and stays unknown. |
| Sync.NextRequest | src/protocol/rscoin/RSCoinProtocol.cpp:142-183 | Each answered request stays on the peer's chain and either shortens the walk back or, once connected, moves the request up; it never drops the peer. |
| Sync.AnsweredFacts | src/protocol/rscoin/RSCoinProtocol.cpp:127-183 | A connecting reply is taken over completely and the next height requested; a non-connecting one changes nothing and the request goes back. |
| Sync.ForeignPeerIsDropped | src/protocol/rscoin/RSCoinProtocol.cpp:162-172 | A peer on another genesis is walked back to height 1 and dropped, or disconnected on the way exactly when one of those replies is over the limit, with nothing stored. |
| Sync.ServeIsSegment | src/protocol/rscoin/RSCoinProtocol.cpp:127-140 | The blocks served are the consecutive canonical blocks from the requested height, as many as asked, capped and available; none from beyond the head. |
| Reactions.BlocksAnsweredExactly | src/protocol/rscoin/RSCoinProtocol.cpp:142-183 | Every answer to a list of blocks as an if and only if over the imports one by one: dropped exactly when one is invalid or all are orphaned from height 1 on, further back, further on or nothing otherwise, with the heights as numbers. |
| Reactions.BlocksLeaveExactly | src/protocol/rscoin/RSCoinProtocol.cpp:146-159 | What the list leaves behind: the imports up to and with the first invalid block, or all of them. |
| Reactions.PushAnsweredExactly | src/protocol/rscoin/RSCoinProtocol.cpp:202-227 | A pushed block drops its peer exactly when invalid and asks for the blocks above the head exactly when orphaned. |
| Reactions.StatusAnsweredExactly | src/protocol/rscoin/RSCoinProtocol.cpp:76-97 | Blocks are asked for, from just above the head, exactly when the peer announces more height. |
| Reactions.ReplyExactly | src/protocol/rscoin/RSCoinProtocol.cpp:127-140 | A reply holds the canonical blocks from the requested height, as many as asked, at most 64, no more than there are. |
| Protocol.RSCoinProtocol.HandleStatus | src/protocol/rscoin/RSCoinProtocol.cpp:76-97 | Incompatible peers are dropped; a known compatible one becomes ready and is asked for blocks exactly when it announces more height. |
| Protocol.RSCoinProtocol.HandleGetBlocks | src/protocol/rscoin/RSCoinProtocol.cpp:127-140 | The reply carries exactly the served segment. |
| Protocol.RSCoinProtocol.CollectBlocks | src/protocol/rscoin/RSCoinProtocol.cpp:132-137 | The loop collects exactly that segment. |
| Protocol.RSCoinProtocol.HandleBlocks | src/protocol/rscoin/RSCoinProtocol.cpp:142-183 | Imports, drop, walk back and next request exactly as the reaction function says. |
| Protocol.RSCoinProtocol.ImportBlocks | src/protocol/rscoin/RSCoinProtocol.cpp:146-159 | The import loop stops at the first invalid block and otherwise counts the blocks not orphaned. |
| Protocol.RSCoinProtocol.HandleNewBlock | src/protocol/rscoin/RSCoinProtocol.cpp:110-125 | A pushed block from a ready peer is noted as seen, raises its height and is imported; orphaned or invalid ones are answered by a request or a drop. |
| Protocol.RSCoinProtocol.OnPeerConnected | src/protocol/rscoin/RSCoinProtocol.cpp:31-40 | A new session is announced our height and head. |
| Mining.MiningLands | src/mining/local/Miner.cpp:74-105 | From any pool without twins and with the supply below 2^64 the draft executes; a solved block is imported exactly when the head's timestamp is not the last 64-bit value. |
| Mining.Miner.MineOne | src/mining/local/Miner.cpp:74-105 | One mining step never fails to execute its draft and submits exactly the sealed block, imported after whatever other threads imported during the search. |
| Mining.MinedAfterOthers | src/mining/local/Miner.cpp:96-104 | A block mined on a head and submitted after other imports is stored, never invalid or orphaned, and imported exactly when the head is still the same. |
| Mining.MinedExactly | src/mining/local/Miner.cpp:77-92 | The mined block field by field: one above the head, rewarding the beneficiary, its transactions covered, its root that of the ledger they and the reward lead to. |
| Mining.ChildOfHeadIsNew | src/mining/local/Miner.cpp:78-80 | No stored block is a child of the head, so a mined header is new. |
| Mining.PreparedFollows | src/consensus/pow/PowEngine.cpp:59-65 | What `prepare` makes of a draft one above the head, rooted, sealed and solved, follows the head exactly when the head's timestamp can be exceeded. |
| Mempool.TemplateExecutes | src/mempool/simple/SimpleMempool.cpp:33-46 | A template has pairwise distinct senders and executes on its ledger for any beneficiary. |
| Mempool.IndependentApply | src/state/account/AccountStateMachine.cpp:37-48 | Valid transactions of distinct senders all execute in sequence while the supply fits in 64 bits. |
| Mempool.SimpleMempool.Add | src/mempool/simple/SimpleMempool.cpp:11-31 | Admission: invalid rejected, same sender and nonce already known, else appended; the pool keeps no twins. |
| Mempool.SimpleMempool.Take | src/mempool/simple/SimpleMempool.cpp:33-46 | Evicts exactly the transactions no longer valid, in order, and returns the first ones left. |
| Mempool.SimpleMempool.RemoveIncluded | src/mempool/simple/SimpleMempool.cpp:48-55 | Removes exactly the transactions that share sender and nonce with one in the block. |
| Mempool.FilterKeepsExactly | src/mempool/simple/SimpleMempool.cpp:37-42 | The eviction keeps exactly the elements that satisfy the condition. |
| Mempool.FilterPositions | src/mempool/simple/SimpleMempool.cpp:37-42 | The positions kept, in their order, are exactly those that satisfy the condition. |
| Mempool.TemplateExactly | src/mempool/simple/SimpleMempool.cpp:33-46 | A template is the first transactions of the pool, in its order, that are valid now, as many as asked for. |
| Supply.SupplyConserved | src/state/account/AccountStateMachine.cpp:37-53 | Along any replay the sum of balances is the start plus one reward a block modulo 2^64, and exactly, no balance wrapping, when that fits in 64 bits. |
| Supply.TransferTotal | src/state/account/AccountStateMachine.cpp:44-47 | A valid transfer, to oneself or to a new account included, keeps the sum of balances unless the recipient wraps. |
| Nonces.NoReplay | src/state/account/AccountStateMachine.cpp:22-24 | On a path from genesis with fewer than 2^64 transactions nonces count transactions and no two share sender and nonce. |
| Nonces.ReplayNumbers | src/state/account/AccountStateMachine.cpp:15-48 | Along any replay each transaction carries its sender's starting nonce plus the number of earlier ones, across block boundaries. |
| History.BalancesAreHistory | src/state/account/AccountStateMachine.cpp:40-50 | Each balance after a replay is the start plus received minus sent plus rewards, modulo 2^64. |
| History.EverythingSigned | src/state/account/AccountStateMachine.cpp:15-20 | Every executed transaction was signed by its sender over its own bytes and the chain id. |
| Execution.ExecutesExactly | src/state/account/AccountStateMachine.cpp:15-48 | A list of transactions executes exactly when each is signed by a sender who has an account by then, carries the sender's count so far, and is at most what the sender was given and did not spend. |
| Execution.BlockExecutesExactly | src/state/account/AccountStateMachine.cpp:37-56 | A block executes to a ledger exactly when its transactions are covered, the ledger holds exactly the accounts, nonces and balances of that history and the reward, and the header names its root. |
| Execution.KeysExactly | src/state/account/AccountStateMachine.cpp:40-47 | Accounts appear exactly by receiving, and never disappear. |
| Execution.GenesisExactly | src/state/account/AccountStateMachine.cpp:9-13 | Each allocated address holds its last allocation with nonce 0, and no other address exists. |
| Ledger.ApplyBlock | src/state/account/AccountStateMachine.cpp:37-53 | The copy-and-loop execution computes the block transition. |
| Ledger.ComputeStateRoot | src/state/account/AccountStateMachine.cpp:62-73 | The loop over the ordered map hashes one 36-byte record an account in address order. |
| Ledger.AccountEncodingInjective | src/state/account/AccountStateMachine.cpp:62-73 | The hashed byte string determines the account map. |
| Ledger.StateRootInjective | src/state/account/AccountStateMachine.cpp:62-73 | With a hash injective on the two encodings, roots are equal exactly for equal ledgers. |
| Ledger.LeastExists | src/state/account/AccountStateMachine.cpp:65 | The ordered map has a first key under the byte order of addresses. |
| Layouts.AccountsLayout | src/state/account/AccountStateMachine.cpp:62-73 | The hashed bytes are one 36-byte record an account by ascending address: address, balance and nonce, little-endian. |
| Pow.DifficultyIsNumericBound | src/consensus/pow/PowEngine.cpp:22-35 | The leading-zero-bit check is the bound hash < 2^(256-d) on the big-endian hash integer. |
| Pow.LeadingZerosNumeric | src/consensus/pow/PowEngine.cpp:22-35 | For byte strings of any length, d leading zero bits mean a number below 2^(bits-d). |
| Pow.CheckDifficulty | src/consensus/pow/PowEngine.cpp:22-35 | The byte and mask loops compute that check. |
| Pow.CompareIsNumeric | src/consensus/pow/PowEngine.cpp:81-88 | The fork order is height, then the smaller hash as an integer; ties only at equal height and hash. |
| Pow.CompareTotalPreorder | src/consensus/pow/PowEngine.cpp:81-88 | The order is reflexive, antisymmetric in direction and transitive. |
| Pow.Seal | src/consensus/pow/PowEngine.cpp:67-79 | The seal found spells, little-endian, the least number that solves the draft, and nothing else changes; exhausted exactly when no eight-byte seal solves it and no stop was requested; cancelled exactly when stated. |
| Pow.PrepareExactly | src/consensus/pow/PowEngine.cpp:59-65 | The least timestamp not before the draft's and after the parent's, a zero seal, all else untouched. |
| Numbers.LexIsNumeric | src/consensus/pow/PowEngine.cpp:87 | Lexicographic order on equally long hashes is big-endian numeric order. |
| CodecInverse.BlockDecodesExactly | src/primitives/Codec.cpp:197-236 | An input that begins with the encoding of a block decodes to it, exactly those bytes consumed; where decoding is defined no other input does. |
| CodecInverse.HeaderDecodesExactly | src/primitives/Codec.cpp:103-145 | The same for headers. |
| CodecInverse.TransactionDecodesExactly | src/primitives/Codec.cpp:147-170 | The same for transactions. |
| CodecInverse.EncodingsArePrefixFree | src/primitives/Codec.cpp:197-204 | Block encodings are injective and prefix-free. |
| CodecInverse.HeaderEncodingInjective | src/primitives/Codec.cpp:76-91 | Different headers have different encodings. |
| CodecInverse.DecodedCountsAreBounded | src/primitives/Codec.cpp:216-236 | Decoded lists are bounded by the bytes consumed, whatever count the input claims. |
| CodecInverse.ReadBytesUndefinedExactly | src/primitives/Codec.cpp:47-56 | The 64-bit bound check accepts a range that ends before it starts exactly when the true end is at or beyond 2^64 and wraps into the data; 32-bit prefixes never do. |
| CodecDefined.DefinedExactly | src/primitives/Codec.cpp:47-56 | Decoding a block, header or transaction is defined exactly unless the format leads to a size field whose bytes would end at or beyond 2^64, also one read just behind a size that was rejected. |
| CodecDefined.SmallNumbersAreDefined | src/primitives/Codec.cpp:47-56 | A check on the bytes alone: with no eight bytes in a row reading as 2^64 less the length or more, every decoder is defined. |
| CodecDefined.WrappedSizeExample | src/primitives/Codec.cpp:129-133 | The shortest failing block: the 136 fixed bytes of any header and then 2^64 - 144 as the size of its extra data. |
| CodecDefined.ExtensionsUndefined | src/primitives/Codec.cpp:137-142 | The extension loop meets such a field exactly behind fewer complete extensions than claimed and one more tag. |
| CodecDefined.PairUndefined | src/primitives/Codec.cpp:129-133 | Of two byte strings in a row the second is read even when the first was rejected, from behind its size. |
| CodecInverse.SigningBytesDetermine | src/primitives/Codec.cpp:185-195 | The signed bytes fix the chain id and the whole transaction but its signature. |
| CodecInverse.HeaderBackward | src/primitives/Codec.cpp:103-145 | An accepted header input begins with the encoding of the result, which is exactly what was consumed. |
| CodecInverse.BlockForward | src/primitives/Codec.cpp:216-236 | An encoded block followed by anything is read back and only its bytes are consumed. |
| PrimitiveCodec.WriteHeaderTo | src/primitives/Codec.cpp:76-91 | The writer appends the header encoding. |
| PrimitiveCodec.WriteTransactionTo | src/primitives/Codec.cpp:93-101 | The writer appends the transaction encoding. |
| PrimitiveCodec.ReadHeaderFrom | src/primitives/Codec.cpp:103-145 | The reader object follows the read function in result, offset and errors. |
| PrimitiveCodec.ReadTransactionFrom | src/primitives/Codec.cpp:147-170 | The same for transactions. |
| PrimitiveCodec.EncodeForSigningBytes | src/primitives/Codec.cpp:185-195 | The writer produces the signed byte string. |
| PrimitiveCodec.EncodeBlockBytes | src/primitives/Codec.cpp:197-204 | The block encoding loop. |
| PrimitiveCodec.DecodeBlockBytes | src/primitives/Codec.cpp:216-236 | The block decoding loop. |
| Layouts.HeaderLayout | src/primitives/Codec.cpp:76-83 | Every fixed field of a header at its offset. |
| Layouts.TailLayout | src/primitives/Codec.cpp:84-86 | Extra data, seal and extension count behind their lengths. |
| Layouts.ExtensionsLayout | src/primitives/Codec.cpp:87-90 | Each extension: tag in two bytes, length in eight, payload. |
| Layouts.TransactionLayout | src/primitives/Codec.cpp:93-101 | Every field of a transaction at its offset. |
| Layouts.SigningLayout | src/primitives/Codec.cpp:185-195 | The signed bytes are the transaction up to its payload, then the chain id. |
| Layouts.BlockLayout | src/primitives/Codec.cpp:197-204 | Header, transaction count, transactions one after the other. |
| ByteBuffers.ByteWriter.WriteLE | src/primitives/Codec.cpp:10-14 | The shift loop appends the little-endian bytes. |
| ByteBuffers.ByteWriter.WriteBytes | src/protocol/Codec.hpp:27-31 | Length prefix, then the bytes. |
| ByteBuffers.ByteReader.ReadLE | src/primitives/Codec.cpp:36-45 | The byte loop reads the little-endian number or fails without moving. |
| ByteBuffers.ByteReader.ReadFixed | src/primitives/Codec.cpp:58-67 | A fixed number of bytes or a failure without moving. |
| ByteBuffers.ByteReader.ReadBytes | src/protocol/Codec.hpp:67-77 | Size, then that many bytes, with the wrapped 64-bit bound check. |
| Messages.StreamRoundTrip | src/network/tcp/TcpNetwork.cpp:141-159 | Messages encoded, framed and concatenated come out of the stream as they went in, whatever incomplete frame follows, and the connection is kept. |
| Messages.MessageRoundTrip | src/protocol/rscoin/Messages.cpp:14-126 | Every message whose payload length fits 32 bits decodes back to itself. |
| Messages.BlocksRoundTrip | src/protocol/rscoin/Messages.cpp:82-126 | The block list message decodes back to itself. |
| Dispatch.DecodesExactly | src/protocol/Dispatcher.hpp:13-33 | A payload is taken for a message exactly when its topic is the message's and its bytes spell it; a block or transaction may be followed by further bytes inside its string, nothing else may be. |
| Dispatch.NotHandledExactly | src/protocol/Dispatcher.hpp:24-28 | Exactly the topics of no message are left unhandled. |
| Layouts.TopicBytes | src/network/tcp/Wire.cpp:5-17 | The first two bytes of the frame of each message. |
| Layouts.ControlLayout | src/protocol/rscoin/Messages.cpp:14-71 | The fields of status, ping, pong and get-blocks at their offsets. |
| Layouts.WrappedLayout | src/protocol/rscoin/Messages.cpp:53-92 | Blocks and transactions behind their length in four bytes, lists behind their count. |
| Layouts.BlockListLayout | src/protocol/rscoin/Messages.cpp:82-88 | A list of blocks: each behind its length in four bytes. |
| Messages.OversizedWrappedIsRejected | src/protocol/Codec.hpp:27-31 | A byte string of 2^32 bytes or more, its prefix truncated, is never read back. |
| Messages.PartialFrameDeliversNothing | src/network/tcp/TcpNetwork.cpp:143-155 | A cut-off frame delivers nothing. |
| Messages.FrameHead | src/network/tcp/Wire.cpp:5-25 | A frame's header reads back as its topic and length, followed by exactly the payload. |
| Messages.EncodeMessage | src/protocol/rscoin/Messages.cpp:14-92 | The writer chains and the block loop produce the payload. |
| Messages.BlocksReceivedExactly | src/network/tcp/TcpNetwork.cpp:141-159 | A block list message that is framed, read under the limit and decoded arrives exactly when it is within the limit and below 2^32 bytes. |
| Messages.CutListFails | src/protocol/Codec.hpp:27-31 | A block list cut short anywhere, or with length prefixes cut to 32 bits, is never read to its end. |
| Messages.OversizedDisconnects | src/network/tcp/TcpNetwork.cpp:147-158 | A message over the limit is lost with everything sent after it, and the connection ends. |
| Messages.DecodeBlocksBytes | src/protocol/rscoin/Messages.cpp:106-126 | The block list decoding loop. |
| Messages.EncodeFrame | src/network/tcp/Wire.cpp:5-17 | The frame, its length cut to 32 bits. |
| Messages.DecodeFrameHeader | src/network/tcp/Wire.cpp:19-25 | Topic and length from six bytes. |
| Messages.ReaderLoop | src/network/tcp/TcpNetwork.cpp:141-159 | Header, length check, payload, repeated; it stops with a refusal exactly at a frame over the limit. |
| Sha256.Sha256.Update | src/crypto/sha256/Sha256.cpp:50-60 | Any update appends to the message hashed so far: whole blocks compressed in order, the rest buffered. |
| Sha256.Sha256.Transform | src/crypto/sha256/Sha256.cpp:86-122 | One call is the compression of section 6.2.2 of FIPS 180-4. |
| Sha256.Sha256.Pad | src/crypto/sha256/Sha256.cpp:124-146 | Padding the buffered rest compresses the padded message of section 5.1.1 of FIPS 180-4. |
| Sha256.Sha256.Revert | src/crypto/sha256/Sha256.cpp:148-154 | The state is written out big-endian. |
| Sha256.Sha256.Digest | src/crypto/sha256/Sha256.cpp:74-80 | For messages under 2^61 bytes the digest is the FIPS 180-4 hash, and the object is reset. |
| Sha256.HashPieces | src/crypto/sha256/Sha256.cpp:50-80 | However a message is cut into updates the digest is the hash of the whole. |
| Sha256.HashTwice | src/crypto/sha256/Sha256dHasher.cpp:17-20 | The node's hasher is the hash of the hash. |
| Sha256.HmacRaw | src/crypto/sha256/Sha256.cpp:196-220 | The keyed hash is HMAC of section 2 of RFC 2104, long keys hashed first. |
| Sha256.PaddedShort | src/crypto/sha256/Sha256.cpp:124-129 | With up to 55 bytes left the padded message ends in one block. |
| Sha256.PaddedLong | src/crypto/sha256/Sha256.cpp:131-134 | With 56 to 63 bytes left the length goes into a second block. |
| Sha256Laws.KnownAnswer | src/crypto/sha256/Sha256.cpp:86-154 | The hash of the message abc is the digest given in FIPS 180-4. |
| Sha256Laws.ConstantsAreCubeRoots | src/crypto/sha256/Sha256.hpp:50-67 | Each constant is the first 32 fractional bits of the cube root of its prime (section 4.2.2 of FIPS 180-4). |
| Sha256Laws.InitialIsSquareRoots | src/crypto/sha256/Sha256.cpp:36-48 | The initial state likewise from the square roots of the first eight primes (section 5.3.3 of FIPS 180-4). |
| Sha256Laws.PrimesInOrder | src/crypto/sha256/Sha256.hpp:50-67 | The primes meant are 2 and from each on the next. |
| Sha256Laws.RotrBits | src/crypto/sha256/Sha256.cpp:12-14 | Bit i of a word rotated right by n is its bit i + n, counted around the word. |
| Sha256Laws.ChBits | src/crypto/sha256/Sha256.cpp:16-18 | The second word where the first has ones, the third where it has zeros. |
| Sha256Laws.MajBits | src/crypto/sha256/Sha256.cpp:20-22 | Every bit agrees with any two of the three that agree. |
| Sha256Laws.BigSigma0Bits | src/crypto/sha256/Sha256.cpp:108 | Each bit is the parity of the bits 2, 13 and 22 places up. |
| Sha256Laws.BigSigma1Bits | src/crypto/sha256/Sha256.cpp:105 | Each bit is the parity of the bits 6, 11 and 25 places up. |
| Sha256Laws.SmallSigma0Bits | src/crypto/sha256/Sha256.cpp:24-26 | Each bit is the parity of the bits 7 and 18 places up and the one 3 above. |
| Sha256Laws.SmallSigma1Bits | src/crypto/sha256/Sha256.cpp:28-30 | Each bit is the parity of the bits 17 and 19 places up and the one 10 above. |
| Sha256Laws.WordBytes | src/crypto/sha256/Sha256.cpp:89-94 | A word is the number its four bytes spell, most significant first. |
| Sha256Laws.DigestWords | src/crypto/sha256/Sha256.cpp:148-154 | The digest spells the eight words of the state. |
| Sha256Laws.PaddedExactly | src/crypto/sha256/Sha256.cpp:124-146 | The padded message: the message, a one bit, the fewest zeros, the length in bits. |
| Sha256Laws.HmacExactly | src/crypto/sha256/Sha256.cpp:196-220 | The keyed hash in terms of the two blocks that differ from the key by 0x36 and 0x5c in every byte. |

## Left out

- Sockets, threads, HTTP, JSON-RPC, wallet, web page, CLI, configuration and logging: input and output; the clock, the
  stop token and the configured values are parameters.
- `FileStore`: file system behaviour. Its `apply` changes memory before saving, so a failed save is not all-or-nothing
  there; the model's store is the in-memory one.
- secp256k1 and the stub signature scheme: `authenticate` is an arbitrary function.
- Mutexes: each import, pool call and message handler is one atomic step. Blocks from other sources between two sync
  replies are covered by the `meanwhile` argument of the sync theorems.
- Block and transaction announcements, the transactions seen by a peer and ping/pong; announcements follow `notified`,
  which `Manager.ChainManager.ImportBlock` fixes.
- `validateTransaction` and `account` of the state machine, `findExtension`, `setExtension` and the hex helpers: plain reads
  and text conversions.
- Sha256.Sha256.Digest: messages of 2^61 bytes or more are not covered; FIPS 180-4 does not define their hash.
- Messages.MessageRoundTrip: nothing is claimed for payloads of 2^32 bytes or more except
  `Messages.OversizedWrappedIsRejected` and `Messages.BlocksReceivedExactly`, because no frame can carry them.
- Messages.BlocksReceivedExactly: where a single block takes 2^32 bytes or more, decoding its cut bytes may meet the
  undefined case of `readBytes`; the model counts that as a malformed payload.
- Messages.DecodeBlocksBytes: memory is not modelled, so neither is the reservation for the claimed number of blocks.
- Mining.Miner.MineOne: the retry loop and the mining thread are not modelled; head, height and ledger are read at one
  moment.
