# A Dafny model of the blockchain core of theblockchainkiller

theblockchainkiller is a small proof-of-work blockchain written in C. This
project models its sequential core in Dafny and proves properties of that model.
The core comprises:

- the chain object (`blockchain_t`) and its rules in `src/blockchain.c`:
  - creation and adding blocks;
  - the difficulty test on a block hash;
  - the nonce search of `blockchain_mine_block`;
  - the validator `blockchain_verify`;
  - the binary codec `blockchain_serialize` / `blockchain_deserialize`.
- the 64-bit big-endian codec of `src/endian.c`;
- the command-header serialiser of `src/networking.c`;
- the list, block and transaction constructors and comparators of
  `src/linked_list.c`, `src/block.c` and `src/transaction.c`;
- the peer-address comparator of `src/peer_discovery.c`.

The modules follow those files:

- `types.dfy`:
  - `Types` holds the machine integers as subset types, `Option`, `Result` and the C integer conversions.
  - `ReturnCodes` holds every return-code name the sources use.
- `endian.dfy` (`Endian`):
  - `htobe64` is the 8-byte big-endian layout `Encode64`, and `Decode64` is its inverse.
  - The words `htobe64`/`betoh64` return on either kind of host are modelled too.
- `linked_list.dfy` (`LinkedLists`): a `LinkedList` class whose elements are a `seq`.
- `transaction.dfy`:
  - `Crypto` holds the fixed-size hash, key and signature blocks.
  - `Transactions` holds `transaction_t` and `transaction_compare`.
- `block.dfy` (`Blocks`):
  - `BlockValue` is the contents of a block.
  - `Block` is the class whose `proof_of_work` mining overwrites.
- `chain_rules.dfy` (`ChainRules`) holds the rules as functions of block values:
  - `HasLeadingZeroBytes`, the difficulty test;
  - `ChainVerdict`, the verdict `blockchain_verify` reaches;
  - `MineFrom`, the outcome of the nonce search.
- `wire_format.dfy` (`WireFormat`) is the byte layout, specified by functions:
  - `EncodeChain` states what the serialiser writes.
  - `DecodeChain` states what the deserialiser reads, with its checks in the order it makes them. One check is the corrected one: before a signature is copied, it checks that the whole signature block fits, where the code checks only `length` bytes (Findings row 2). `Blockchains.ReadTransaction` and `Blockchains.Deserialize` follow `DecodeChain`, so they make the corrected check too.
  - A generic layer of records laid back to back (`EncodeRecords` / `DecodeRecords`) serves transactions and blocks alike.
- `blockchain.dfy` (`Blockchains`): the `Blockchain` class and the imperative operations. Each operation is proved against the functions above.
- `networking.dfy` (`Networking`): `command_header_serialize`, writing through a cursor into a zeroed array, and the stub deserialisers.
- `peer_discovery.dfy` (`PeerDiscovery`): `compare_peer_info_t` as `memcmp` over the 28-byte `sockaddr_in6`.

Several pieces of code are not visible, and the model takes them as parameters:

- `block_hash` (SHA-256 over a block) and `transaction_verify_signature` are functions in `ChainRules.Externals`. Both are taken to succeed.
- `GENESIS_BLOCK_PROOF_OF_WORK` is defined by no header, so it is also a field of `ChainRules.Externals`.
- `time(NULL)` is the input `now`.
- The atomic stop flag is a function `nat -> bool`: the value iteration k reads.

NULL pointers are modelled as follows:

- A NULL in-pointer is `None` or `null`.
- A NULL out-pointer is a `...PtrNull: bool` argument.

The hash type is 32 bytes. The code calls its field `digest`, while `include/hash.h` declares `data`.

`ssh_signature_t` is declared in no header. The model takes it as a 64-bit length followed by a `MAX_SSH_KEY_LENGTH`-byte block.

The serialised format is the one the code evidently means. Every integer field takes 8 big-endian bytes, and the deserialiser reads it that way. Row 1 of "Findings" covers the two stores that overlap as written.

## Model

| member | source | states |
|---|---|---|
| Types.TruncateToU32 | src/blockchain.c:781-782 | the uint32_t kept from a uint64_t equals it exactly when it is below 2^32, and differs from it by a multiple of 2^32 |
| Types.I64ToU64 | src/blockchain.c:534 | a time_t stored as uint64_t keeps non-negative values and adds 2^64 to negative ones |
| Types.U64ToI64 | src/blockchain.c:642 | the time_t read back from a uint64_t converts back to that uint64_t |
| Types.U64ToI64OfI64ToU64 | src/blockchain.c:642 | a created_at written as uint64_t and read back as time_t is the original value |
| Endian.Encode64 | src/endian.c:3-15 | htobe64 always lays out exactly 8 bytes |
| Endian.Encode64Layout | src/endian.c:3-15 | byte i of the layout is (x >> (56 - 8i)) & 0xff, most significant first |
| Endian.Decode64OfEncode64 | src/endian.c:17-19 | decoding the 8 bytes of x gives back x, for every 64-bit x |
| Endian.Encode64OfDecode64 | src/endian.c:17-19 | every 8 bytes are the layout of the value they decode to |
| Endian.Encode64Injective | src/endian.c:3-15 | two values with the same 8 bytes are equal |
| Endian.Encode64TestVector | tests/test_endian.c:4-29 | 0x0123456789abcdef is laid out as 01 23 45 67 89 ab cd ef, and those bytes decode to it |
| Endian.HostToBigEndian64 | src/endian.c:3-15 | the uint64_t htobe64 returns is the word whose bytes in host memory are the big-endian bytes of x |
| Endian.BigEndianToHost64 | src/endian.c:17-19 | betoh64 is htobe64 itself |
| Endian.BigEndianToHostRoundTrip | src/endian.c:17-19 | on either host order, betoh64 undoes htobe64, and betoh64 of a word read from big-endian memory is the value of those bytes |
| LinkedLists.LinkedList.constructor | src/linked_list.c:19-22 | a new list is empty and keeps the given free and compare functions |
| LinkedLists.CreateStatusAsWritten | src/linked_list.c:10-13 | create succeeds exactly when the out-pointer, the free function and the compare function are all non-NULL, and otherwise gives FAILURE_INVALID_INPUT |
| LinkedLists.CreateWithoutCompareFailsAsWritten | src/blockchain.c:32-35 | with the check as written, a create call given a NULL compare function always fails |
| LinkedLists.CreateStatus | src/blockchain.c:32-35 | with a NULL compare function allowed, create fails exactly on a NULL out-pointer or free function. Every caller in the chain code passes NULL (src/blockchain.c:32-35, 672-673), and the registered tests "compare function may be NULL" and "find fails on null compare function" (tests/main.c:57, 80) need such a list. The one test body present, tests/test_linked_list.c:27-28, expects the opposite |
| LinkedLists.Create | src/linked_list.c:4-25 | on success the list is new and empty and keeps the given functions; on failure there is no list |
| LinkedLists.Append | tests/main.c:81-82 | append puts the element at the back and leaves the rest as it was; a NULL list gives FAILURE_INVALID_INPUT |
| LinkedLists.Length | tests/main.c:86-89 | length is the number of elements; a NULL list gives FAILURE_INVALID_INPUT |
| LinkedLists.GetLast | tests/main.c:83-85 | get_last fails on an empty list and otherwise gives the last element |
| LinkedLists.Find | tests/main.c:75-80 | find fails without a compare function. Otherwise it succeeds, returning the first element that compares as 0 with the datum, or nothing when no element does |
| LinkedLists.Destroy | src/linked_list.c:27-30 | the stub always returns FAILURE_INVALID_INPUT |
| LinkedLists.Prepend | src/linked_list.c:32-35 | the stub always returns FAILURE_INVALID_INPUT |
| LinkedLists.GetFirst | src/linked_list.c:37-40 | the stub always returns FAILURE_INVALID_INPUT |
| LinkedLists.RemoveFirst | src/linked_list.c:42-45 | the stub always returns FAILURE_INVALID_INPUT |
| LinkedLists.IsEmpty | src/linked_list.c:47-50 | the stub always returns FAILURE_INVALID_INPUT |
| Transactions.ToInt32 | src/transaction.c:17 | the int a wider difference is converted to lies in the 32-bit range and differs from it by a multiple of 2^32 |
| Transactions.TransactionCompareAsWritten | src/transaction.c:3-18 | as written, a NULL argument compares as 0, a transaction compares as 0 with one whose four compared fields agree, and otherwise the result is the difference of the creation times converted to a 32-bit int |
| Transactions.TransactionCompareAsWrittenTruncates | src/transaction.c:17 | as written, transactions created 2^32 s apart compare as equal, and ones created 2^31 s apart compare in the wrong order |
| Transactions.TransactionCompare | src/transaction.c:3-18 | NULL compares as 0; otherwise the sign of the result is the order of the creation times, in both directions |
| Transactions.TransactionCompareOrder | src/transaction.c:11-17 | the comparison is reflexive and antisymmetric. Transactions created at the same time compare as 0 whatever their other fields |
| Transactions.TransactionCreate | src/transaction.c:20-27 | the stub always returns FAILURE_INVALID_INPUT |
| Transactions.TransactionDestroy | tests/test_transaction.c:52-55 | the stub always returns FAILURE_INVALID_INPUT, as the NULL test expects |
| Blocks.BlockCreate | src/block.c:6-30 | fails exactly on a NULL out-pointer or transaction list. Otherwise the new block holds the given list, proof of work and previous hash, and created_at is the current time |
| Blocks.BlockCreateGenesisBlock | src/block.c:32-34 | the stub always returns FAILURE_INVALID_INPUT |
| Blocks.BlockDestroy | src/block.c:36-46 | NULL gives FAILURE_INVALID_INPUT; otherwise the result is the code from destroying the transaction list |
| ChainRules.LeadingZeroBytesAsPrefix | src/blockchain.c:406-409 | comparing the first N hash bytes with the all-zero digest is the difficulty test, and meeting a difficulty implies meeting every lower one |
| ChainRules.CheckBlock | src/blockchain.c:397-472 | a later block passes exactly when: its hash meets the difficulty; it links to its predecessor's hash; it is non-empty; it starts with a minting transaction; and every signature is valid. It fails unreported exactly when it is empty after the first two checks pass |
| ChainRules.VerdictFromFirstFailure | src/blockchain.c:397-475 | the walk over later blocks is valid exactly when every block passes. Otherwise its verdict is that of the first block that fails |
| ChainRules.VerdictFromReports | src/blockchain.c:397-475 | a reported block is the first that fails, and it fails a reported check; an unreported verdict has a first failing block that is empty |
| ChainRules.ChainVerdictValid | src/blockchain.c:368-475 | a chain is valid exactly when it is empty, or its genesis block is valid and every later block passes |
| ChainRules.ChainVerdictReported | src/blockchain.c:382-451 | block k is reported in exactly two cases. Either k is the genesis block and it is invalid, or the genesis block is valid, every block before k passes and k fails a reported check |
| ChainRules.ChainVerdictUnreported | src/blockchain.c:427-437 | the chain is invalid with no block reported exactly when the first later block that fails has no transactions |
| ChainRules.MineFromCodes | src/blockchain.c:145-220 | mining ends in success, stopped-early or no-valid-proof, and on success the proof found makes the hash meet the difficulty |
| ChainRules.MineFromLeast | src/blockchain.c:145-218 | from any iteration reached with earlier nonces invalid and the flag clear, a success is the least valid nonce |
| ChainRules.MinedProofIsLeastValidNonce | src/blockchain.c:145-218 | when mining succeeds, proof_of_work is the least nonce whose block hash is valid, and the stop flag stayed clear through that iteration |
| ChainRules.LeastValidNonceIsMined | src/blockchain.c:145-218 | conversely, if p is the least valid nonce and the flag stays clear through iteration p, mining succeeds with p |
| ChainRules.MineStopsAtFlag | src/blockchain.c:145-149 | mining returns FAILURE_STOPPED_EARLY at the first raised flag without trying that nonce. The block keeps the nonce tried last |
| WireFormat.EncodeTransaction | src/blockchain.c:565-591 | a transaction record is TRANSACTION_RECORD_LEN (3096) bytes long |
| WireFormat.EncodeBlock | src/blockchain.c:534-592 | a block record is the 56-byte header plus one transaction record per transaction |
| WireFormat.WordAt | src/blockchain.c:616-617 | the word read at a position holding the layout of x is x |
| WireFormat.DecodeRecordsOfEncode | src/blockchain.c:634-795 | records laid out back to back, each of which its reader reads back, read back in order to the end of the last |
| WireFormat.DecodeTransactionOfEncode | src/blockchain.c:688-772 | the deserialiser reads back, at any position, a transaction record with an accepted signature length |
| WireFormat.TransactionsReadBack | src/blockchain.c:678-780 | the transaction reader reads back every acceptable transaction record wherever it stands |
| WireFormat.BlockHeaderAt | src/blockchain.c:636-670 | in a block record, the header words stand at offsets 0, 40 and 48 and the hash at 8-40; the transaction records follow the header |
| WireFormat.DecodeBlockOfEncode | src/blockchain.c:636-788 | the deserialiser reads back a block record whose transactions it accepts |
| WireFormat.BlocksReadBack | src/blockchain.c:634-795 | the block reader reads back every acceptable block record wherever it stands |
| WireFormat.DecodeChainOfEncode | include/blockchain.h:96-98 | deserialising a serialisation gives back the difficulty and every block, in order, whatever bytes follow it |
| WireFormat.DecodeTransactionCutShort | src/blockchain.c:688-766 | a transaction record cut short by the end of the buffer gives FAILURE_BUFFER_TOO_SMALL |
| WireFormat.TransactionsRejectCutShort | src/blockchain.c:688-766 | the transaction reader rejects every cut-short record wherever it stands |
| WireFormat.DecodeRecordsCutShort | src/blockchain.c:634-795 | a run of records cut short anywhere gives FAILURE_BUFFER_TOO_SMALL |
| WireFormat.DecodeBlockCutShort | src/blockchain.c:636-670 | a block record cut short anywhere gives FAILURE_BUFFER_TOO_SMALL |
| WireFormat.BlocksRejectCutShort | src/blockchain.c:636-766 | the block reader rejects every cut-short record wherever it stands |
| WireFormat.DecodeChainCutShort | src/blockchain.c:611-766 | every proper prefix of a serialisation is rejected with FAILURE_BUFFER_TOO_SMALL |
| WireFormat.DecodeTransactionSignatureTooLong | src/blockchain.c:749-755 | a signature length over MAX_SSH_KEY_LENGTH gives FAILURE_SIGNATURE_TOO_LONG, even with the rest of the record intact |
| WireFormat.EncodeTransactionAsWritten | src/blockchain.c:581-585 | as written, a transaction record is 4 bytes shorter than its fields |
| WireFormat.HighHalfIsZero | src/blockchain.c:540-541 | the 4 bytes of a uint32_t proof or amount that survive the overlap are always zero |
| WireFormat.GenesisRoundTripFailsAsWritten | src/blockchain.c:540-543 | as written, a chain of one empty block is 4 bytes short and deserialises to FAILURE_BUFFER_TOO_SMALL |
| WireFormat.SignatureOverReadAsWritten | src/blockchain.c:756-772 | as written, a record cut off after a zero signature length passes the bounds check while the copy would need 1024 more bytes. With the whole block checked, it is rejected |
| Blockchains.BlockchainCreate | src/blockchain.c:17-46 | fails only on a NULL out-pointer, otherwise gives a new empty chain of the given difficulty |
| Blockchains.BlockchainCreateAsWritten | src/blockchain.c:31-39 | as written, creation always fails and gives no chain |
| Blockchains.BlockchainDestroy | src/blockchain.c:48-58 | NULL gives FAILURE_INVALID_INPUT; otherwise the result is the code from destroying the block list |
| Blockchains.AddBlock | src/blockchain.c:95-104 | the block goes at the end and the earlier blocks are unchanged; a NULL chain or block gives FAILURE_INVALID_INPUT |
| Blockchains.IsValidBlockHash | src/blockchain.c:106-128 | NULL arguments give FAILURE_INVALID_INPUT; otherwise the hash is valid exactly when its first N bytes are zero |
| Blockchains.MineBlock | src/blockchain.c:130-223 | NULL arguments give FAILURE_INVALID_INPUT and leave the block unchanged. Otherwise the code and the proof left in the block are MineFrom's, with created_at and the previous hash unchanged |
| Blockchains.Mine | src/blockchain.c:145-220 | the nonce loop ends with MineFrom's code and proof, leaving the other fields as they were |
| Blockchains.Reported | src/blockchain.c:388-391 | a block index is handed back exactly when the pointer is given and the verdict reports a block |
| Blockchains.Verify | src/blockchain.c:358-478 | NULL arguments give FAILURE_INVALID_INPUT. Otherwise the chain is called valid exactly when ChainVerdict is Valid, and the block reported is ChainVerdict's |
| Blockchains.WriteBlock | src/blockchain.c:513-592 | one pass of the block loop appends exactly the block's record to the buffer |
| Blockchains.Serialize | src/blockchain.c:480-598 | NULL arguments give FAILURE_INVALID_INPUT; otherwise the buffer is EncodeChain of the difficulty and the blocks in list order, and buffer_size is its length |
| Blockchains.ReadTransaction | src/blockchain.c:681-779 | the field-by-field read of one transaction has DecodeTransaction's outcome, errors included |
| Blockchains.ReadTransactions | src/blockchain.c:671-780 | the transaction loop succeeds exactly when DecodeRecords does, filling the list with its transactions, and otherwise returns its error |
| Blockchains.ReadBlock | src/blockchain.c:635-788 | reading one block has DecodeBlock's outcome; on success the new block holds the decoded contents |
| Blockchains.ReadBlocks | src/blockchain.c:634-795 | the block loop succeeds exactly when DecodeRecords does, adding its blocks in order, and otherwise returns its error |
| Blockchains.Deserialize | src/blockchain.c:600-799 | NULL arguments give FAILURE_INVALID_INPUT. Otherwise it succeeds exactly when DecodeChain does, giving back its difficulty and blocks, and otherwise fails with its error |
| Blockchains.SerializeRoundTrip | include/blockchain.h:96-98 | deserialising what the serialiser wrote gives back the difficulty and every block |
| Networking.Store | src/networking.c:24-31 | a write through the cursor replaces exactly the bytes it covers |
| Networking.HeaderBytes | src/networking.c:8-36 | the corrected header layout is sizeof(command_header_t) = 16 bytes |
| Networking.HeaderBytesFields | src/networking.c:24-31 | the prefix, the 2-byte command and the 8-byte command_len can each be read back from their slots |
| Networking.HeaderBytesInjective | tests/test_networking.c:52-70 | two headers with the same bytes are the same header |
| Networking.CommandHeaderSerialize | src/networking.c:8-36 | NULL arguments give FAILURE_INVALID_INPUT; otherwise the zeroed 16-byte buffer holds the prefix, the command and command_len |
| Networking.CommandHeaderSerializeAsWritten | src/networking.c:28-31 | as written, the buffer holds the prefix, two zero bytes, command_len and two zero bytes; the command is lost |
| Networking.CommandLostAsWritten | src/networking.c:28-31 | as written, a COMMAND_OK and a COMMAND_REGISTER_PEER header serialise to the same bytes |
| Networking.HeaderBytesNotAllZero | tests/test_networking.c:35-50 | a serialised header with COMMAND_PREFIX is non-empty and not all zero |
| Networking.CommandHeaderDeserialize | src/networking.c:38-41 | the stub always returns FAILURE_INVALID_INPUT |
| Networking.CommandRegisterPeerDeserialize | src/networking.c:43-48 | the stub always returns FAILURE_INVALID_INPUT |
| Networking.CommandSendPeerListSerialize | src/networking.c:50-55 | the stub always returns FAILURE_INVALID_INPUT |
| PeerDiscovery.MemCmp | src/peer_discovery.c:15-18 | memcmp's result is -1, 0 or 1 |
| PeerDiscovery.MemCmpZeroIffEqual | src/peer_discovery.c:15-18 | memcmp gives 0 exactly on equal blocks |
| PeerDiscovery.MemCmpAntisymmetric | src/peer_discovery.c:15-18 | swapping the arguments flips the sign |
| PeerDiscovery.MemCmpLexicographic | src/peer_discovery.c:15-18 | memcmp is negative exactly when the first block comes first in lexicographic byte order |
| PeerDiscovery.ComparePeerInfo | src/peer_discovery.c:7-19 | a NULL peer compares as 0. Otherwise the result is 0 exactly when the listening addresses are equal, negative exactly when the first address comes first in lexicographic byte order, and positive exactly when it comes after |
| PeerDiscovery.ComparePeerInfoIgnoresLastConnected | tests/test_peer_discovery.c:6-27 | last_connected takes no part in the comparison, and swapping the peers flips the sign |
| PeerDiscovery.PeerInfoListSerialize | src/peer_discovery.c:21-27 | the stub always returns FAILURE_INVALID_INPUT |

## Left out

- Blockchains.AddBlock: the chain stores the block's contents as they are when it is added, not a pointer to it. Later writes through the `block_t` pointer, and aliasing between chains, are not modelled.
- Blockchains.Verify: the check that a block's transaction list is empty is modelled as `linked_list_is_empty` is named and tested to behave. As written, that function is a stub that fails, so `blockchain_verify` returns FAILURE_INVALID_INPUT on every non-empty chain.
- Blockchains.Verify: the return codes of `block_hash` and `transaction_verify_signature` are not modelled, because those functions are not part of this model. Both are taken to succeed.
- Blockchains.MineBlock: the return code of `block_hash` is taken to be SUCCESS. The `print_progress` branches only write to the console and are not modelled.
- Blockchains.Serialize: the `linked_list_length` and `realloc` failure paths are not modelled. The buffer size is an unbounded `nat` rather than a `uint64_t` that could wrap.
- Blockchains.Deserialize: the `calloc`/`malloc` failure paths and the freeing of partial results are not modelled. The model takes `buffer_size` to be the length of the buffer.
- LinkedLists.Append, LinkedLists.Length, LinkedLists.GetLast and LinkedLists.Find have no body in the source. Each is given the behaviour its name and test name describe.
- LinkedLists.Prepend, LinkedLists.GetFirst, LinkedLists.RemoveFirst, LinkedLists.IsEmpty and LinkedLists.Destroy follow the code, which is stubs that always fail. The tests expect them to act on the front of the list, and that behaviour is not modelled.
- Networking.CommandHeaderSerialize: the code does not check the command prefix, although a test expects FAILURE_INVALID_COMMAND_PREFIX for a bad one. The model follows the code. The header round trip the tests expect has no deserialiser to use, because `command_header_deserialize` is a stub.
- Concurrency is not modelled: `synchronized_blockchain_create`, `synchronized_blockchain_destroy`, `synchronized_blockchain_mine_block` and the thread drivers are mutex and atomic-version plumbing.
- File I/O is not modelled: `blockchain_write_to_file` and `blockchain_read_from_file` are `fopen`/`fread`/`fwrite` wrappers around the codec.
- `blockchain_print` and `hash_print` are console output and are not modelled.
- SHA-256 (`block_hash`), signature checking and base64 are foreign code. They are parameters or are left out.
- Transactions.TransactionCompare and Transactions.TransactionCompareAsWritten: the code compares `sender_id` and `recipient_id`, which `transaction_t` no longer has, so the model compares the public keys in their place. This cannot change the result: when all four fields agree, the creation times agree and the difference is 0 anyway.
- PeerDiscovery.MemCmp: the C standard fixes only the sign of memcmp's result; the model returns exactly -1, 0 or 1. So `PeerDiscovery.ComparePeerInfoIgnoresLastConnected` proves that swapping the peers negates the result exactly, where C promises only that the sign flips.
- Memory allocation failures (FAILURE_COULD_NOT_MALLOC) and `free` ownership are not modelled.

## Findings

| source | as written | input that shows it | evidently intended | confidence | as-written member | corrected member |
|---|---|---|---|---|---|---|
| src/blockchain.c:540-541, 581-582 | `proof_of_work` and `amount` are `uint32_t` but are stored as 8 bytes by `htobe64`. The cursor then advances only 4 bytes, so the next 8-byte store overwrites the low half | a chain of one block with no transactions: the serialisation is 68 bytes, not 72, and deserialising it fails with FAILURE_BUFFER_TOO_SMALL. A chain must exist for this, so the example assumes the fix of row 3 and a working `linked_list_length` | every integer field takes 8 bytes, as the deserialiser reads it (src/blockchain.c:661-662, 736-737), so that deserialise(serialise(c)) gives back c | high (not executed) | WireFormat.GenesisRoundTripFailsAsWritten | WireFormat.DecodeChainOfEncode |
| src/blockchain.c:756-772 | the bounds check before the signature copy asks only for `length` bytes, then copies all 1024 signature bytes | a transaction record cut off right after a zero signature length passes the check, and the copy reads 1024 bytes past the end of the buffer | check that the whole signature block fits before copying it | high (not executed) | WireFormat.SignatureOverReadAsWritten | WireFormat.DecodeChainCutShort |
| src/linked_list.c:10-13 | `linked_list_create` rejects a NULL compare function | `blockchain_create` (src/blockchain.c:32-35) and the deserialiser (src/blockchain.c:672-673) pass NULL, so no chain can ever be created | a NULL compare function is allowed. Every caller that builds a chain or a transaction list passes NULL, the registered test "find fails on null compare function" (tests/main.c:80) needs such a list, and so does the registered test "compare function may be NULL" (tests/main.c:57). The test body at tests/test_linked_list.c:27-28 asserts the opposite, and the callers decide | high (not executed) | Blockchains.BlockchainCreateAsWritten | Blockchains.BlockchainCreate |
| src/networking.c:28-29 | the 16-bit command is stored with `htonl` as 4 bytes while the cursor advances 2. The 8-byte `command_len` store then overwrites the low half, where a small command's bits are | COMMAND_OK and COMMAND_REGISTER_PEER headers with the same prefix and length serialise to identical bytes | store the command as 2 big-endian bytes (`htons`) | high (not executed) | Networking.CommandLostAsWritten | Networking.HeaderBytesInjective |
| src/transaction.c:17 | the `time_t` difference of the creation times is returned as an `int` | transactions created 0 and 2^32 seconds after the epoch compare as equal; 0 and 2^31 compare in the wrong order | the sign of the result follows the order of the creation times | medium (not executed) | Transactions.TransactionCompareAsWrittenTruncates | Transactions.TransactionCompareOrder |
