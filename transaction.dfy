/** Fixed-size byte blocks of include/hash.h and include/cryptography.h. */
module Crypto {
  import opened Types

  /** sizeof(sha_256_t): the code reads the digest through `.digest`, the header
      calls the array `data`; either way it is 32 bytes. */
  const HASH_LEN: nat := 32
  const MAX_SSH_KEY_LENGTH: nat := 1024
  /** ssh_signature_t is declared in no header of this snapshot; its byte block
      is taken to be MAX_SSH_KEY_LENGTH bytes long, like an ssh_key_t. */
  const SIGNATURE_BYTES_LEN: nat := MAX_SSH_KEY_LENGTH

  type Hash = s: seq<byte> | |s| == HASH_LEN witness seq(32, _ => 0)
  type Key = s: seq<byte> | |s| == MAX_SSH_KEY_LENGTH witness seq(1024, _ => 0)
  type SignatureBytes = s: seq<byte> | |s| == SIGNATURE_BYTES_LEN witness seq(1024, _ => 0)

  /** The all-zero digest `sha_256_t empty_block_hash = {0}`. */
  const ZERO_HASH: Hash :=
    [0, 0, 0, 0, 0, 0, 0, 0, 0, 0, 0, 0, 0, 0, 0, 0,
     0, 0, 0, 0, 0, 0, 0, 0, 0, 0, 0, 0, 0, 0, 0, 0]

  datatype Signature = Signature(length: u64, bytes: SignatureBytes)
}

/** src/transaction.c and include/transaction.h. */
module Transactions {
  import opened Types
  import opened Crypto
  import opened ReturnCodes

  const AMOUNT_GENERATED_DURING_MINTING: u32 := 1

  datatype Transaction = Transaction(
    createdAt: i64,
    senderPublicKey: Key,
    recipientPublicKey: Key,
    amount: u32,
    senderSignature: Signature)

  /** The shape blockchain_verify demands of a block's first transaction. */
  predicate IsMintingTransaction(t: Transaction)
  {
    t.amount == AMOUNT_GENERATED_DURING_MINTING && t.senderPublicKey == t.recipientPublicKey
  }

  /** The four fields transaction_compare looks at. The source names them
      sender_id and recipient_id, which transaction_t no longer has; the public
      keys stand in for them. */
  predicate SameCompareFields(t1: Transaction, t2: Transaction)
  {
    t1.createdAt == t2.createdAt && t1.senderPublicKey == t2.senderPublicKey &&
    t1.recipientPublicKey == t2.recipientPublicKey && t1.amount == t2.amount
  }

  /** The int (32 bits, two's complement) that a wider integer is converted to. */
  function ToInt32(x: int): (r: int)
    ensures -0x8000_0000 <= r < 0x8000_0000
    ensures (r - x) % TWO_TO_32 == 0
  {
    var m := x % TWO_TO_32;
    if m < 0x8000_0000 then m else m - TWO_TO_32
  }

  /** transaction_compare as written: the time_t difference is returned as an int. */
  function TransactionCompareAsWritten(t1: Option<Transaction>, t2: Option<Transaction>): (r: int)
    ensures t1.None? || t2.None? ==> r == 0
    ensures t1.Some? && t2.Some? && SameCompareFields(t1.value, t2.value) ==> r == 0
    ensures t1.Some? && t2.Some? ==> r == ToInt32(t1.value.createdAt - t2.value.createdAt)
    ensures -0x8000_0000 <= r < 0x8000_0000
  {
    if t1.None? || t2.None? then 0
    else if SameCompareFields(t1.value, t2.value) then 0
    else ToInt32(t1.value.createdAt - t2.value.createdAt)
  }

  /** Two transactions created 2^32 seconds apart compare as equal, and two created
      2^31 seconds apart compare in the wrong order. */
  lemma TransactionCompareAsWrittenTruncates(t: Transaction)
    requires t.createdAt == 0
    ensures TransactionCompareAsWritten(Some(t.(createdAt := TWO_TO_32)), Some(t)) == 0
    ensures TransactionCompareAsWritten(Some(t.(createdAt := 0x8000_0000)), Some(t)) < 0
  {
  }

  function Sign(x: int): int
  {
    if x < 0 then -1 else if x == 0 then 0 else 1
  }

  /** transaction_compare with the evident intent: NULL compares as 0, and otherwise
      the sign of the result is the order of the creation times. */
  function TransactionCompare(t1: Option<Transaction>, t2: Option<Transaction>): (r: int)
    ensures t1.None? || t2.None? ==> r == 0
    ensures t1.Some? && t2.Some? ==>
      (r < 0 <==> t1.value.createdAt < t2.value.createdAt) &&
      (r == 0 <==> t1.value.createdAt == t2.value.createdAt) &&
      (r > 0 <==> t1.value.createdAt > t2.value.createdAt)
  {
    if t1.None? || t2.None? then 0
    else if SameCompareFields(t1.value, t2.value) then 0
    else Sign(t1.value.createdAt - t2.value.createdAt)
  }

  /** The corrected comparison is reflexive and antisymmetric, and transactions
      created at the same time compare as 0 whatever their other fields. */
  lemma TransactionCompareOrder(t1: Transaction, t2: Transaction)
    ensures TransactionCompare(Some(t1), Some(t1)) == 0
    ensures TransactionCompare(Some(t1), Some(t2)) == -TransactionCompare(Some(t2), Some(t1))
    ensures t1.createdAt == t2.createdAt ==> TransactionCompare(Some(t1), Some(t2)) == 0
  {
  }

  /** transaction_create (src/transaction.c) is a stub: whatever it is given, it fails. */
  function TransactionCreate(outPtrNull: bool, senderId: u32, recipientId: u32, amount: u32): (rc: ReturnCode)
    ensures rc == FailureInvalidInput
  {
    FailureInvalidInput
  }

  /** transaction_destroy (src/transaction.c) is a stub that always fails, which
      is what the test expects of a NULL transaction. */
  function TransactionDestroy(t: Option<Transaction>): (rc: ReturnCode)
    ensures rc == FailureInvalidInput
  {
    FailureInvalidInput
  }
}
