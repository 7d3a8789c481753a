/** src/block.c and include/block.h. */
module Blocks {
  import opened Types
  import opened Crypto
  import opened ReturnCodes
  import opened Transactions
  import LinkedLists

  /** The contents of a block_t, with its transaction list as the sequence of
      its transactions. */
  datatype BlockValue = BlockValue(
    createdAt: i64,
    transactions: seq<Transaction>,
    proofOfWork: u32,
    previousBlockHash: Hash)

  /** A block_t in memory; blockchain_mine_block overwrites its proof_of_work. */
  class Block {
    var createdAt: i64
    const transactionList: LinkedLists.LinkedList<Transaction>
    var proofOfWork: u32
    var previousBlockHash: Hash

    function Value(): (v: BlockValue)
      reads this, transactionList
      ensures v.transactions == transactionList.items && v.proofOfWork == proofOfWork
    {
      BlockValue(createdAt, transactionList.items, proofOfWork, previousBlockHash)
    }

    constructor (createdAt: i64, transactionList: LinkedLists.LinkedList<Transaction>, proofOfWork: u32, previousBlockHash: Hash)
      ensures this.createdAt == createdAt && this.transactionList == transactionList
      ensures this.proofOfWork == proofOfWork && this.previousBlockHash == previousBlockHash
    {
      this.createdAt := createdAt;
      this.transactionList := transactionList;
      this.proofOfWork := proofOfWork;
      this.previousBlockHash := previousBlockHash;
    }
  }

  /** block_create: fails on a NULL out-pointer or transaction list; otherwise a
      new block holding the arguments, created at `now` (time(NULL)). */
  method BlockCreate(outPtrNull: bool, transactionList: LinkedLists.LinkedList?<Transaction>,
                     proofOfWork: u32, previousBlockHash: Hash, now: i64)
    returns (rc: ReturnCode, block: Block?)
    ensures rc == Success <==> !outPtrNull && transactionList != null
    ensures rc != Success ==> rc == FailureInvalidInput && block == null
    ensures rc == Success ==> block != null && fresh(block)
    ensures rc == Success ==> block.transactionList == transactionList && block.createdAt == now
    ensures rc == Success ==> block.proofOfWork == proofOfWork && block.previousBlockHash == previousBlockHash
  {
    if outPtrNull || transactionList == null {
      return FailureInvalidInput, null;
    }
    block := new Block(now, transactionList, proofOfWork, previousBlockHash);
    rc := Success;
  }

  /** block_create_genesis_block (src/block.c) is a stub that always fails. */
  function BlockCreateGenesisBlock(outPtrNull: bool): (rc: ReturnCode)
    ensures rc == FailureInvalidInput
  {
    FailureInvalidInput
  }

  /** block_destroy: fails on NULL, and otherwise returns what destroying the
      transaction list returns, which the linked_list_destroy stub makes a failure. */
  function BlockDestroy(block: Block?): (rc: ReturnCode)
    ensures block == null ==> rc == FailureInvalidInput
    ensures block != null ==> rc == LinkedLists.Destroy(block.transactionList)
  {
    if block == null then FailureInvalidInput else LinkedLists.Destroy(block.transactionList)
  }
}
