/** src/blockchain.c: the chain object and the operations on it, each proved
    against the functions of ChainRules and WireFormat that specify it. */
module Blockchains {
  import opened Types
  import opened Crypto
  import opened ReturnCodes
  import opened Endian
  import opened Transactions
  import opened Blocks
  import opened ChainRules
  import opened WireFormat
  import LinkedLists

  /** A blockchain_t: its list of blocks and the difficulty. The list holds the
      blocks' contents as they were when they were added. */
  class Blockchain {
    const blockList: LinkedLists.LinkedList<BlockValue>
    const numLeadingZeroBytes: u64

    /** The blocks from the genesis block on. */
    function Blocks(): seq<BlockValue>
      reads this, blockList
    {
      blockList.items
    }

    constructor (blockList: LinkedLists.LinkedList<BlockValue>, numLeadingZeroBytes: u64)
      ensures this.blockList == blockList && this.numLeadingZeroBytes == numLeadingZeroBytes
    {
      this.blockList := blockList;
      this.numLeadingZeroBytes := numLeadingZeroBytes;
    }
  }

  // ---- creating and destroying ----

  /** blockchain_create, with the block list created without a compare
      function as the rest of the code expects: fails only on a NULL
      out-pointer, and otherwise gives a new empty chain of the difficulty. */
  method BlockchainCreate(outPtrNull: bool, numLeadingZeroBytes: u64) returns (rc: ReturnCode, chain: Blockchain?)
    ensures rc == Success <==> !outPtrNull
    ensures rc != Success ==> rc == FailureInvalidInput && chain == null
    ensures rc == Success ==> chain != null && fresh(chain) && fresh(chain.blockList)
    ensures rc == Success ==> chain.Blocks() == [] && chain.numLeadingZeroBytes == numLeadingZeroBytes
  {
    if outPtrNull {
      return FailureInvalidInput, null;
    }
    var list: LinkedLists.LinkedList?<BlockValue>;
    rc, list := LinkedLists.Create(false, Some(_ => ()), None);
    chain := new Blockchain(list, numLeadingZeroBytes);
  }

  /** blockchain_create as written: linked_list_create refuses the NULL compare
      function it is given, so no chain is ever created. */
  method BlockchainCreateAsWritten(outPtrNull: bool, numLeadingZeroBytes: u64) returns (rc: ReturnCode, chain: Blockchain?)
    ensures rc == FailureInvalidInput && chain == null
  {
    if outPtrNull {
      return FailureInvalidInput, null;
    }
    rc := LinkedLists.CreateStatusAsWritten(false, true, false);
    if rc == Success {
      var list := new LinkedLists.LinkedList<BlockValue>(_ => (), None);
      chain := new Blockchain(list, numLeadingZeroBytes);
    } else {
      chain := null;
    }
  }

  /** blockchain_destroy: fails on NULL, and otherwise returns what destroying
      the block list returns. */
  function BlockchainDestroy(chain: Blockchain?): (rc: ReturnCode)
    ensures chain == null ==> rc == FailureInvalidInput
    ensures chain != null ==> rc == LinkedLists.Destroy(chain.blockList)
  {
    if chain == null then FailureInvalidInput else LinkedLists.Destroy(chain.blockList)
  }

  // ---- adding ----

  /** blockchain_add_block: the block goes at the end and the blocks before it
      stay as they were; a NULL chain or block changes nothing. */
  method AddBlock(chain: Blockchain?, block: Block?) returns (rc: ReturnCode)
    modifies if chain != null then {chain.blockList} else {}
    ensures chain == null || block == null ==> rc == FailureInvalidInput
    ensures chain != null && block == null ==> chain.Blocks() == old(chain.Blocks())
    ensures chain != null && block != null ==>
      rc == Success && chain.Blocks() == old(chain.Blocks()) + [old(block.Value())]
  {
    if chain == null || block == null {
      return FailureInvalidInput;
    }
    rc := LinkedLists.Append(chain.blockList, block.Value());
  }

  // ---- difficulty and mining ----

  /** blockchain_is_valid_block_hash: scans the first N digest bytes and stops
      at the first non-zero one. */
  method IsValidBlockHash(chain: Blockchain?, blockHash: Hash, isValidPtrNull: bool) returns (rc: ReturnCode, isValid: bool)
    requires chain != null ==> chain.numLeadingZeroBytes <= HASH_LEN
    ensures rc == FailureInvalidInput <==> chain == null || isValidPtrNull
    ensures rc != FailureInvalidInput ==> rc == Success
    ensures rc == Success ==> (isValid <==> HasLeadingZeroBytes(blockHash, chain.numLeadingZeroBytes))
  {
    if chain == null || isValidPtrNull {
      return FailureInvalidInput, false;
    }
    isValid := true;
    var idx := 0;
    while idx < chain.numLeadingZeroBytes
      invariant 0 <= idx <= chain.numLeadingZeroBytes
      invariant isValid
      invariant forall i :: 0 <= i < idx ==> blockHash[i] == 0
    {
      if blockHash[idx] != 0 {
        isValid := false;
        break;
      }
      idx := idx + 1;
    }
    rc := Success;
  }

  /** blockchain_mine_block: tries proofs of work 0, 1, 2, ... and stops at the
      first whose block hash meets the difficulty, or as soon as the stop flag
      (shouldStop(k) as iteration k reads it) is raised. The outcome and the
      proof of work left in the block are those of MineFrom, and nothing else in
      the block changes. */
  method MineBlock(chain: Blockchain?, block: Block?, shouldStop: Option<nat -> bool>, blockHash: BlockValue -> Hash)
    returns (rc: ReturnCode)
    requires chain != null ==> chain.numLeadingZeroBytes <= HASH_LEN
    modifies block
    ensures chain == null || block == null || shouldStop.None? ==> rc == FailureInvalidInput
    ensures block != null && (chain == null || shouldStop.None?) ==> block.proofOfWork == old(block.proofOfWork)
    ensures chain != null && block != null && shouldStop.Some? ==>
      MineOutcome(rc, block.proofOfWork) ==
      MineFrom(old(block.Value()), 0, chain.numLeadingZeroBytes, blockHash, shouldStop.value)
    ensures block != null ==>
      block.createdAt == old(block.createdAt) && block.previousBlockHash == old(block.previousBlockHash)
  {
    if chain == null || block == null || shouldStop.None? {
      return FailureInvalidInput;
    }
    rc := Mine(chain, block, shouldStop.value, blockHash);
  }

  /** The search loop of blockchain_mine_block, once its arguments are checked. */
  method Mine(chain: Blockchain, block: Block, stop: nat -> bool, blockHash: BlockValue -> Hash)
    returns (rc: ReturnCode)
    requires chain.numLeadingZeroBytes <= HASH_LEN
    modifies block
    ensures MineOutcome(rc, block.proofOfWork) == MineFrom(old(block.Value()), 0, chain.numLeadingZeroBytes, blockHash, stop)
    ensures block.createdAt == old(block.createdAt) && block.previousBlockHash == old(block.previousBlockHash)
  {
    var n := chain.numLeadingZeroBytes;
    ghost var b0 := block.Value();
    // The block as iteration newProof finds it.
    ghost var current := b0;
    var newProof: nat := 0;
    while newProof < UINT64_MAX
      invariant newProof <= UINT64_MAX
      invariant block.Value() == current
      invariant current.createdAt == b0.createdAt && current.previousBlockHash == b0.previousBlockHash
      invariant MineFrom(b0, 0, n, blockHash, stop) == MineFrom(current, newProof, n, blockHash, stop)
      decreases UINT64_MAX - newProof
    {
      if stop(newProof) {
        return FailureStoppedEarly;
      }
      // The uint64_t nonce is stored into the uint32_t field.
      block.proofOfWork := NonceAsProof(newProof);
      ghost var tried := current.(proofOfWork := NonceAsProof(newProof));
      assert block.Value() == tried;
      var hash := blockHash(block.Value());
      var _, isValid := IsValidBlockHash(chain, hash, false);
      if isValid {
        return Success;
      }
      current := tried;
      newProof := newProof + 1;
    }
    rc := FailureCouldNotFindValidProofOfWork;
  }

  // ---- verification ----

  /** What blockchain_verify stores through first_invalid_block: the index of
      the block reported, when the pointer is given and a block is reported. */
  function Reported(v: Verdict, firstInvalidPtrNull: bool): (r: Option<nat>)
    ensures r.Some? <==> !firstInvalidPtrNull && v.Invalid? && v.firstInvalid.Some?
    ensures r.Some? ==> r == v.firstInvalid
  {
    if !firstInvalidPtrNull && v.Invalid? then v.firstInvalid else None
  }

  /** blockchain_verify: walks the chain from the genesis block, carrying the
      hash of the previous block, and stops at the first block that fails a
      check. The verdict is ChainVerdict's; the index of a reported block is
      given back when the first_invalid_block pointer is. */
  method Verify(chain: Blockchain?, isValidPtrNull: bool, firstInvalidPtrNull: bool, ext: Externals)
    returns (rc: ReturnCode, isValid: bool, firstInvalid: Option<nat>)
    requires chain != null ==> chain.numLeadingZeroBytes <= HASH_LEN
    ensures rc == FailureInvalidInput <==> chain == null || isValidPtrNull
    ensures rc != FailureInvalidInput ==> rc == Success
    ensures rc == Success ==> (isValid <==> ChainVerdict(chain.Blocks(), chain.numLeadingZeroBytes, ext) == Valid)
    ensures rc == Success ==>
      firstInvalid == Reported(ChainVerdict(chain.Blocks(), chain.numLeadingZeroBytes, ext), firstInvalidPtrNull)
  {
    if chain == null || isValidPtrNull {
      return FailureInvalidInput, false, None;
    }
    var blocks := chain.blockList.items;
    var n := chain.numLeadingZeroBytes;
    rc := Success;
    if |blocks| == 0 {
      return rc, true, None;
    }
    var genesis := blocks[0];
    var genesisIsEmpty := |genesis.transactions| == 0;
    if !genesisIsEmpty || genesis.proofOfWork != ext.genesisProofOfWork || genesis.previousBlockHash != ZERO_HASH {
      return rc, false, if firstInvalidPtrNull then None else Some(0);
    }
    var previousBlockHash := ext.blockHash(genesis);
    var i := 1;
    while i < |blocks|
      invariant 1 <= i <= |blocks|
      invariant previousBlockHash == ext.blockHash(blocks[i - 1])
      invariant VerdictFrom(blocks, 1, n, ext) == VerdictFrom(blocks, i, n, ext)
    {
      var current := blocks[i];
      var currentHash := ext.blockHash(current);
      LeadingZeroBytesAsPrefix(currentHash, n, n);
      if currentHash[..n] != ZERO_HASH[..n] {
        return rc, false, if firstInvalidPtrNull then None else Some(i);
      }
      if current.previousBlockHash != previousBlockHash {
        return rc, false, if firstInvalidPtrNull then None else Some(i);
      }
      var isEmpty := |current.transactions| == 0;
      if isEmpty {
        return rc, false, None;
      }
      var minting := current.transactions[0];
      if minting.amount != AMOUNT_GENERATED_DURING_MINTING || minting.senderPublicKey != minting.recipientPublicKey {
        return rc, false, if firstInvalidPtrNull then None else Some(i);
      }
      var j := 0;
      while j < |current.transactions|
        invariant 0 <= j <= |current.transactions|
        invariant forall k :: 0 <= k < j ==> ext.signatureIsValid(current.transactions[k])
      {
        if !ext.signatureIsValid(current.transactions[j]) {
          return rc, false, if firstInvalidPtrNull then None else Some(i);
        }
        j := j + 1;
      }
      previousBlockHash := currentHash;
      i := i + 1;
    }
    isValid, firstInvalid := true, None;
  }

  // ---- serialisation ----

  /** The body of blockchain_serialize's block loop: writes the block header
      after `buffer`, then each transaction record in list order. */
  method WriteBlock(buffer: seq<byte>, block: BlockValue) returns (out: seq<byte>)
    ensures out == buffer + EncodeBlock(block)
  {
    var ts := block.transactions;
    ghost var header := Encode64(I64ToU64(block.createdAt)) + block.previousBlockHash +
                        Encode64(block.proofOfWork) + BigEndian(|ts|, WORD_LEN);
    out := buffer + Encode64(I64ToU64(block.createdAt)) + block.previousBlockHash +
           Encode64(block.proofOfWork) + BigEndian(|ts|, WORD_LEN);
    var j := 0;
    while j < |ts|
      invariant 0 <= j <= |ts|
      invariant out == buffer + header + EncodeRecords(EncodeTransaction, ts[..j])
    {
      var t := ts[j];
      ghost var written := out;
      out := out + Encode64(I64ToU64(t.createdAt)) + t.senderPublicKey + t.recipientPublicKey +
             Encode64(t.amount) + Encode64(t.senderSignature.length) + t.senderSignature.bytes;
      assert out == written + EncodeTransaction(t);
      EncodeRecordsSnoc(EncodeTransaction, ts[..j], t);
      TakeOneMore(ts, j);
      assert out == buffer + header + EncodeRecords(EncodeTransaction, ts[..j + 1]);
      j := j + 1;
    }
    assert ts[..j] == ts;
  }

  /** blockchain_serialize, with every integer field taking the 8 bytes that
      htobe64 stores: the buffer is EncodeChain of the difficulty and the
      blocks in list order, and its size is the number of bytes written. */
  method Serialize(chain: Blockchain?, bufferPtrNull: bool, sizePtrNull: bool)
    returns (rc: ReturnCode, buffer: seq<byte>, bufferSize: nat)
    ensures rc == FailureInvalidInput <==> chain == null || bufferPtrNull || sizePtrNull
    ensures rc != FailureInvalidInput ==> rc == Success
    ensures rc == Success ==>
      buffer == EncodeChain(chain.numLeadingZeroBytes, chain.Blocks()) && bufferSize == |buffer|
  {
    if chain == null || bufferPtrNull || sizePtrNull {
      return FailureInvalidInput, [], 0;
    }
    var _, numBlocks := LinkedLists.Length(chain.blockList);
    var blocks := chain.blockList.items;
    ghost var head := Encode64(chain.numLeadingZeroBytes) + BigEndian(numBlocks, WORD_LEN);
    buffer := Encode64(chain.numLeadingZeroBytes) + BigEndian(numBlocks, WORD_LEN);
    var size := 16;
    var i := 0;
    while i < |blocks|
      invariant 0 <= i <= |blocks|
      invariant buffer == head + EncodeRecords(EncodeBlock, blocks[..i])
      invariant size == |buffer|
    {
      var block := blocks[i];
      buffer := WriteBlock(buffer, block);
      size := size + |EncodeBlock(block)|;
      EncodeRecordsSnoc(EncodeBlock, blocks[..i], block);
      TakeOneMore(blocks, i);
      assert buffer == head + EncodeRecords(EncodeBlock, blocks[..i + 1]);
      i := i + 1;
    }
    assert blocks[..i] == blocks;
    rc, bufferSize := Success, size;
  }

  // ---- deserialisation ----

  /** One transaction record read through the cursor, with the deserialiser's
      checks in its order; the outcome is DecodeTransaction's. */
  method ReadTransaction(buf: seq<byte>, pos: nat) returns (r: Result<(Transaction, nat), ReturnCode>)
    ensures r == DecodeTransaction(buf, pos)
  {
    var cursor := pos;
    if cursor + 8 > |buf| {
      return Err(FailureBufferTooSmall);
    }
    var createdAt := U64ToI64(Decode64(buf[cursor..cursor + 8]));
    cursor := cursor + 8;
    if cursor + MAX_SSH_KEY_LENGTH > |buf| {
      return Err(FailureBufferTooSmall);
    }
    var sender := buf[cursor..cursor + MAX_SSH_KEY_LENGTH];
    cursor := cursor + MAX_SSH_KEY_LENGTH;
    if cursor + MAX_SSH_KEY_LENGTH > |buf| {
      return Err(FailureBufferTooSmall);
    }
    var recipient := buf[cursor..cursor + MAX_SSH_KEY_LENGTH];
    cursor := cursor + MAX_SSH_KEY_LENGTH;
    if cursor + 8 > |buf| {
      return Err(FailureBufferTooSmall);
    }
    // The uint64_t read is stored into the uint32_t amount.
    var amount := TruncateToU32(Decode64(buf[cursor..cursor + 8]));
    cursor := cursor + 8;
    if cursor + 8 > |buf| {
      return Err(FailureBufferTooSmall);
    }
    var length := Decode64(buf[cursor..cursor + 8]);
    cursor := cursor + 8;
    if length > MAX_SSH_KEY_LENGTH {
      return Err(FailureSignatureTooLong);
    }
    if cursor + SIGNATURE_BYTES_LEN > |buf| {
      return Err(FailureBufferTooSmall);
    }
    var signature := buf[cursor..cursor + SIGNATURE_BYTES_LEN];
    cursor := cursor + SIGNATURE_BYTES_LEN;
    r := Ok((Transaction(createdAt, sender, recipient, amount, Signature(length, signature)), cursor));
  }

  /** The transaction loop of one block: appends each record read to `list`;
      succeeds exactly when DecodeRecords of DecodeTransaction does, with its transactions and
      end position, and otherwise fails with its error. */
  method ReadTransactions(buf: seq<byte>, pos: nat, count: u64, list: LinkedLists.LinkedList<Transaction>)
    returns (rc: ReturnCode, next: nat)
    requires list.items == []
    modifies list
    ensures rc == Success <==> DecodeRecords(DecodeTransaction, buf, pos, count).Ok?
    ensures rc != Success ==> rc == DecodeRecords(DecodeTransaction, buf, pos, count).error
    ensures rc == Success ==> (list.items, next) == DecodeRecords(DecodeTransaction, buf, pos, count).value
  {
    next := pos;
    var remaining: nat := count;
    ghost var whole := DecodeRecords(DecodeTransaction, buf, pos, count);
    PrefixedNothing(whole);
    while remaining > 0
      invariant whole == Prefixed(list.items, DecodeRecords(DecodeTransaction, buf, next, remaining))
    {
      var r := ReadTransaction(buf, next);
      if r.Err? {
        ReadFailure(DecodeTransaction, buf, next, remaining, list.items);
        return r.error, next;
      }
      var (t, cursor) := r.value;
      ReadOneMore(DecodeTransaction, buf, next, remaining, list.items, t, cursor);
      assert whole == Prefixed(list.items + [t], DecodeRecords(DecodeTransaction, buf, cursor, remaining - 1));
      var _ := LinkedLists.Append(list, t);
      next := cursor;
      remaining := remaining - 1;
    }
    assert list.items + [] == list.items;
    rc := Success;
  }

  /** One block record: the header fields, then a new transaction list filled
      by the transaction loop, then block_create and the stored created_at.
      The outcome is DecodeBlock's. */
  method ReadBlock(buf: seq<byte>, pos: nat, now: i64) returns (rc: ReturnCode, block: Block?, next: nat)
    ensures rc == Success <==> DecodeBlock(buf, pos).Ok?
    ensures rc != Success ==> rc == DecodeBlock(buf, pos).error && block == null
    ensures rc == Success ==> block != null && fresh(block)
    ensures rc == Success ==> (block.Value(), next) == DecodeBlock(buf, pos).value
  {
    next := pos;
    if pos + 8 > |buf| {
      return FailureBufferTooSmall, null, pos;
    }
    var createdAt := U64ToI64(Decode64(buf[pos..pos + 8]));
    if pos + 8 + HASH_LEN > |buf| {
      return FailureBufferTooSmall, null, pos;
    }
    var previousBlockHash := buf[pos + 8..pos + 40];
    if pos + 48 > |buf| {
      return FailureBufferTooSmall, null, pos;
    }
    var proofOfWork := Decode64(buf[pos + 40..pos + 48]);
    if pos + 56 > |buf| {
      return FailureBufferTooSmall, null, pos;
    }
    var numTransactions := Decode64(buf[pos + 48..pos + 56]);
    var _, list := LinkedLists.Create<Transaction>(false, Some(_ => ()), None);
    var cursor;
    rc, cursor := ReadTransactions(buf, pos + BLOCK_HEADER_LEN, numTransactions, list);
    if rc != Success {
      return rc, null, pos;
    }
    // block_create takes the proof of work as a uint32_t.
    rc, block := BlockCreate(false, list, TruncateToU32(proofOfWork), previousBlockHash, now);
    block.createdAt := createdAt;
    next := cursor;
  }

  /** The block loop of blockchain_deserialize: reads each block record and
      adds the block to `chain`; succeeds exactly when DecodeRecords of
      DecodeBlock does, with its blocks and end position, and otherwise fails
      with its error. */
  method ReadBlocks(buf: seq<byte>, pos: nat, count: u64, now: i64, chain: Blockchain) returns (rc: ReturnCode, next: nat)
    requires chain.Blocks() == []
    modifies chain.blockList
    ensures rc == Success <==> DecodeRecords(DecodeBlock, buf, pos, count).Ok?
    ensures rc != Success ==> rc == DecodeRecords(DecodeBlock, buf, pos, count).error
    ensures rc == Success ==> (chain.Blocks(), next) == DecodeRecords(DecodeBlock, buf, pos, count).value
  {
    next := pos;
    var remaining: nat := count;
    ghost var decode: Decoder<BlockValue> := DecodeBlock;
    ghost var whole := DecodeRecords(decode, buf, pos, count);
    ghost var collected: seq<BlockValue> := [];
    PrefixedNothing(whole);
    while remaining > 0
      invariant chain.blockList.items == collected
      invariant whole == Prefixed(collected, DecodeRecords(decode, buf, next, remaining))
    {
      var block: Block?, cursor;
      rc, block, cursor := ReadBlock(buf, next, now);
      if rc != Success {
        ReadFailure(decode, buf, next, remaining, collected);
        return rc, next;
      }
      ghost var b := block.Value();
      ReadOneMore(decode, buf, next, remaining, collected, b, cursor);
      rc := AddBlock(chain, block);
      collected := collected + [b];
      next := cursor;
      remaining := remaining - 1;
    }
    assert collected + [] == collected;
    rc := Success;
  }

  /** blockchain_deserialize: fails on a NULL out-pointer or buffer; otherwise
      reads the difficulty, creates the chain, and reads and adds the blocks in
      order. It succeeds exactly when DecodeChain does, giving back its
      difficulty and blocks, and otherwise fails with DecodeChain's error. The
      block_create inside stamps each block with `now` before the stored
      created_at replaces it. */
  method Deserialize(outPtrNull: bool, buffer: Option<seq<byte>>, now: i64) returns (rc: ReturnCode, chain: Blockchain?)
    ensures outPtrNull || buffer.None? ==> rc == FailureInvalidInput && chain == null
    ensures !outPtrNull && buffer.Some? ==> (rc == Success <==> DecodeChain(buffer.value).Ok?)
    ensures !outPtrNull && buffer.Some? && rc != Success ==> rc == DecodeChain(buffer.value).error && chain == null
    ensures rc == Success ==> chain != null && fresh(chain) && fresh(chain.blockList)
    ensures rc == Success ==> chain.numLeadingZeroBytes == DecodeChain(buffer.value).value.0
    ensures rc == Success ==> chain.Blocks() == DecodeChain(buffer.value).value.1
  {
    if outPtrNull || buffer.None? {
      return FailureInvalidInput, null;
    }
    var buf := buffer.value;
    if 8 > |buf| {
      return FailureBufferTooSmall, null;
    }
    var difficulty := Decode64(buf[0..8]);
    var newChain: Blockchain?;
    rc, newChain := BlockchainCreate(false, difficulty);
    if 16 > |buf| {
      return FailureBufferTooSmall, null;
    }
    var numBlocks := Decode64(buf[8..16]);
    var end;
    rc, end := ReadBlocks(buf, 16, numBlocks, now, newChain);
    if rc != Success {
      return rc, null;
    }
    chain := newChain;
  }

  /** Deserialising what the serialiser wrote gives back the difficulty and
      every block, whenever the chain is one the format can carry. */
  method SerializeRoundTrip(chain: Blockchain, now: i64) returns (copy: Blockchain?)
    requires Serializable(chain.Blocks())
    ensures copy != null
    ensures copy.numLeadingZeroBytes == chain.numLeadingZeroBytes && copy.Blocks() == chain.Blocks()
  {
    var _, buffer, _ := Serialize(chain, false, false);
    DecodeChainOfEncode(chain.numLeadingZeroBytes, chain.Blocks(), []);
    assert buffer + [] == buffer;
    var _, c := Deserialize(false, Some(buffer), now);
    copy := c;
  }
}
