/** The rules src/blockchain.c applies to blocks and chains, stated as functions
    of block values: the difficulty test, the verdict blockchain_verify reaches,
    and the outcome of blockchain_mine_block's nonce search. */
module ChainRules {
  import opened Types
  import opened Crypto
  import opened ReturnCodes
  import opened Transactions
  import opened Blocks

  /** What the model takes from code it cannot see: block_hash (SHA-256 over a
      block), transaction_verify_signature, and GENESIS_BLOCK_PROOF_OF_WORK,
      which no header of this snapshot defines. Both calls are taken to succeed. */
  datatype Externals = Externals(
    blockHash: BlockValue -> Hash,
    signatureIsValid: Transaction -> bool,
    genesisProofOfWork: u32)

  // ---- difficulty ----

  /** The first n bytes of the digest are zero. */
  predicate HasLeadingZeroBytes(h: Hash, n: nat)
    requires n <= HASH_LEN
  {
    forall i :: 0 <= i < n ==> h[i] == 0
  }

  /** The memcmp against the all-zero digest that blockchain_verify uses is the
      same test, and a hash meeting a difficulty meets every lower one. */
  lemma LeadingZeroBytesAsPrefix(h: Hash, n: nat, m: nat)
    requires m <= n <= HASH_LEN
    ensures HasLeadingZeroBytes(h, n) <==> h[..n] == ZERO_HASH[..n]
    ensures HasLeadingZeroBytes(h, n) ==> HasLeadingZeroBytes(h, m)
  {
    if h[..n] == ZERO_HASH[..n] {
      forall i | 0 <= i < n ensures h[i] == 0 {
        assert h[..n][i] == ZERO_HASH[..n][i];
      }
    }
  }

  // ---- the verdict of blockchain_verify ----

  /** Valid, or invalid with the index of the block reported as first invalid;
      None when the source sets is_valid_blockchain to false without reporting. */
  datatype Verdict = Valid | Invalid(firstInvalid: Option<nat>)

  /** The genesis block: no transactions, the fixed proof of work, and an all-zero
      previous hash. */
  predicate GenesisBlockIsValid(b: BlockValue, ext: Externals)
  {
    b.transactions == [] && b.proofOfWork == ext.genesisProofOfWork && b.previousBlockHash == ZERO_HASH
  }

  predicate AllSignaturesValid(ts: seq<Transaction>, ext: Externals)
  {
    forall i :: 0 <= i < |ts| ==> ext.signatureIsValid(ts[i])
  }

  /** How a later block fares against its predecessor: it passes, it fails and is
      reported as first invalid, or it fails without being reported. */
  datatype BlockCheck = Passes | Reported | Unreported

  /** The checks blockchain_verify makes of a later block, in the order it makes them. */
  function CheckBlock(prev: BlockValue, b: BlockValue, n: nat, ext: Externals): (r: BlockCheck)
    requires n <= HASH_LEN
    ensures r == Passes <==>
      HasLeadingZeroBytes(ext.blockHash(b), n) && b.previousBlockHash == ext.blockHash(prev) &&
      b.transactions != [] && IsMintingTransaction(b.transactions[0]) && AllSignaturesValid(b.transactions, ext)
    ensures r == Unreported <==>
      HasLeadingZeroBytes(ext.blockHash(b), n) && b.previousBlockHash == ext.blockHash(prev) && b.transactions == []
  {
    if !HasLeadingZeroBytes(ext.blockHash(b), n) then Reported
    else if b.previousBlockHash != ext.blockHash(prev) then Reported
    else if b.transactions == [] then Unreported
    else if !IsMintingTransaction(b.transactions[0]) then Reported
    else if !AllSignaturesValid(b.transactions, ext) then Reported
    else Passes
  }

  /** The check of block k (k >= 1) of a chain. */
  function Check(blocks: seq<BlockValue>, k: nat, n: nat, ext: Externals): BlockCheck
    requires 1 <= k < |blocks| && n <= HASH_LEN
  {
    CheckBlock(blocks[k - 1], blocks[k], n, ext)
  }

  /** Every block with index in [lo, hi) passes. */
  predicate AllPass(blocks: seq<BlockValue>, lo: nat, hi: nat, n: nat, ext: Externals)
    requires 1 <= lo && hi <= |blocks| && n <= HASH_LEN
  {
    forall k :: lo <= k < hi ==> Check(blocks, k, n, ext) == Passes
  }

  /** The walk over the later blocks, from index i on. */
  function VerdictFrom(blocks: seq<BlockValue>, i: nat, n: nat, ext: Externals): Verdict
    requires 1 <= i <= |blocks| && n <= HASH_LEN
    decreases |blocks| - i
  {
    if i == |blocks| then Valid
    else match Check(blocks, i, n, ext)
      case Passes => VerdictFrom(blocks, i + 1, n, ext)
      case Reported => Invalid(Some(i))
      case Unreported => Invalid(None)
  }

  /** The verdict blockchain_verify reaches on a chain whose difficulty is n. */
  function ChainVerdict(blocks: seq<BlockValue>, n: nat, ext: Externals): Verdict
    requires n <= HASH_LEN
  {
    if blocks == [] then Valid
    else if !GenesisBlockIsValid(blocks[0], ext) then Invalid(Some(0))
    else VerdictFrom(blocks, 1, n, ext)
  }

  /** The walk from i is decided by the first block from i on that does not pass. */
  lemma {:induction false} VerdictFromFirstFailure(blocks: seq<BlockValue>, i: nat, n: nat, ext: Externals)
    requires 1 <= i <= |blocks| && n <= HASH_LEN
    ensures VerdictFrom(blocks, i, n, ext) == Valid <==> AllPass(blocks, i, |blocks|, n, ext)
    ensures forall k :: i <= k < |blocks| && AllPass(blocks, i, k, n, ext) && Check(blocks, k, n, ext) == Reported ==>
      VerdictFrom(blocks, i, n, ext) == Invalid(Some(k))
    ensures forall k :: i <= k < |blocks| && AllPass(blocks, i, k, n, ext) && Check(blocks, k, n, ext) == Unreported ==>
      VerdictFrom(blocks, i, n, ext) == Invalid(None)
    decreases |blocks| - i
  {
    if i < |blocks| {
      VerdictFromFirstFailure(blocks, i + 1, n, ext);
      if Check(blocks, i, n, ext) == Passes {
        forall k | i < k <= |blocks| ensures AllPass(blocks, i, k, n, ext) <==> AllPass(blocks, i + 1, k, n, ext) {
        }
      } else {
        assert !AllPass(blocks, i, |blocks|, n, ext);
        forall k | i < k < |blocks| ensures !AllPass(blocks, i, k, n, ext) {
        }
      }
    }
  }

  /** Which blocks a verdict reports: the walk from i never reports a block it has
      not reached, and reports the first one that does not pass. */
  lemma {:induction false} VerdictFromReports(blocks: seq<BlockValue>, i: nat, n: nat, ext: Externals)
    requires 1 <= i <= |blocks| && n <= HASH_LEN
    ensures VerdictFrom(blocks, i, n, ext).Invalid? && VerdictFrom(blocks, i, n, ext).firstInvalid.Some? ==>
      var k := VerdictFrom(blocks, i, n, ext).firstInvalid.value;
      i <= k < |blocks| && AllPass(blocks, i, k, n, ext) && Check(blocks, k, n, ext) == Reported
    ensures VerdictFrom(blocks, i, n, ext) == Invalid(None) ==>
      exists k :: i <= k < |blocks| && AllPass(blocks, i, k, n, ext) && Check(blocks, k, n, ext) == Unreported
    decreases |blocks| - i
  {
    if i < |blocks| && Check(blocks, i, n, ext) == Passes {
      VerdictFromReports(blocks, i + 1, n, ext);
      var v := VerdictFrom(blocks, i, n, ext);
      if v == Invalid(None) {
        var k :| i + 1 <= k < |blocks| && AllPass(blocks, i + 1, k, n, ext) && Check(blocks, k, n, ext) == Unreported;
        assert AllPass(blocks, i, k, n, ext);
      }
    } else if i < |blocks| {
      assert AllPass(blocks, i, i, n, ext);
    }
  }

  /** A chain is valid exactly when it is empty, or its genesis block is valid and
      every later block passes every check. */
  lemma ChainVerdictValid(blocks: seq<BlockValue>, n: nat, ext: Externals)
    requires n <= HASH_LEN
    ensures ChainVerdict(blocks, n, ext) == Valid <==>
      blocks == [] || (GenesisBlockIsValid(blocks[0], ext) && AllPass(blocks, 1, |blocks|, n, ext))
  {
    if blocks != [] {
      VerdictFromFirstFailure(blocks, 1, n, ext);
    }
  }

  /** Block k is reported as first invalid exactly when it is the genesis block and
      that is invalid, or the genesis block is valid, every block between them
      passes, and block k fails a reported check. */
  lemma ChainVerdictReported(blocks: seq<BlockValue>, n: nat, ext: Externals, k: nat)
    requires n <= HASH_LEN
    ensures ChainVerdict(blocks, n, ext) == Invalid(Some(k)) <==>
      k < |blocks| &&
      if k == 0 then !GenesisBlockIsValid(blocks[0], ext)
      else GenesisBlockIsValid(blocks[0], ext) && AllPass(blocks, 1, k, n, ext) && Check(blocks, k, n, ext) == Reported
  {
    if blocks != [] && GenesisBlockIsValid(blocks[0], ext) {
      VerdictFromFirstFailure(blocks, 1, n, ext);
      VerdictFromReports(blocks, 1, n, ext);
    }
  }

  /** The chain is invalid with no block reported exactly when the genesis block is
      valid and the first later block that fails has an empty transaction list. */
  lemma ChainVerdictUnreported(blocks: seq<BlockValue>, n: nat, ext: Externals)
    requires n <= HASH_LEN
    ensures ChainVerdict(blocks, n, ext) == Invalid(None) <==>
      blocks != [] && GenesisBlockIsValid(blocks[0], ext) &&
      exists k :: 1 <= k < |blocks| && AllPass(blocks, 1, k, n, ext) && Check(blocks, k, n, ext) == Unreported
  {
    if blocks != [] && GenesisBlockIsValid(blocks[0], ext) {
      VerdictFromFirstFailure(blocks, 1, n, ext);
      VerdictFromReports(blocks, 1, n, ext);
    }
  }

  // ---- the nonce search of blockchain_mine_block ----

  /** The return code and the proof_of_work the block is left holding. */
  datatype MineOutcome = MineOutcome(rc: ReturnCode, proofOfWork: u32)

  /** Storing the uint64_t nonce into the uint32_t proof_of_work keeps its low 32 bits. */
  function NonceAsProof(k: nat): u32
  {
    k % TWO_TO_32
  }

  /** The hash of b with p as its proof of work meets difficulty n. */
  predicate IsValidNonce(b: BlockValue, p: u32, n: nat, blockHash: BlockValue -> Hash)
    requires n <= HASH_LEN
  {
    HasLeadingZeroBytes(blockHash(b.(proofOfWork := p)), n)
  }

  /** The search from iteration k on, on block b as it stands entering that
      iteration; stop(k) is the stop flag as iteration k reads it. The loop runs
      while k < UINT64_MAX; it checks the flag before storing the nonce. */
  function MineFrom(b: BlockValue, k: nat, n: nat, blockHash: BlockValue -> Hash, stop: nat -> bool): MineOutcome
    requires k <= UINT64_MAX && n <= HASH_LEN
    decreases UINT64_MAX - k
  {
    if k == UINT64_MAX then MineOutcome(FailureCouldNotFindValidProofOfWork, b.proofOfWork)
    else if stop(k) then MineOutcome(FailureStoppedEarly, b.proofOfWork)
    else if IsValidNonce(b, NonceAsProof(k), n, blockHash) then MineOutcome(Success, NonceAsProof(k))
    else MineFrom(b.(proofOfWork := NonceAsProof(k)), k + 1, n, blockHash, stop)
  }

  /** Every outcome of the search is one of its three codes, and everything in the
      block but the proof of work is left as it was. */
  lemma {:induction false} MineFromCodes(b: BlockValue, k: nat, n: nat, blockHash: BlockValue -> Hash, stop: nat -> bool)
    requires k <= UINT64_MAX && n <= HASH_LEN
    ensures MineFrom(b, k, n, blockHash, stop).rc in {Success, FailureStoppedEarly, FailureCouldNotFindValidProofOfWork}
    ensures MineFrom(b, k, n, blockHash, stop).rc == Success ==>
      IsValidNonce(b, MineFrom(b, k, n, blockHash, stop).proofOfWork, n, blockHash)
    decreases UINT64_MAX - k
  {
    if k < UINT64_MAX && !stop(k) && !IsValidNonce(b, NonceAsProof(k), n, blockHash) {
      MineFromCodes(b.(proofOfWork := NonceAsProof(k)), k + 1, n, blockHash, stop);
      assert b.(proofOfWork := NonceAsProof(k)).(proofOfWork := MineFrom(b, k, n, blockHash, stop).proofOfWork)
        == b.(proofOfWork := MineFrom(b, k, n, blockHash, stop).proofOfWork);
    }
  }

  /** p is the least nonce that is valid for b, and the stop flag is clear in
      every iteration up to and including the one that tries p. */
  predicate MinedLeast(b: BlockValue, p: u32, n: nat, blockHash: BlockValue -> Hash, stop: nat -> bool)
    requires n <= HASH_LEN
  {
    IsValidNonce(b, p, n, blockHash) &&
    (forall q: u32 :: q < p ==> !IsValidNonce(b, q, n, blockHash)) &&
    (forall j :: 0 <= j <= p ==> !stop(j))
  }

  /** From iteration k, once every earlier nonce failed and no flag was raised: a
      success is at an iteration below 2^32, so its nonce is the least valid one,
      and the flag was clear up to and including it. */
  lemma {:induction false} MineFromLeast(b: BlockValue, k: nat, n: nat, blockHash: BlockValue -> Hash, stop: nat -> bool)
    requires k <= UINT64_MAX && n <= HASH_LEN
    requires forall j :: 0 <= j < k ==> !stop(j) && !IsValidNonce(b, NonceAsProof(j), n, blockHash)
    ensures MineFrom(b, k, n, blockHash, stop).rc == Success ==>
      MinedLeast(b, MineFrom(b, k, n, blockHash, stop).proofOfWork, n, blockHash, stop)
    decreases UINT64_MAX - k
  {
    if k < UINT64_MAX && !stop(k) {
      var p := NonceAsProof(k);
      if IsValidNonce(b, p, n, blockHash) {
        // Past 2^32 the nonce p wraps below k, and iteration p already tried it.
        var wrappedIsValid := IsValidNonce(b, NonceAsProof(p), n, blockHash);
        assert p < k ==> !wrappedIsValid;
        assert k < TWO_TO_32;
        forall q: u32 | q < p ensures !IsValidNonce(b, q, n, blockHash) {
          assert NonceAsProof(q) == q;
        }
      } else {
        var b' := b.(proofOfWork := p);
        forall j | 0 <= j < k + 1 ensures !stop(j) && !IsValidNonce(b', NonceAsProof(j), n, blockHash) {
          assert b'.(proofOfWork := NonceAsProof(j)) == b.(proofOfWork := NonceAsProof(j));
        }
        MineFromLeast(b', k + 1, n, blockHash, stop);
        forall q: u32 ensures IsValidNonce(b', q, n, blockHash) == IsValidNonce(b, q, n, blockHash) {
          assert b'.(proofOfWork := q) == b.(proofOfWork := q);
        }
      }
    }
  }

  /** When mining succeeds, the proof of work found is the least nonce whose block
      hash meets the difficulty, and the stop flag was clear until then. */
  lemma MinedProofIsLeastValidNonce(b: BlockValue, n: nat, blockHash: BlockValue -> Hash, stop: nat -> bool)
    requires n <= HASH_LEN
    ensures MineFrom(b, 0, n, blockHash, stop).rc == Success ==>
      MinedLeast(b, MineFrom(b, 0, n, blockHash, stop).proofOfWork, n, blockHash, stop)
  {
    MineFromLeast(b, 0, n, blockHash, stop);
  }

  /** Conversely, if p is the least valid nonce and the flag stays clear through
      iteration p, mining succeeds with p. */
  lemma {:induction false} LeastValidNonceIsMined(b: BlockValue, k: nat, p: u32, n: nat, blockHash: BlockValue -> Hash, stop: nat -> bool)
    requires k <= p && n <= HASH_LEN
    requires IsValidNonce(b, p, n, blockHash)
    requires forall q: u32 :: q < p ==> !IsValidNonce(b, q, n, blockHash)
    requires forall j :: 0 <= j <= p ==> !stop(j)
    ensures MineFrom(b, k, n, blockHash, stop) == MineOutcome(Success, p)
    decreases p - k
  {
    assert NonceAsProof(k) == k;
    if k < p {
      var b' := b.(proofOfWork := NonceAsProof(k));
      forall q: u32 ensures IsValidNonce(b', q, n, blockHash) == IsValidNonce(b, q, n, blockHash) {
        assert b'.(proofOfWork := q) == b.(proofOfWork := q);
      }
      LeastValidNonceIsMined(b', k + 1, p, n, blockHash, stop);
    }
  }

  /** The search stops at the first iteration whose flag is raised, without trying
      that nonce: the block keeps the nonce of the iteration before (or its own
      proof of work, if the flag was raised at once). */
  lemma {:induction false} MineStopsAtFlag(b: BlockValue, k: nat, s: nat, n: nat, blockHash: BlockValue -> Hash, stop: nat -> bool)
    requires k <= s < UINT64_MAX && n <= HASH_LEN
    requires stop(s)
    requires forall j :: k <= j < s ==> !stop(j) && !IsValidNonce(b, NonceAsProof(j), n, blockHash)
    ensures MineFrom(b, k, n, blockHash, stop) ==
      MineOutcome(FailureStoppedEarly, if s == k then b.proofOfWork else NonceAsProof(s - 1))
    decreases s - k
  {
    if k < s {
      var b' := b.(proofOfWork := NonceAsProof(k));
      forall j | k + 1 <= j < s ensures !IsValidNonce(b', NonceAsProof(j), n, blockHash) {
        assert b'.(proofOfWork := NonceAsProof(j)) == b.(proofOfWork := NonceAsProof(j));
      }
      MineStopsAtFlag(b', k + 1, s, n, blockHash, stop);
    }
  }
}
