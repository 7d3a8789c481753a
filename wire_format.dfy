/** The byte layout blockchain_serialize writes and blockchain_deserialize reads
    (src/blockchain.c), as functions of block values: every integer as 8
    big-endian bytes, hashes and keys as their raw bytes, records back to back. */
module WireFormat {
  import opened Types
  import opened Crypto
  import opened ReturnCodes
  import opened Endian
  import opened Transactions
  import opened Blocks

  /** created_at, sender key, recipient key, amount, signature length, signature bytes. */
  const TRANSACTION_RECORD_LEN: nat := 8 + MAX_SSH_KEY_LENGTH + MAX_SSH_KEY_LENGTH + 8 + 8 + SIGNATURE_BYTES_LEN
  /** created_at, previous hash, proof of work, transaction count. */
  const BLOCK_HEADER_LEN: nat := 8 + HASH_LEN + 8 + 8

  // ---- records back to back ----

  /** A reader of one record at a position: the record and the position after
      it, or the error code the deserialiser returns there. */
  type Decoder<T> = (seq<byte>, nat) -> Result<(T, nat), ReturnCode>

  /** The records of xs, each as encode lays it out, one after another. */
  function EncodeRecords<T>(encode: T -> seq<byte>, xs: seq<T>): seq<byte>
  {
    if xs == [] then [] else encode(xs[0]) + EncodeRecords(encode, xs[1..])
  }

  /** count records read one after another from pos: the first error stops the
      reading and is the outcome. */
  function DecodeRecords<T>(decode: Decoder<T>, buf: seq<byte>, pos: nat, count: nat): Result<(seq<T>, nat), ReturnCode>
    decreases count
  {
    if count == 0 then Ok(([], pos))
    else match decode(buf, pos)
      case Err(e) => Err(e)
      case Ok((x, next)) => Cons(x, DecodeRecords(decode, buf, next, count - 1))
  }

  /** x in front of the records a successful read gives; an error stays as it is. */
  function Cons<T>(x: T, r: Result<(seq<T>, nat), ReturnCode>): Result<(seq<T>, nat), ReturnCode>
  {
    match r
    case Err(e) => Err(e)
    case Ok(v) => Ok(([x] + v.0, v.1))
  }

  /** xs in front of the records a successful read gives; an error stays as it is.
      A reader that has already collected xs is in this state. */
  function Prefixed<T>(xs: seq<T>, r: Result<(seq<T>, nat), ReturnCode>): Result<(seq<T>, nat), ReturnCode>
  {
    match r
    case Err(e) => Err(e)
    case Ok(v) => Ok((xs + v.0, v.1))
  }

  /** Collecting one more record moves it from the pending read to the prefix. */
  lemma PrefixedCons<T>(xs: seq<T>, x: T, r: Result<(seq<T>, nat), ReturnCode>)
    ensures Prefixed(xs, Cons(x, r)) == Prefixed(xs + [x], r)
  {
    if r.Ok? {
      assert xs + ([x] + r.value.0) == (xs + [x]) + r.value.0;
    }
  }

  lemma PrefixedNothing<T>(r: Result<(seq<T>, nat), ReturnCode>)
    ensures Prefixed([], r) == r
  {
    if r.Ok? {
      assert [] + r.value.0 == r.value.0;
    }
  }

  /** A read loop that has collected `xs` and now reads a record `x` ending at
      `next` has collected `xs + [x]`, with one record fewer to go. */
  lemma ReadOneMore<T>(decode: Decoder<T>, buf: seq<byte>, pos: nat, count: nat, xs: seq<T>, x: T, next: nat)
    requires count >= 1 && decode(buf, pos) == Ok((x, next))
    ensures Prefixed(xs, DecodeRecords(decode, buf, pos, count)) ==
      Prefixed(xs + [x], DecodeRecords(decode, buf, next, count - 1))
  {
    assert DecodeRecords(decode, buf, pos, count) == Cons(x, DecodeRecords(decode, buf, next, count - 1));
    PrefixedCons(xs, x, DecodeRecords(decode, buf, next, count - 1));
  }

  /** A record that fails to read ends the whole read with its error, whatever
      was collected before it. */
  lemma ReadFailure<T>(decode: Decoder<T>, buf: seq<byte>, pos: nat, count: nat, xs: seq<T>)
    requires count >= 1 && decode(buf, pos).Err?
    ensures Prefixed(xs, DecodeRecords(decode, buf, pos, count)) == Err(decode(buf, pos).error)
  {
  }

  /** Appending a record extends the encoding of a list by that record, which is
      how the serialiser's loops build it. */
  lemma {:induction false} EncodeRecordsSnoc<T>(encode: T -> seq<byte>, xs: seq<T>, x: T)
    ensures EncodeRecords(encode, xs + [x]) == EncodeRecords(encode, xs) + encode(x)
  {
    if xs != [] {
      assert (xs + [x])[1..] == xs[1..] + [x];
      EncodeRecordsSnoc(encode, xs[1..], x);
    }
  }

  /** Records of one fixed length k take k bytes each. */
  lemma {:induction false} EncodeRecordsLength<T>(encode: T -> seq<byte>, xs: seq<T>, k: nat)
    requires forall x :: |encode(x)| == k
    ensures |EncodeRecords(encode, xs)| == k * |xs|
  {
    if xs != [] {
      EncodeRecordsLength(encode, xs[1..], k);
    }
  }

  // ---- encoding ----

  function EncodeTransaction(t: Transaction): (r: seq<byte>)
    ensures |r| == TRANSACTION_RECORD_LEN
  {
    Encode64(I64ToU64(t.createdAt)) + t.senderPublicKey + t.recipientPublicKey +
    Encode64(t.amount) + Encode64(t.senderSignature.length) + t.senderSignature.bytes
  }

  /** A block record: its header, then its transactions. The count is a uint64_t. */
  function EncodeBlock(b: BlockValue): (r: seq<byte>)
    ensures |r| == BLOCK_HEADER_LEN + TRANSACTION_RECORD_LEN * |b.transactions|
  {
    EncodeRecordsLength(EncodeTransaction, b.transactions, TRANSACTION_RECORD_LEN);
    Encode64(I64ToU64(b.createdAt)) + b.previousBlockHash + Encode64(b.proofOfWork) +
    BigEndian(|b.transactions|, WORD_LEN) + EncodeRecords(EncodeTransaction, b.transactions)
  }

  /** The whole serialisation: the difficulty, the block count, the blocks. */
  function EncodeChain(difficulty: u64, bs: seq<BlockValue>): seq<byte>
  {
    Encode64(difficulty) + BigEndian(|bs|, WORD_LEN) + EncodeRecords(EncodeBlock, bs)
  }

  // ---- decoding, with the deserialiser's checks ----

  /** The big-endian word at pos. */
  function Word(buf: seq<byte>, pos: nat): u64
    requires pos + 8 <= |buf|
  {
    Decode64(buf[pos..pos + 8])
  }

  /** One transaction record at pos. The deserialiser checks each field against
      the end of the buffer before reading it, so a buffer that ends before the
      signature length is complete gives FAILURE_BUFFER_TOO_SMALL; a signature
      length over MAX_SSH_KEY_LENGTH then gives FAILURE_SIGNATURE_TOO_LONG, and
      the signature block must fit whole. Fields: created_at at 0, the sender
      key at 8, the recipient key at 1032, the amount at 2056, the signature
      length at 2064, the signature bytes at 2072. The created_at word becomes
      a time_t, the amount word a uint32_t. */
  function DecodeTransaction(buf: seq<byte>, pos: nat): Result<(Transaction, nat), ReturnCode>
  {
    if pos + 2072 > |buf| then Err(FailureBufferTooSmall)
    else if Word(buf, pos + 2064) > MAX_SSH_KEY_LENGTH then Err(FailureSignatureTooLong)
    else if pos + TRANSACTION_RECORD_LEN > |buf| then Err(FailureBufferTooSmall)
    else
      var t := Transaction(U64ToI64(Word(buf, pos)), buf[pos + 8..pos + 1032], buf[pos + 1032..pos + 2056],
                           TruncateToU32(Word(buf, pos + 2056)),
                           Signature(Word(buf, pos + 2064), buf[pos + 2072..pos + TRANSACTION_RECORD_LEN]));
      Ok((t, pos + TRANSACTION_RECORD_LEN))
  }

  /** One block record at pos: created_at at 0, the previous hash at 8, the
      proof of work at 40, the transaction count at 48, then the transactions.
      The proof-of-work word becomes a uint32_t. */
  function DecodeBlock(buf: seq<byte>, pos: nat): Result<(BlockValue, nat), ReturnCode>
  {
    if pos + BLOCK_HEADER_LEN > |buf| then Err(FailureBufferTooSmall)
    else match DecodeRecords(DecodeTransaction, buf, pos + BLOCK_HEADER_LEN, Word(buf, pos + 48))
      case Err(e) => Err(e)
      case Ok((ts, next)) =>
        Ok((BlockValue(U64ToI64(Word(buf, pos)), ts, TruncateToU32(Word(buf, pos + 40)), buf[pos + 8..pos + 40]), next))
  }

  /** The difficulty and blocks blockchain_deserialize reads from buf (the
      buffer_size bytes it is given): the difficulty at 0, the block count at
      8, the blocks from 16 on; bytes after the last record are ignored. */
  function DecodeChain(buf: seq<byte>): Result<(u64, seq<BlockValue>), ReturnCode>
  {
    if 16 > |buf| then Err(FailureBufferTooSmall)
    else match DecodeRecords(DecodeBlock, buf, 16, Word(buf, 8))
      case Err(e) => Err(e)
      case Ok((bs, _)) => Ok((Word(buf, 0), bs))
  }

  // ---- the round trip ----

  /** buf holds the bytes e from pos on. */
  predicate At(buf: seq<byte>, pos: nat, e: seq<byte>)
  {
    pos + |e| <= |buf| && buf[pos..pos + |e|] == e
  }

  lemma AtSplit(buf: seq<byte>, pos: nat, a: seq<byte>, b: seq<byte>)
    requires At(buf, pos, a + b)
    ensures At(buf, pos, a) && At(buf, pos + |a|, b)
  {
    assert buf[pos..pos + |a|] == (a + b)[..|a|];
    assert buf[pos + |a|..pos + |a| + |b|] == (a + b)[|a|..];
  }

  lemma WordAt(buf: seq<byte>, pos: nat, x: u64)
    requires At(buf, pos, Encode64(x))
    ensures pos + 8 <= |buf| && Word(buf, pos) == x
  {
    Encode64OfDecode64(buf[pos..pos + 8]);
    Encode64Injective(Word(buf, pos), x);
  }

  /** decode reads back, wherever it stands in buf, every record of encode's
      that fits. */
  ghost predicate ReadsBack<T(!new)>(decode: Decoder<T>, encode: T -> seq<byte>, fits: T -> bool, buf: seq<byte>)
  {
    forall pos: nat, x {:trigger At(buf, pos, encode(x))} :: fits(x) && At(buf, pos, encode(x)) ==> decode(buf, pos) == Ok((x, (pos + |encode(x)|) as nat))
  }

  /** Records that fit, laid out one after another, read back in order. */
  lemma {:induction false} DecodeRecordsOfEncode<T(!new)>(decode: Decoder<T>, encode: T -> seq<byte>, fits: T -> bool,
                                                    buf: seq<byte>, pos: nat, xs: seq<T>)
    requires ReadsBack(decode, encode, fits, buf)
    requires At(buf, pos, EncodeRecords(encode, xs)) && forall i :: 0 <= i < |xs| ==> fits(xs[i])
    ensures DecodeRecords(decode, buf, pos, |xs|) == Ok((xs, pos + |EncodeRecords(encode, xs)|))
    decreases |xs|
  {
    if xs != [] {
      var x, rest := xs[0], xs[1..];
      var next: nat := pos + |encode(x)|;
      AtSplit(buf, pos, encode(x), EncodeRecords(encode, rest));
      assert decode(buf, pos) == Ok((x, next));
      assert forall i :: 0 <= i < |rest| ==> fits(rest[i]) by {
        forall i | 0 <= i < |rest| ensures fits(rest[i]) { assert rest[i] == xs[i + 1]; }
      }
      DecodeRecordsOfEncode(decode, encode, fits, buf, next, rest);
      assert [x] + rest == xs;
    }
  }

  /** A signature length the deserialiser accepts. */
  predicate TransactionFits(t: Transaction)
  {
    t.senderSignature.length <= MAX_SSH_KEY_LENGTH
  }

  /** Every transaction's signature length is one the deserialiser accepts. */
  predicate SignaturesFit(ts: seq<Transaction>)
  {
    forall i :: 0 <= i < |ts| ==> TransactionFits(ts[i])
  }

  /** A block the format can carry back: its transaction count fits a uint64_t
      and every signature length is accepted. */
  predicate BlockFits(b: BlockValue)
  {
    |b.transactions| < TWO_TO_64 && SignaturesFit(b.transactions)
  }

  /** A chain the format can carry back. */
  predicate Serializable(bs: seq<BlockValue>)
  {
    |bs| < TWO_TO_64 && forall i :: 0 <= i < |bs| ==> BlockFits(bs[i])
  }

  lemma DecodeTransactionOfEncode(buf: seq<byte>, pos: nat, t: Transaction)
    requires At(buf, pos, EncodeTransaction(t)) && TransactionFits(t)
    ensures DecodeTransaction(buf, pos) == Ok((t, pos + TRANSACTION_RECORD_LEN))
  {
    var c := Encode64(I64ToU64(t.createdAt));
    var s, r := t.senderPublicKey, t.recipientPublicKey;
    var a, l := Encode64(t.amount), Encode64(t.senderSignature.length);
    var g := t.senderSignature.bytes;
    AtSplit(buf, pos, c + s + r + a + l, g);
    AtSplit(buf, pos, c + s + r + a, l);
    AtSplit(buf, pos, c + s + r, a);
    AtSplit(buf, pos, c + s, r);
    AtSplit(buf, pos, c, s);
    WordAt(buf, pos, I64ToU64(t.createdAt));
    WordAt(buf, pos + 2056, t.amount);
    WordAt(buf, pos + 2064, t.senderSignature.length);
    U64ToI64OfI64ToU64(t.createdAt);
  }

  lemma TransactionsReadBack(buf: seq<byte>)
    ensures ReadsBack(DecodeTransaction, EncodeTransaction, TransactionFits, buf)
  {
    forall pos: nat, t {:trigger At(buf, pos, EncodeTransaction(t))} | TransactionFits(t) && At(buf, pos, EncodeTransaction(t))
      ensures DecodeTransaction(buf, pos) == Ok((t, (pos + |EncodeTransaction(t)|) as nat))
    {
      DecodeTransactionOfEncode(buf, pos, t);
    }
  }

  /** The header fields of a block record stand at their offsets, and its
      transaction records follow the header. */
  lemma BlockHeaderAt(buf: seq<byte>, pos: nat, b: BlockValue)
    requires At(buf, pos, EncodeBlock(b)) && |b.transactions| < TWO_TO_64
    ensures pos + BLOCK_HEADER_LEN <= |buf|
    ensures Word(buf, pos) == I64ToU64(b.createdAt) && buf[pos + 8..pos + 40] == b.previousBlockHash
    ensures Word(buf, pos + 40) == b.proofOfWork && Word(buf, pos + 48) == |b.transactions|
    ensures At(buf, pos + BLOCK_HEADER_LEN, EncodeRecords(EncodeTransaction, b.transactions))
  {
    var c := Encode64(I64ToU64(b.createdAt));
    var h := b.previousBlockHash;
    var p, k := Encode64(b.proofOfWork), BigEndian(|b.transactions|, WORD_LEN);
    AtSplit(buf, pos, c + h + p + k, EncodeRecords(EncodeTransaction, b.transactions));
    AtSplit(buf, pos, c + h + p, k);
    AtSplit(buf, pos, c + h, p);
    AtSplit(buf, pos, c, h);
    WordAt(buf, pos, I64ToU64(b.createdAt));
    WordAt(buf, pos + 40, b.proofOfWork);
    WordAt(buf, pos + 48, |b.transactions|);
  }

  lemma DecodeBlockOfEncode(buf: seq<byte>, pos: nat, b: BlockValue)
    requires At(buf, pos, EncodeBlock(b)) && BlockFits(b)
    ensures DecodeBlock(buf, pos) == Ok((b, (pos + |EncodeBlock(b)|) as nat))
  {
    BlockHeaderAt(buf, pos, b);
    TransactionsReadBack(buf);
    DecodeRecordsOfEncode(DecodeTransaction, EncodeTransaction, TransactionFits, buf, pos + BLOCK_HEADER_LEN, b.transactions);
    U64ToI64OfI64ToU64(b.createdAt);
  }

  lemma BlocksReadBack(buf: seq<byte>)
    ensures ReadsBack(DecodeBlock, EncodeBlock, BlockFits, buf)
  {
    forall pos: nat, b {:trigger At(buf, pos, EncodeBlock(b))} | BlockFits(b) && At(buf, pos, EncodeBlock(b))
      ensures DecodeBlock(buf, pos) == Ok((b, (pos + |EncodeBlock(b)|) as nat))
    {
      DecodeBlockOfEncode(buf, pos, b);
    }
  }

  /** Deserialising a serialisation gives back the difficulty and the blocks,
      whatever bytes follow it in the buffer. */
  lemma DecodeChainOfEncode(difficulty: u64, bs: seq<BlockValue>, rest: seq<byte>)
    requires Serializable(bs)
    ensures DecodeChain(EncodeChain(difficulty, bs) + rest) == Ok((difficulty, bs))
  {
    var buf := EncodeChain(difficulty, bs) + rest;
    var d, k := Encode64(difficulty), BigEndian(|bs|, WORD_LEN);
    assert At(buf, 0, d + k + EncodeRecords(EncodeBlock, bs)) by {
      assert buf[..|EncodeChain(difficulty, bs)|] == EncodeChain(difficulty, bs);
    }
    AtSplit(buf, 0, d + k, EncodeRecords(EncodeBlock, bs));
    AtSplit(buf, 0, d, k);
    WordAt(buf, 0, difficulty);
    WordAt(buf, 8, |bs|);
    BlocksReadBack(buf);
    DecodeRecordsOfEncode(DecodeBlock, EncodeBlock, BlockFits, buf, 16, bs);
  }

  // ---- truncated buffers ----

  /** buf ends before the bytes e that it holds from pos on are complete. */
  predicate CutShort(buf: seq<byte>, pos: nat, e: seq<byte>)
  {
    pos <= |buf| < pos + |e| && buf[pos..] == e[..|buf| - pos]
  }

  lemma CutShortSplit(buf: seq<byte>, pos: nat, a: seq<byte>, b: seq<byte>)
    requires CutShort(buf, pos, a + b)
    ensures CutShort(buf, pos, a) || (At(buf, pos, a) && CutShort(buf, pos + |a|, b))
  {
    if pos + |a| <= |buf| {
      assert buf[pos..pos + |a|] == buf[pos..][..|a|];
      assert buf[pos + |a|..] == buf[pos..][|a|..];
    } else {
      assert buf[pos..] == (a + b)[..|buf| - pos];
    }
  }

  /** decode rejects, wherever it stands in buf, every record of encode's that
      fits but that the end of buf cuts short. */
  ghost predicate RejectsCutShort<T(!new)>(decode: Decoder<T>, encode: T -> seq<byte>, fits: T -> bool, buf: seq<byte>)
  {
    forall pos: nat, x {:trigger CutShort(buf, pos, encode(x))} :: fits(x) && CutShort(buf, pos, encode(x)) ==> decode(buf, pos) == Err(FailureBufferTooSmall)
  }

  /** A list of records that the end of buf cuts short is rejected. */
  lemma {:induction false} DecodeRecordsCutShort<T(!new)>(decode: Decoder<T>, encode: T -> seq<byte>, fits: T -> bool,
                                                    buf: seq<byte>, pos: nat, xs: seq<T>)
    requires ReadsBack(decode, encode, fits, buf) && RejectsCutShort(decode, encode, fits, buf)
    requires CutShort(buf, pos, EncodeRecords(encode, xs)) && forall i :: 0 <= i < |xs| ==> fits(xs[i])
    ensures DecodeRecords(decode, buf, pos, |xs|) == Err(FailureBufferTooSmall)
    decreases |xs|
  {
    CutShortSplit(buf, pos, encode(xs[0]), EncodeRecords(encode, xs[1..]));
    if At(buf, pos, encode(xs[0])) {
      DecodeRecordsCutShort(decode, encode, fits, buf, pos + |encode(xs[0])|, xs[1..]);
    }
  }

  lemma DecodeTransactionCutShort(buf: seq<byte>, pos: nat, t: Transaction)
    requires CutShort(buf, pos, EncodeTransaction(t)) && TransactionFits(t)
    ensures DecodeTransaction(buf, pos) == Err(FailureBufferTooSmall)
  {
    var c := Encode64(I64ToU64(t.createdAt));
    var s, r := t.senderPublicKey, t.recipientPublicKey;
    var a, l := Encode64(t.amount), Encode64(t.senderSignature.length);
    var g := t.senderSignature.bytes;
    CutShortSplit(buf, pos, c + s + r + a + l, g);
    if At(buf, pos, c + s + r + a + l) {
      AtSplit(buf, pos, c + s + r + a, l);
      WordAt(buf, pos + 2064, t.senderSignature.length);
    }
  }

  lemma TransactionsRejectCutShort(buf: seq<byte>)
    ensures RejectsCutShort(DecodeTransaction, EncodeTransaction, TransactionFits, buf)
  {
    forall pos: nat, t {:trigger CutShort(buf, pos, EncodeTransaction(t))} | TransactionFits(t) && CutShort(buf, pos, EncodeTransaction(t))
      ensures DecodeTransaction(buf, pos) == Err(FailureBufferTooSmall)
    {
      DecodeTransactionCutShort(buf, pos, t);
    }
  }

  lemma DecodeBlockCutShort(buf: seq<byte>, pos: nat, b: BlockValue)
    requires CutShort(buf, pos, EncodeBlock(b)) && BlockFits(b)
    ensures DecodeBlock(buf, pos) == Err(FailureBufferTooSmall)
  {
    var c := Encode64(I64ToU64(b.createdAt));
    var h := b.previousBlockHash;
    var p, k := Encode64(b.proofOfWork), Encode64(|b.transactions|);
    CutShortSplit(buf, pos, c + h + p + k, EncodeRecords(EncodeTransaction, b.transactions));
    if At(buf, pos, c + h + p + k) {
      AtSplit(buf, pos, c + h + p, k);
      WordAt(buf, pos + 48, |b.transactions|);
      TransactionsReadBack(buf);
      TransactionsRejectCutShort(buf);
      DecodeRecordsCutShort(DecodeTransaction, EncodeTransaction, TransactionFits, buf, pos + BLOCK_HEADER_LEN, b.transactions);
    }
  }

  lemma BlocksRejectCutShort(buf: seq<byte>)
    ensures RejectsCutShort(DecodeBlock, EncodeBlock, BlockFits, buf)
  {
    forall pos: nat, b {:trigger CutShort(buf, pos, EncodeBlock(b))} | BlockFits(b) && CutShort(buf, pos, EncodeBlock(b))
      ensures DecodeBlock(buf, pos) == Err(FailureBufferTooSmall)
    {
      DecodeBlockCutShort(buf, pos, b);
    }
  }

  /** Every proper prefix of a serialisation is rejected with
      FAILURE_BUFFER_TOO_SMALL: no record is read past the end of the buffer. */
  lemma DecodeChainCutShort(difficulty: u64, bs: seq<BlockValue>, size: nat)
    requires Serializable(bs) && size < |EncodeChain(difficulty, bs)|
    ensures DecodeChain(EncodeChain(difficulty, bs)[..size]) == Err(FailureBufferTooSmall)
  {
    var e := EncodeChain(difficulty, bs);
    var buf := e[..size];
    var d, k := Encode64(difficulty), Encode64(|bs|);
    assert CutShort(buf, 0, e);
    CutShortSplit(buf, 0, d + k, EncodeRecords(EncodeBlock, bs));
    if At(buf, 0, d + k) {
      AtSplit(buf, 0, d, k);
      WordAt(buf, 8, |bs|);
      BlocksReadBack(buf);
      BlocksRejectCutShort(buf);
      DecodeRecordsCutShort(DecodeBlock, EncodeBlock, BlockFits, buf, 16, bs);
    }
  }

  /** A signature length the deserialiser refuses is reported as such, even when
      the rest of the record is intact. */
  lemma DecodeTransactionSignatureTooLong(buf: seq<byte>, pos: nat, t: Transaction)
    requires At(buf, pos, EncodeTransaction(t)) && t.senderSignature.length > MAX_SSH_KEY_LENGTH
    ensures DecodeTransaction(buf, pos) == Err(FailureSignatureTooLong)
  {
    var c := Encode64(I64ToU64(t.createdAt));
    var s, r := t.senderPublicKey, t.recipientPublicKey;
    var a, l := Encode64(t.amount), Encode64(t.senderSignature.length);
    var g := t.senderSignature.bytes;
    AtSplit(buf, pos, c + s + r + a + l, g);
    AtSplit(buf, pos, c + s + r + a, l);
    AtSplit(buf, pos, c + s + r, a);
    AtSplit(buf, pos, c + s, r);
    AtSplit(buf, pos, c, s);
    WordAt(buf, pos, I64ToU64(t.createdAt));
    WordAt(buf, pos + 2056, t.amount);
    WordAt(buf, pos + 2064, t.senderSignature.length);
  }

  // ---- the serialiser and the signature check as written ----

  /** A transaction record as blockchain_serialize writes it: the 8-byte store of
      the amount is followed by an advance of sizeof(uint32_t), so the signature
      length's store overwrites all but its first 4 bytes. */
  function EncodeTransactionAsWritten(t: Transaction): (r: seq<byte>)
    ensures |r| == TRANSACTION_RECORD_LEN - 4
  {
    Encode64(I64ToU64(t.createdAt)) + t.senderPublicKey + t.recipientPublicKey +
    Encode64(t.amount)[..4] + Encode64(t.senderSignature.length) + t.senderSignature.bytes
  }

  /** A block record as written: the same overlap hides the proof of work under
      the transaction count. */
  function EncodeBlockAsWritten(b: BlockValue): (r: seq<byte>)
  {
    Encode64(I64ToU64(b.createdAt)) + b.previousBlockHash + Encode64(b.proofOfWork)[..4] +
    BigEndian(|b.transactions|, WORD_LEN) + EncodeRecords(EncodeTransactionAsWritten, b.transactions)
  }

  function EncodeChainAsWritten(difficulty: u64, bs: seq<BlockValue>): seq<byte>
  {
    Encode64(difficulty) + BigEndian(|bs|, WORD_LEN) + EncodeRecords(EncodeBlockAsWritten, bs)
  }

  /** The surviving half-word is always zero: a uint32_t has no high bytes. */
  lemma HighHalfIsZero(x: u32)
    ensures Encode64(x)[..4] == [0, 0, 0, 0]
  {
    Encode64Layout(x);
    assert Pow256(7) == 0x100_0000_0000_0000 && Pow256(6) == 0x1_0000_0000_0000;
    assert Pow256(5) == 0x100_0000_0000 && Pow256(4) == 0x1_0000_0000;
    assert Encode64(x)[0] == 0 && Encode64(x)[1] == 0 && Encode64(x)[2] == 0 && Encode64(x)[3] == 0;
  }

  /** As written, a chain holding just a genesis block (no transactions) cannot be
      read back: the record is 4 bytes short and the deserialiser runs out of
      buffer reading the transaction count. */
  lemma GenesisRoundTripFailsAsWritten(difficulty: u64, b: BlockValue)
    requires b.transactions == []
    ensures |EncodeChainAsWritten(difficulty, [b])| == 16 + BLOCK_HEADER_LEN - 4
    ensures DecodeChain(EncodeChainAsWritten(difficulty, [b])) == Err(FailureBufferTooSmall)
  {
    var buf := EncodeChainAsWritten(difficulty, [b]);
    assert EncodeRecords(EncodeBlockAsWritten, [b]) == EncodeBlockAsWritten(b);
    assert buf[..8] == Encode64(difficulty);
    assert buf[8..16] == BigEndian(1, 8);
    WordAt(buf, 0, difficulty);
    WordAt(buf, 8, 1);
  }

  /** The bounds check before the signature copy as written (src/blockchain.c:756-766):
      it passes when `length` bytes remain after the cursor. */
  predicate SignatureCheckPassesAsWritten(buf: seq<byte>, pos: nat, length: u64)
  {
    pos + length <= |buf|
  }

  /** As written, a record cut off right after a zero signature length passes the
      check, and the copy of SIGNATURE_BYTES_LEN bytes then reads past the end of
      the buffer. With the whole block checked, the record is rejected. */
  lemma SignatureOverReadAsWritten(t: Transaction)
    requires t.senderSignature.length == 0
    ensures var buf := EncodeTransaction(t)[..TRANSACTION_RECORD_LEN - SIGNATURE_BYTES_LEN];
      SignatureCheckPassesAsWritten(buf, |buf|, t.senderSignature.length) &&
      |buf| + SIGNATURE_BYTES_LEN > |buf| &&
      DecodeTransaction(buf, 0) == Err(FailureBufferTooSmall)
  {
    var buf := EncodeTransaction(t)[..TRANSACTION_RECORD_LEN - SIGNATURE_BYTES_LEN];
    assert CutShort(buf, 0, EncodeTransaction(t));
    DecodeTransactionCutShort(buf, 0, t);
  }
}
