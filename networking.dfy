/** src/networking.c and include/networking.h: the fixed-layout command header. */
module Networking {
  import opened Types
  import opened ReturnCodes
  import opened Endian

  const COMMAND_PREFIX_LEN: nat := 4
  /** COMMAND_PREFIX, "LEO:". */
  const COMMAND_PREFIX: seq<byte> := [0x4c, 0x45, 0x4f, 0x3a]

  /** The values of command_t. */
  const COMMAND_OK: u16 := 0
  const COMMAND_ERROR: u16 := 1
  const COMMAND_REGISTER_PEER: u16 := 2
  const COMMAND_SEND_PEER_LIST: u16 := 3

  /** sizeof(command_header_t): 4 prefix bytes, a 2-byte command, 2 bytes of
      padding that align the 8-byte command_len. */
  const COMMAND_HEADER_SIZE: nat := 16

  type Prefix = s: seq<byte> | |s| == COMMAND_PREFIX_LEN witness [0, 0, 0, 0]

  datatype CommandHeader = CommandHeader(commandPrefix: Prefix, command: u16, commandLen: u64)

  /** Stores `bytes` into `buf` at `pos`, as a write through the cursor does. */
  method Store(buf: array<byte>, pos: nat, bytes: seq<byte>)
    requires pos + |bytes| <= buf.Length
    modifies buf
    ensures buf[..] == old(buf[..pos]) + bytes + old(buf[pos + |bytes|..])
  {
    var i := 0;
    while i < |bytes|
      invariant 0 <= i <= |bytes|
      invariant buf[..] == old(buf[..pos]) + bytes[..i] + old(buf[pos + i..])
    {
      buf[pos + i] := bytes[i];
      i := i + 1;
      assert buf[..] == old(buf[..pos]) + bytes[..i] + old(buf[pos + i..]);
    }
    assert bytes[..i] == bytes;
  }

  /** The bytes command_header_serialize was evidently meant to produce: the
      prefix, the 2-byte big-endian command, the 8-byte big-endian command_len,
      then the two zero bytes left over in the calloc'd buffer. */
  function HeaderBytes(h: CommandHeader): (r: seq<byte>)
    ensures |r| == COMMAND_HEADER_SIZE
  {
    h.commandPrefix + BigEndian(h.command, 2) + Encode64(h.commandLen) + [0, 0]
  }

  /** Every field can be read back from the corrected layout, so two headers
      with the same bytes are the same header. */
  lemma HeaderBytesFields(h: CommandHeader)
    ensures HeaderBytes(h)[..COMMAND_PREFIX_LEN] == h.commandPrefix
    ensures FromBigEndian(HeaderBytes(h)[4..6]) == h.command
    ensures Decode64(HeaderBytes(h)[6..14]) == h.commandLen
  {
    var r := HeaderBytes(h);
    assert r[4..6] == BigEndian(h.command, 2);
    assert r[6..14] == Encode64(h.commandLen);
    FromBigEndianOfBigEndian(h.command, 2);
    assert Pow256(2) == 0x1_0000;
    Decode64OfEncode64(h.commandLen);
  }

  lemma HeaderBytesInjective(h1: CommandHeader, h2: CommandHeader)
    requires HeaderBytes(h1) == HeaderBytes(h2)
    ensures h1 == h2
  {
    HeaderBytesFields(h1);
    HeaderBytesFields(h2);
  }

  /** command_header_serialize, with the command stored in the 2 bytes the
      cursor then skips. Fails on a NULL header, buffer pointer or size pointer;
      otherwise returns a zero-initialised buffer of sizeof(command_header_t)
      bytes holding the header. */
  method CommandHeaderSerialize(header: Option<CommandHeader>, bufferPtrNull: bool, sizePtrNull: bool)
    returns (rc: ReturnCode, buffer: seq<byte>, bufferSize: nat)
    ensures rc == FailureInvalidInput <==> header.None? || bufferPtrNull || sizePtrNull
    ensures rc != FailureInvalidInput ==> rc == Success
    ensures rc == Success ==> buffer == HeaderBytes(header.value) && bufferSize == COMMAND_HEADER_SIZE
  {
    if header.None? || bufferPtrNull || sizePtrNull {
      return FailureInvalidInput, [], 0;
    }
    var h := header.value;
    var buf := new byte[COMMAND_HEADER_SIZE](_ => 0);
    ghost var zeros := buf[..];
    var cursor := 0;
    Store(buf, cursor, h.commandPrefix);
    assert buf[..] == h.commandPrefix + zeros[4..];
    cursor := cursor + COMMAND_PREFIX_LEN;
    Store(buf, cursor, BigEndian(h.command, 2));
    assert buf[..] == h.commandPrefix + BigEndian(h.command, 2) + zeros[6..];
    cursor := cursor + 2;
    Store(buf, cursor, Encode64(h.commandLen));
    assert zeros[14..] == [0, 0];
    cursor := cursor + 8;
    rc, buffer, bufferSize := Success, buf[..], COMMAND_HEADER_SIZE;
  }

  /** command_header_serialize as written: htonl stores the command as 4 bytes,
      the cursor advances by sizeof(uint16_t) == 2, and the 8-byte command_len
      store then overwrites the low half of the command. */
  method CommandHeaderSerializeAsWritten(header: Option<CommandHeader>, bufferPtrNull: bool, sizePtrNull: bool)
    returns (rc: ReturnCode, buffer: seq<byte>, bufferSize: nat)
    ensures rc == FailureInvalidInput <==> header.None? || bufferPtrNull || sizePtrNull
    ensures rc != FailureInvalidInput ==> rc == Success
    ensures rc == Success ==> bufferSize == COMMAND_HEADER_SIZE
    ensures rc == Success ==>
              buffer == header.value.commandPrefix + [0, 0] + Encode64(header.value.commandLen) + [0, 0]
  {
    if header.None? || bufferPtrNull || sizePtrNull {
      return FailureInvalidInput, [], 0;
    }
    var h := header.value;
    var buf := new byte[COMMAND_HEADER_SIZE](_ => 0);
    ghost var zeros := buf[..];
    var cursor := 0;
    Store(buf, cursor, h.commandPrefix);
    assert buf[..] == h.commandPrefix + zeros[4..];
    cursor := cursor + COMMAND_PREFIX_LEN;
    Store(buf, cursor, BigEndian(h.command, 4));
    assert buf[..] == h.commandPrefix + BigEndian(h.command, 4) + zeros[8..];
    cursor := cursor + 2;
    Store(buf, cursor, Encode64(h.commandLen));
    assert buf[..] == h.commandPrefix + BigEndian(h.command, 4)[..2] + Encode64(h.commandLen) + zeros[14..];
    assert zeros[14..] == [0, 0];
    cursor := cursor + 8;
    assert BigEndian(h.command, 4)[..2] == [0, 0] by {
      BigEndianByte(h.command, 4, 0);
      BigEndianByte(h.command, 4, 1);
      assert Pow256(3) == 0x100_0000 && Pow256(2) == 0x1_0000;
    }
    rc, buffer, bufferSize := Success, buf[..], COMMAND_HEADER_SIZE;
  }

  /** As written, the serialised bytes do not depend on the command at all: a
      COMMAND_OK and a COMMAND_REGISTER_PEER header come out identical. */
  method CommandLostAsWritten(prefix: Prefix, commandLen: u64) returns (okBytes: seq<byte>, registerPeerBytes: seq<byte>)
    ensures |okBytes| == COMMAND_HEADER_SIZE
    ensures okBytes == registerPeerBytes
  {
    var _, b1, _ := CommandHeaderSerializeAsWritten(Some(CommandHeader(prefix, COMMAND_OK, commandLen)), false, false);
    var _, b2, _ := CommandHeaderSerializeAsWritten(Some(CommandHeader(prefix, COMMAND_REGISTER_PEER, commandLen)), false, false);
    okBytes, registerPeerBytes := b1, b2;
  }

  /** A successful serialisation of a header carrying COMMAND_PREFIX is
      non-empty and not all zero. */
  lemma HeaderBytesNotAllZero(h: CommandHeader)
    requires h.commandPrefix == COMMAND_PREFIX
    ensures |HeaderBytes(h)| != 0
    ensures exists i :: 0 <= i < |HeaderBytes(h)| && HeaderBytes(h)[i] != 0
  {
    assert HeaderBytes(h)[0] == 0x4c;
  }

  /** command_header_deserialize (src/networking.c) is a stub that always fails. */
  function CommandHeaderDeserialize(headerPtrNull: bool, buf: Option<seq<byte>>, len: u64): (rc: ReturnCode)
    ensures rc == FailureInvalidInput
  {
    FailureInvalidInput
  }

  /** command_register_peer_deserialize (src/networking.c) is a stub that always fails. */
  function CommandRegisterPeerDeserialize(commandPtrNull: bool, buf: Option<seq<byte>>, len: u64): (rc: ReturnCode)
    ensures rc == FailureInvalidInput
  {
    FailureInvalidInput
  }

  /** command_send_peer_list_serialize (src/networking.c) is a stub that always fails. */
  function CommandSendPeerListSerialize(commandPtrNull: bool, bufPtrNull: bool, lenPtrNull: bool): (rc: ReturnCode)
    ensures rc == FailureInvalidInput
  {
    FailureInvalidInput
  }
}
