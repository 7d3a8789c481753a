/** src/peer_discovery.c: ordering peers by their listening address. */
module PeerDiscovery {
  import opened Types
  import opened ReturnCodes

  /** sizeof(struct sockaddr_in6): family, port, flow information, the 16-byte
      address and the scope id. */
  const SOCKADDR_IN6_LEN: nat := 28

  type SocketAddress = s: seq<byte> | |s| == SOCKADDR_IN6_LEN witness seq(28, _ => 0)

  datatype PeerInfo = PeerInfo(listenAddr: SocketAddress, lastConnected: i64)

  /** memcmp over two equal-length blocks. The C standard fixes only the sign of
      the result, so the model returns -1, 0 or 1. */
  function MemCmp(a: seq<byte>, b: seq<byte>): (r: int)
    requires |a| == |b|
    ensures -1 <= r <= 1
  {
    if |a| == 0 then 0
    else if a[0] < b[0] then -1
    else if a[0] > b[0] then 1
    else MemCmp(a[1..], b[1..])
  }

  /** memcmp gives 0 exactly on equal blocks. */
  lemma {:induction false} MemCmpZeroIffEqual(a: seq<byte>, b: seq<byte>)
    requires |a| == |b|
    ensures MemCmp(a, b) == 0 <==> a == b
  {
    if |a| > 0 {
      MemCmpZeroIffEqual(a[1..], b[1..]);
      if a[0] == b[0] && a[1..] == b[1..] {
        assert a == [a[0]] + a[1..] && b == [b[0]] + b[1..];
      }
    }
  }

  /** Swapping the arguments of memcmp flips the sign. */
  lemma {:induction false} MemCmpAntisymmetric(a: seq<byte>, b: seq<byte>)
    requires |a| == |b|
    ensures MemCmp(a, b) == -MemCmp(b, a)
  {
    if |a| > 0 && a[0] == b[0] {
      MemCmpAntisymmetric(a[1..], b[1..]);
    }
  }

  /** a comes first in lexicographic byte order: the blocks agree up to some index
      k, where a has the smaller byte. */
  ghost predicate LexicographicallyBefore(a: seq<byte>, b: seq<byte>)
    requires |a| == |b|
  {
    exists k :: 0 <= k < |a| && a[..k] == b[..k] && a[k] < b[k]
  }

  /** memcmp is negative exactly when a comes first in lexicographic byte order. */
  lemma {:induction false} MemCmpLexicographic(a: seq<byte>, b: seq<byte>)
    requires |a| == |b|
    ensures MemCmp(a, b) < 0 <==> LexicographicallyBefore(a, b)
  {
    if |a| > 0 {
      MemCmpLexicographic(a[1..], b[1..]);
      if MemCmp(a, b) < 0 {
        if a[0] == b[0] {
          var k :| 0 <= k < |a| - 1 && a[1..][..k] == b[1..][..k] && a[1..][k] < b[1..][k];
          assert a[..k + 1] == [a[0]] + a[1..][..k];
          assert b[..k + 1] == [b[0]] + b[1..][..k];
        } else {
          assert a[..0] == b[..0];
        }
      }
      if exists k :: 0 <= k < |a| && a[..k] == b[..k] && a[k] < b[k] {
        var k :| 0 <= k < |a| && a[..k] == b[..k] && a[k] < b[k];
        if k > 0 {
          assert a[0] == a[..k][0] && b[0] == b[..k][0];
          assert a[1..][..k - 1] == a[..k][1..];
          assert b[1..][..k - 1] == b[..k][1..];
          assert a[1..][k - 1] < b[1..][k - 1];
        }
      }
    }
  }

  /** compare_peer_info_t: 0 if either peer is NULL, otherwise memcmp of the
      two listening addresses. */
  function ComparePeerInfo(p1: Option<PeerInfo>, p2: Option<PeerInfo>): (r: int)
    ensures p1.None? || p2.None? ==> r == 0
    ensures p1.Some? && p2.Some? ==> (r == 0 <==> p1.value.listenAddr == p2.value.listenAddr)
    ensures p1.Some? && p2.Some? ==> (r < 0 <==> LexicographicallyBefore(p1.value.listenAddr, p2.value.listenAddr))
    ensures p1.Some? && p2.Some? ==> (r > 0 <==> LexicographicallyBefore(p2.value.listenAddr, p1.value.listenAddr))
  {
    if p1.None? || p2.None? then 0
    else
      var a, b := p1.value.listenAddr, p2.value.listenAddr;
      MemCmpZeroIffEqual(a, b);
      MemCmpLexicographic(a, b);
      MemCmpLexicographic(b, a);
      MemCmpAntisymmetric(a, b);
      MemCmp(a, b)
  }

  /** The time of the last connection takes no part in the comparison, and the
      order of two peers is the reverse of the order with the arguments swapped. */
  lemma ComparePeerInfoIgnoresLastConnected(p1: PeerInfo, p2: PeerInfo, t1: i64, t2: i64)
    ensures ComparePeerInfo(Some(p1.(lastConnected := t1)), Some(p2.(lastConnected := t2)))
         == ComparePeerInfo(Some(p1), Some(p2))
    ensures ComparePeerInfo(Some(p1), Some(p2)) == -ComparePeerInfo(Some(p2), Some(p1))
  {
    MemCmpAntisymmetric(p1.listenAddr, p2.listenAddr);
  }

  /** peer_info_list_serialize (src/peer_discovery.c) is a stub that always fails. */
  function PeerInfoListSerialize(peers: Option<seq<PeerInfo>>, bufferPtrNull: bool, sizePtrNull: bool): (rc: ReturnCode)
    ensures rc == FailureInvalidInput
  {
    FailureInvalidInput
  }
}
