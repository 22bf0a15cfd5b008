// The accept value of the opening handshake, src/websocket.c: ws_sha1_digest and
// ws_set_handshake_headers.
module Handshake {
  import opened Bytes
  import opened Sha1Spec
  import Sha1Stream
  import opened Base64

  // 258EAFA5-E914-47DA-95CA-C5AB0DC85B11
  const GUID: seq<byte> :=
    [50, 53, 56, 69, 65, 70, 65, 53]
    + [45, 69, 57, 49, 52, 45, 52, 55, 68, 65, 45, 57, 53, 67, 65, 45]
    + [67, 53, 65, 66, 48, 68, 67, 56, 53, 66, 49, 49]

  // RFC 6455, section 4.2.2: base64 of the SHA-1 of the key followed by the GUID.
  function AcceptValue(key: seq<byte>): (accept: seq<byte>)
    ensures |accept| == 28
  {
    Encoded(Digest(key + GUID))
  }

  // ws_sha1_digest. The buffer s is used up.
  method Sha1Digest(s: array<byte>, len: nat, digest: array<byte>)
    requires len <= s.Length && len <= INT_MAX && digest.Length == 20 && s != digest
    modifies s, digest
    ensures digest[..] == Digest(old(s[..len]))
  {
    ghost var message := s[..len];
    var sha := new Sha1Stream.Context();
    assert s[..len] == message;
    sha.Update(s, len);
    assert sha.absorbed == message;
    sha.Final(digest);
  }

  // ws_set_handshake_headers, the part that derives ws_accept from ws_key.
  method AcceptKey(key: seq<byte>) returns (accept: array<byte>, n: nat)
    requires |key| + |GUID| <= INT_MAX
    ensures fresh(accept) && n < accept.Length && accept[n] == 0
    ensures accept[..n] == AcceptValue(key)
  {
    var all := key + GUID;
    var s := new byte[|all|](i requires 0 <= i < |all| => all[i]);
    assert s[..|all|] == all;
    var digest := new byte[20];
    Sha1Digest(s, |all|, digest);
    accept, n := Base64Encode(digest[..]);
  }

  // The viewer's side can recover the digest from the header.
  lemma AcceptValueDecodes(key: seq<byte>)
    ensures Decoded(Filter(AcceptValue(key))) == Widen(Digest(key + GUID))
  {
    EncodeDecode(Digest(key + GUID));
  }
}
