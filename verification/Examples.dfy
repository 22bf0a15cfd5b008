// Known answers: the frames and the handshake of RFC 6455, sections 5.7 and 1.3, and the
// characters of RFC 3629, section 7.
module Examples {
  import opened Bytes
  import opened Wire
  import opened Utf8
  import opened Receive
  import Base64
  import Handshake
  import Sha1Example
  import Sha1Spec

  // ---------------------------------------------------------------- frames

  const HELLO: seq<byte> := [0x48, 0x65, 0x6C, 0x6C, 0x6F]

  // The masked frame of section 5.7 with this payload, and any first byte.
  function HelloFrame(first: byte): seq<byte>
  {
    [first, 0x85, 0x37, 0xFA, 0x21, 0x3D, 0x7F, 0x9F, 0x4D, 0x51, 0x58]
  }

  lemma HelloUnmasked(key: Key, data: seq<byte>)
    requires key == [0x37, 0xFA, 0x21, 0x3D] && data == [0x7F, 0x9F, 0x4D, 0x51, 0x58]
    ensures Unmask(data, key) == HELLO
  {
    assert XorByte(0x7F, 0x37) == 0x48 && XorByte(0x9F, 0xFA) == 0x65 && XorByte(0x4D, 0x21) == 0x6C;
    assert XorByte(0x51, 0x3D) == 0x6C && XorByte(0x58, 0x37) == 0x6F;
  }

  lemma HelloWellFormed()
    ensures IsWellFormed(HELLO)
  {
    AcceptedIffWellFormed(HELLO);
    assert HELLO[1..] == [0x65, 0x6C, 0x6C, 0x6F] && HELLO[1..][1..] == [0x6C, 0x6C, 0x6F];
    assert HELLO[1..][1..][1..] == [0x6C, 0x6F] && HELLO[1..][1..][1..][1..] == [0x6F];
  }

  // The parser takes the frame whole.
  lemma HelloScanned(first: byte, opcode: byte, max: nat, f: Frame)
    requires first == 128 + opcode && opcode < 16 && max >= 5
    requires f == Frame(true, opcode, Short, [0x37, 0xFA, 0x21, 0x3D], [0x7F, 0x9F, 0x4D, 0x51, 0x58])
    ensures ScanFrame(HelloFrame(first), max, 0) == Complete(f, 11)
  {
    var s := HelloFrame(first);
    FieldValues(first);
    FieldValues(0x85);
    assert s[2..6] == f.key && s[6..11] == f.masked;
  }

  lemma OneFrame(c: Config, m: Machine, s: seq<byte>, f: Frame)
    requires m.verdict == Open && ScanFrame(s, c.max, |Collected(m.partial)|) == Complete(f, |s|)
    ensures Feed(c, m, s) == (Handle(c, m, f), [])
  {
    assert s[|s|..] == [];
  }

  // "A single-frame masked text message" is delivered.
  lemma HelloDelivered(c: Config)
    requires c.max >= 5 && !c.echo
    ensures Feed(c, INITIAL, HelloFrame(0x81)) == (Machine(Open, NoMessage, [Deliver(1, HELLO)]), [])
  {
    var f := Frame(true, 1, Short, [0x37, 0xFA, 0x21, 0x3D], [0x7F, 0x9F, 0x4D, 0x51, 0x58]);
    HelloScanned(0x81, 1, c.max, f);
    HelloUnmasked(f.key, f.masked);
    HelloWellFormed();
    assert [] + HELLO == HELLO && [] + [Deliver(1, HELLO)] == [Deliver(1, HELLO)];
    OneFrame(c, INITIAL, HelloFrame(0x81), f);
  }

  // A ping with this payload is answered by the unmasked pong frame.
  lemma HelloAnswered(c: Config)
    requires c.max >= 5
    ensures var r := Feed(c, INITIAL, HelloFrame(0x89));
      r == (Machine(Open, NoMessage, [Reply(Message(10, HELLO))]), [])
    ensures EncodeFrame(Message(10, HELLO)) == [0x8A, 0x05, 0x48, 0x65, 0x6C, 0x6C, 0x6F]
  {
    var f := Frame(true, 9, Short, [0x37, 0xFA, 0x21, 0x3D], [0x7F, 0x9F, 0x4D, 0x51, 0x58]);
    HelloScanned(0x89, 9, c.max, f);
    HelloUnmasked(f.key, f.masked);
    assert [] + [Reply(Message(10, HELLO))] == [Reply(Message(10, HELLO))];
    OneFrame(c, INITIAL, HelloFrame(0x89), f);
    HelloPong();
  }

  lemma HelloPong()
    ensures EncodeFrame(Message(10, HELLO)) == [0x8A, 0x05, 0x48, 0x65, 0x6C, 0x6C, 0x6F]
  {
    assert FirstByte(10) == 0x8A && LengthField(5) == [LowByte(5)] && LowByte(5) == 5;
  }

  // ---------------------------------------------------------------- characters

  // Not identical to, alpha, the first characters of "Korean" and of "Japanese", and a Chinese
  // character of the second plane.
  lemma CharactersEncoded()
    ensures Encode(0x41) == [0x41] && Encode(0x391) == [0xCE, 0x91]
    ensures Encode(0x2262) == [0xE2, 0x89, 0xA2] && Encode(0xD55C) == [0xED, 0x95, 0x9C]
    ensures Encode(0x65E5) == [0xE6, 0x97, 0xA5] && Encode(0x233B4) == [0xF0, 0xA3, 0x8E, 0xB4]
  {
  }

  // ---------------------------------------------------------------- the handshake

  // dGhlIHNhbXBsZSBub25jZQ==
  const KEY: seq<byte> := [
    0x64, 0x47, 0x68, 0x6C, 0x49, 0x48, 0x4E, 0x68, 0x62, 0x58, 0x42, 0x73, 0x5A, 0x53, 0x42, 0x75,
    0x62, 0x32, 0x35, 0x6A, 0x5A, 0x51, 0x3D, 0x3D]

  // s3pPLMBiTxaQ9kYGzzhZRbK+xOo=
  const ACCEPT_VALUE: seq<byte> := [
    0x73, 0x33, 0x70, 0x50, 0x4C, 0x4D, 0x42, 0x69, 0x54, 0x78, 0x61, 0x51, 0x39, 0x6B, 0x59, 0x47,
    0x7A, 0x7A, 0x68, 0x5A, 0x52, 0x62, 0x4B, 0x2B, 0x78, 0x4F, 0x6F, 0x3D]

  lemma SampleMessage()
    ensures KEY + Handshake.GUID == Sha1Example.SAMPLE
  {
    assert KEY[..16] == Sha1Example.ROW0;
    assert KEY[16..] + [50, 53, 56, 69, 65, 70, 65, 53] == Sha1Example.ROW1;
  }

  lemma SampleGroups()
    ensures Base64.Group([0xB3, 0x7A, 0x4F]) == [0x73, 0x33, 0x70, 0x50]
    ensures Base64.Group([0x2C, 0xC0, 0x62]) == [0x4C, 0x4D, 0x42, 0x69]
    ensures Base64.Group([0x4F, 0x16, 0x90]) == [0x54, 0x78, 0x61, 0x51]
    ensures Base64.Group([0xF6, 0x46, 0x06]) == [0x39, 0x6B, 0x59, 0x47]
    ensures Base64.Group([0xCF, 0x38, 0x59]) == [0x7A, 0x7A, 0x68, 0x5A]
    ensures Base64.Group([0x45, 0xB2, 0xBE]) == [0x52, 0x62, 0x4B, 0x2B]
    ensures Base64.Group([0xC4, 0xEA]) == [0x78, 0x4F, 0x6F, 0x3D]
  {
  }

  lemma GroupFirst(group: seq<byte>, rest: seq<byte>)
    requires |group| == 3 && rest != []
    ensures Base64.Encoded(group + rest) == Base64.Group(group) + Base64.Encoded(rest)
  {
    assert (group + rest)[..3] == group && (group + rest)[3..] == rest;
  }

  lemma ThreeGroups(a: seq<byte>, b: seq<byte>, c: seq<byte>, rest: seq<byte>)
    requires |a| == |b| == |c| == 3 && rest != []
    ensures Base64.Encoded(a + b + c + rest) ==
      Base64.Group(a) + Base64.Group(b) + Base64.Group(c) + Base64.Encoded(rest)
  {
    assert a + b + c + rest == a + (b + (c + rest));
    GroupFirst(a, b + (c + rest));
    GroupFirst(b, c + rest);
    GroupFirst(c, rest);
  }

  lemma SampleText()
    ensures Base64.Encoded(Sha1Example.ANSWER) == ACCEPT_VALUE
  {
    SampleGroups();
    var z: seq<byte> := [0xC4, 0xEA];
    var y := [0xF6, 0x46, 0x06] + [0xCF, 0x38, 0x59] + [0x45, 0xB2, 0xBE] + z;
    var x := [0xB3, 0x7A, 0x4F] + [0x2C, 0xC0, 0x62] + [0x4F, 0x16, 0x90] + y;
    ThreeGroups([0xF6, 0x46, 0x06], [0xCF, 0x38, 0x59], [0x45, 0xB2, 0xBE], z);
    ThreeGroups([0xB3, 0x7A, 0x4F], [0x2C, 0xC0, 0x62], [0x4F, 0x16, 0x90], y);
    SampleBytes(x, y, z);
  }

  // The answer and its text, group by group.
  lemma SampleBytes(x: seq<byte>, y: seq<byte>, z: seq<byte>)
    requires z == [0xC4, 0xEA] && y == [0xF6, 0x46, 0x06] + [0xCF, 0x38, 0x59] + [0x45, 0xB2, 0xBE] + z
    requires x == [0xB3, 0x7A, 0x4F] + [0x2C, 0xC0, 0x62] + [0x4F, 0x16, 0x90] + y
    ensures x == Sha1Example.ANSWER
    ensures [0x73, 0x33, 0x70, 0x50] + [0x4C, 0x4D, 0x42, 0x69] + [0x54, 0x78, 0x61, 0x51]
      + ([0x39, 0x6B, 0x59, 0x47] + [0x7A, 0x7A, 0x68, 0x5A] + [0x52, 0x62, 0x4B, 0x2B]
         + [0x78, 0x4F, 0x6F, 0x3D]) == ACCEPT_VALUE
  {
  }

  lemma SampleAccepted()
    ensures Handshake.AcceptValue(KEY) == ACCEPT_VALUE
  {
    SampleMessage();
    Sha1Example.SampleDigest();
    SampleText();
  }
}
