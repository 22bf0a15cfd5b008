// The frame header of RFC 6455, section 5.2, as src/websocket.c writes and reads it.
module Wire {
  import opened Bytes

  const OPCODE_CONTINUATION: byte := 0
  const OPCODE_TEXT: byte := 1
  const OPCODE_BIN: byte := 2
  const OPCODE_CLOSE: byte := 8
  const OPCODE_PING: byte := 9
  const OPCODE_PONG: byte := 10

  const EXT16: byte := 126
  const EXT64: byte := 127

  // ---------------------------------------------------------------- the field macros

  function Fin(b: byte): bool { (b >> 7) & 1 == 1 }
  function Masked(b: byte): bool { (b >> 7) & 1 == 1 }
  function Reserved(b: byte): bool { (b >> 6) & 1 == 1 || (b >> 5) & 1 == 1 || (b >> 4) & 1 == 1 }
  function Opcode(b: byte): byte { b & 0x0F }
  function Len7(b: byte): byte { b & 0x7F }

  // The fields in numbers (RFC 6455, section 5.2).
  lemma FieldValues(b: byte)
    ensures Fin(b) == Masked(b) == (b >= 128)
    ensures Reserved(b) <==> b % 128 >= 16
    ensures Opcode(b) == b % 16 && Len7(b) == b % 128
  {
  }

  // ---------------------------------------------------------------- the length decoders

  // ws_set_extended_header_size
  function ExtendedSize(b: byte): (n: nat)
    ensures n == 0 || n == 2 || n == 8
  {
    if Len7(b) == EXT16 then 2 else if Len7(b) == EXT64 then 8 else 0
  }

  // ws_set_payloadlen, before the value is stored in an int.
  function WireLength(h: seq<byte>): (n: nat)
    requires |h| >= 2 && |h| >= 2 + ExtendedSize(h[1])
  {
    if Len7(h[1]) == EXT16 then FromBigEndian(h[2..4])
    else if Len7(h[1]) == EXT64 then FromBigEndian(h[2..10])
    else Len7(h[1]) as int
  }

  // ---------------------------------------------------------------- frames the server sends

  // The largest payload whose frame size still fits an int.
  const MAX_PAYLOAD: nat := INT_MAX - 10

  datatype Message = Message(opcode: byte, payload: seq<byte>)

  predicate Sendable(m: Message)
  {
    m.opcode < 16 && |m.payload| <= MAX_PAYLOAD
  }

  // The second and following header bytes for a payload of sz bytes.
  function LengthField(sz: nat): (f: seq<byte>)
    ensures 1 <= |f| <= 9
  {
    if sz < 126 then [LowByte(sz)]
    else if sz < 0x1_0000 then [EXT16] + ToBigEndian(sz, 2)
    else [EXT64] + ToBigEndian(sz, 8)
  }

  // The fin bit and the opcode.
  function FirstByte(opcode: byte): byte
  {
    0x80 | opcode
  }

  function EncodeFrame(m: Message): (f: seq<byte>)
    ensures |f| >= 2
  {
    [FirstByte(m.opcode)] + LengthField(|m.payload|) + m.payload
  }

  function EncodeFrames(ms: seq<Message>): (parts: seq<seq<byte>>)
    ensures |parts| == |ms|
    ensures forall i :: 0 <= i < |ms| ==> parts[i] == EncodeFrame(ms[i])
  {
    seq(|ms|, i requires 0 <= i < |ms| => EncodeFrame(ms[i]))
  }

  // What a frame is byte by byte (RFC 6455, section 5.2): the fin bit and the opcode; the length
  // in one byte, or behind 126 in two, or behind 127 in eight, the first counting most; the
  // payload, which is not masked.
  predicate FrameBytes(f: seq<byte>, opcode: byte, payload: seq<byte>)
  {
    var n := |payload|;
    && |f| >= 2 && f[0] == 128 + opcode
    && if n < 126 then |f| == 2 + n && f[1] as int == n && f[2..] == payload
       else if n < 65536 then
         |f| == 4 + n && f[1] == 126 && f[2] as int * 256 + f[3] as int == n && f[4..] == payload
       else |f| == 10 + n && f[1] == 127 && EightBytes(f[2..10]) == n && f[10..] == payload
  }

  function EightBytes(s: seq<byte>): int
    requires |s| == 8
  {
    ((((((s[0] as int * 256 + s[1] as int) * 256 + s[2] as int) * 256 + s[3] as int) * 256
      + s[4] as int) * 256 + s[5] as int) * 256 + s[6] as int) * 256 + s[7] as int
  }

  lemma TwoValue(s: seq<byte>)
    requires |s| == 2
    ensures FromBigEndian(s) == s[0] as int * 256 + s[1] as int
  {
    assert s[..1][..0] == [];
    assert FromBigEndian(s[..1]) == s[0] as int;
  }

  lemma EightValue(s: seq<byte>)
    requires |s| == 8
    ensures FromBigEndian(s) == EightBytes(s)
  {
    TwoValue(s[..2]);
    assert s[..3][..2] == s[..2] && s[..4][..3] == s[..3] && s[..5][..4] == s[..4];
    assert s[..6][..5] == s[..5] && s[..7][..6] == s[..6] && s[..8][..7] == s[..7] && s[..8] == s;
    assert FromBigEndian(s[..3]) == FromBigEndian(s[..2]) * 256 + s[2] as int;
    assert FromBigEndian(s[..4]) == FromBigEndian(s[..3]) * 256 + s[3] as int;
    assert FromBigEndian(s[..5]) == FromBigEndian(s[..4]) * 256 + s[4] as int;
    assert FromBigEndian(s[..6]) == FromBigEndian(s[..5]) * 256 + s[5] as int;
    assert FromBigEndian(s[..7]) == FromBigEndian(s[..6]) * 256 + s[6] as int;
  }

  lemma FirstByteValue(opcode: byte)
    requires opcode < 16
    ensures FirstByte(opcode) == 128 + opcode
  {
  }

  lemma BehindLength(f: seq<byte>, first: byte, length: seq<byte>, payload: seq<byte>)
    requires f == [first] + length + payload
    ensures |f| == 1 + |length| + |payload| && f[0] == first
    ensures f[1..1 + |length|] == length && f[1 + |length|..] == payload
  {
  }

  lemma EncodedBytes(m: Message)
    requires Sendable(m)
    ensures FrameBytes(EncodeFrame(m), m.opcode, m.payload)
  {
    var f, n := EncodeFrame(m), |m.payload|;
    FirstByteValue(m.opcode);
    BehindLength(f, FirstByte(m.opcode), LengthField(n), m.payload);
    if n < 126 {
      ByteOfInt(n);
      assert f[1] == LengthField(n)[0];
    } else if n < 0x1_0000 {
      MiddleLength(n);
      assert f[1] == LengthField(n)[0] && f[2] == LengthField(n)[1] && f[3] == LengthField(n)[2];
    } else {
      LongLength(n);
      assert f[1] == LengthField(n)[0] && f[2..10] == LengthField(n)[1..];
    }
  }

  lemma MiddleLength(n: nat)
    requires 126 <= n < 0x1_0000
    ensures var l := LengthField(n); |l| == 3 && l[0] == 126 && l[1] as int * 256 + l[2] as int == n
  {
    assert Pow256(1) == 0x100 && Pow256(2) == 0x1_0000;
    BigEndianRoundTrip(n, 2);
    TwoValue(ToBigEndian(n, 2));
  }

  lemma LongLength(n: nat)
    requires 0x1_0000 <= n <= INT_MAX
    ensures var l := LengthField(n); |l| == 9 && l[0] == 127 && EightBytes(l[1..]) == n
  {
    PowBig();
    BigEndianRoundTrip(n, 8);
    EightValue(ToBigEndian(n, 8));
  }

  // The three length forms are undone by the decoders.
  lemma LengthFieldDecodes(first: byte, sz: nat, rest: seq<byte>)
    requires sz < Pow256(8)
    ensures var h := [first] + LengthField(sz) + rest;
      && !Masked(h[1])
      && 1 + |LengthField(sz)| == 2 + ExtendedSize(h[1])
      && WireLength(h) == sz
  {
    var h := [first] + LengthField(sz) + rest;
    if sz < 126 {
      ByteOfInt(sz);
      SmallLength(LowByte(sz));
    } else if sz < 0x1_0000 {
      assert Pow256(2) == 0x1_0000;
      BigEndianRoundTrip(sz, 2);
      assert h[2..4] == ToBigEndian(sz, 2);
    } else {
      BigEndianRoundTrip(sz, 8);
      assert h[2..10] == ToBigEndian(sz, 8);
    }
  }

  lemma SmallLength(b: byte)
    requires b as int < 126
    ensures Len7(b) == b && !Masked(b) && b != EXT16 && b != EXT64
  {
    assert b < 126;
  }

  // ---------------------------------------------------------------- the peer

  datatype Arrival = NotYet | Whole(m: Message, size: nat)

  // One complete unmasked final frame at the front of s, with its size.
  function PeerNext(s: seq<byte>): (r: Arrival)
    ensures r.Whole? ==> 2 <= r.size <= |s|
  {
    if |s| < 2 || !Fin(s[0]) || Reserved(s[0]) || Masked(s[1]) then NotYet
    else
      var head := 2 + ExtendedSize(s[1]);
      if |s| < head then NotYet
      else
        var n := WireLength(s);
        if |s| < head + n then NotYet
        else Whole(Message(Opcode(s[0]), s[head..head + n]), head + n)
  }

  // Every frame a peer can take off the front of the bytes it has.
  function PeerParse(s: seq<byte>): seq<Message>
    decreases |s|
  {
    match PeerNext(s)
    case NotYet => []
    case Whole(m, size) => [m] + PeerParse(s[size..])
  }

  lemma FirstByteFields(opcode: byte)
    requires opcode < 16
    ensures Fin(0x80 | opcode) && !Reserved(0x80 | opcode) && Opcode(0x80 | opcode) == opcode
  {
  }

  // What the decoders see at the front of an encoded frame.
  lemma EncodedHeader(m: Message, rest: seq<byte>, s: seq<byte>, head: nat)
    requires Sendable(m) && s == EncodeFrame(m) + rest && head == 1 + |LengthField(|m.payload|)|
    ensures |s| >= head + |m.payload| >= 2
    ensures Fin(s[0]) && !Reserved(s[0]) && Opcode(s[0]) == m.opcode && !Masked(s[1])
    ensures head == 2 + ExtendedSize(s[1]) && WireLength(s) == |m.payload|
    ensures |EncodeFrame(m)| == head + |m.payload| && s[head..head + |m.payload|] == m.payload
  {
    FirstByteFields(m.opcode);
    PowBig();
    LengthFieldDecodes(FirstByte(m.opcode), |m.payload|, m.payload + rest);
    assert s == [FirstByte(m.opcode)] + LengthField(|m.payload|) + (m.payload + rest);
    assert s[head..head + |m.payload|] == m.payload;
  }

  lemma PeerTakesFrame(m: Message, rest: seq<byte>)
    requires Sendable(m)
    ensures PeerNext(EncodeFrame(m) + rest) == Whole(m, |EncodeFrame(m)|)
  {
    EncodedHeader(m, rest, EncodeFrame(m) + rest, 1 + |LengthField(|m.payload|)|);
  }

  lemma PeerStep(m: Message, rest: seq<byte>)
    requires Sendable(m)
    ensures PeerParse(EncodeFrame(m) + rest) == [m] + PeerParse(rest)
  {
    PeerTakesFrame(m, rest);
    assert (EncodeFrame(m) + rest)[|EncodeFrame(m)|..] == rest;
  }

  lemma PowBig()
    ensures INT_MAX < Pow256(8)
  {
    assert Pow256(1) == 0x100 && Pow256(2) == 0x1_0000 && Pow256(3) == 0x100_0000;
    assert Pow256(4) == 0x1_0000_0000;
    assert Pow256(8) == 256 * Pow256(7) && Pow256(7) == 256 * Pow256(6);
    assert Pow256(6) == 256 * Pow256(5) && Pow256(5) == 256 * Pow256(4);
  }

  // Nothing is taken before the last byte of a frame is there.
  lemma PeerWaits(m: Message, n: nat)
    requires Sendable(m) && n < |EncodeFrame(m)|
    ensures PeerNext(EncodeFrame(m)[..n]) == NotYet
  {
    var f := EncodeFrame(m);
    var s := f[..n];
    PeerTakesFrame(m, []);
    assert f + [] == f;
    if n >= 2 && n >= 2 + ExtendedSize(s[1]) {
      SameLength(f, n);
    }
  }

  lemma PrefixSlice(f: seq<byte>, n: nat, i: nat, j: nat)
    requires i <= j <= n <= |f|
    ensures f[..n][i..j] == f[i..j]
  {
  }

  lemma SameLength(f: seq<byte>, n: nat)
    requires 2 <= n <= |f| && n >= 2 + ExtendedSize(f[1])
    ensures WireLength(f[..n]) == WireLength(f)
  {
    if Len7(f[1]) == EXT16 {
      PrefixSlice(f, n, 2, 4);
    } else if Len7(f[1]) == EXT64 {
      PrefixSlice(f, n, 2, 10);
    }
  }

  // The first n bytes of the stream of `ms` hold the frames `got` whole, and no further one.
  ghost predicate Recovered(ms: seq<Message>, got: seq<Message>, n: nat)
  {
    && got <= ms
    && |Flatten(EncodeFrames(ms[..|got|]))| <= n
    && (|got| < |ms| ==> n < |Flatten(EncodeFrames(ms[..|got| + 1]))|)
  }

  // From any prefix of a stream of frames the peer recovers exactly the frames that lie in
  // it whole.
  lemma {:induction false} PeerRecovers(ms: seq<Message>, n: nat)
    requires forall i :: 0 <= i < |ms| ==> Sendable(ms[i])
    requires n <= |Flatten(EncodeFrames(ms))|
    ensures Recovered(ms, PeerParse(Flatten(EncodeFrames(ms))[..n]), n)
    decreases |ms|
  {
    var s := Flatten(EncodeFrames(ms))[..n];
    if ms == [] {
      assert s == [];
    } else {
      var f := EncodeFrame(ms[0]);
      var rest := Flatten(EncodeFrames(ms[1..]));
      assert EncodeFrames(ms)[1..] == EncodeFrames(ms[1..]);
      if n < |f| {
        PeerWaits(ms[0], n);
        assert s == f[..n];
        FlattenOne(ms);
      } else {
        var n' := n - |f|;
        assert s == f + rest[..n'];
        PeerStep(ms[0], rest[..n']);
        PeerRecovers(ms[1..], n');
        RecoveredCons(ms, PeerParse(rest[..n']), n', n);
      }
    }
  }

  // From a whole stream it recovers every frame.
  lemma {:induction false} PeerReadsAll(ms: seq<Message>)
    requires forall i :: 0 <= i < |ms| ==> Sendable(ms[i])
    ensures PeerParse(Flatten(EncodeFrames(ms))) == ms
    decreases |ms|
  {
    if ms == [] {
      assert Flatten(EncodeFrames(ms)) == [];
    } else {
      assert EncodeFrames(ms)[1..] == EncodeFrames(ms[1..]);
      PeerStep(ms[0], Flatten(EncodeFrames(ms[1..])));
      PeerReadsAll(ms[1..]);
      assert ms == [ms[0]] + ms[1..];
    }
  }

  lemma RecoveredCons(ms: seq<Message>, tail: seq<Message>, n': nat, n: nat)
    requires ms != [] && Recovered(ms[1..], tail, n') && n == |EncodeFrame(ms[0])| + n'
    ensures Recovered(ms, [ms[0]] + tail, n)
  {
    var got := [ms[0]] + tail;
    PrefixLength(ms, |tail|, |got|);
    if |got| < |ms| {
      PrefixLength(ms, |tail| + 1, |got| + 1);
    }
  }

  lemma FlattenOne(ms: seq<Message>)
    requires ms != []
    ensures Flatten(EncodeFrames(ms[..0])) == [] && Flatten(EncodeFrames(ms[..1])) == EncodeFrame(ms[0])
  {
    assert EncodeFrames(ms[..1]) == [EncodeFrame(ms[0])];
    assert Flatten([EncodeFrame(ms[0])]) == EncodeFrame(ms[0]) + Flatten<byte>([]);
  }

  lemma PrefixLength(ms: seq<Message>, k: nat, next: nat)
    requires k < |ms| && next == k + 1
    ensures |Flatten(EncodeFrames(ms[..next]))| == |EncodeFrame(ms[0])| + |Flatten(EncodeFrames(ms[1..][..k]))|
  {
    assert EncodeFrames(ms[..next]) == [EncodeFrame(ms[0])] + EncodeFrames(ms[1..][..k]);
  }
}
