// Frames as a viewer sends them: the parser undoes the wire format of RFC 6455, section 5.2,
// in both directions.
module Frames {
  import opened Bytes
  import opened Wire
  import opened Receive

  // ---------------------------------------------------------------- the wire format

  // A frame some sender could have written: each length form carries what it can hold.
  predicate Writable(f: Frame)
  {
    && f.opcode < 16
    && (f.form.Short? ==> |f.masked| < 126)
    && (f.form.Ext16? ==> |f.masked| < Pow256(2))
    && (f.form.Ext64? ==> |f.masked| < Pow256(8))
  }

  function HeadByte(fin: bool, opcode: byte): byte { if fin then 0x80 | opcode else opcode }

  function LengthByte(f: Frame): byte
  {
    match f.form
    case Short => 0x80 | LowByte(|f.masked|)
    case Ext16 => 0x80 | EXT16
    case Ext64 => 0x80 | EXT64
  }

  function Extension(f: Frame): (s: seq<byte>)
  {
    match f.form
    case Short => []
    case Ext16 => ToBigEndian(|f.masked|, 2)
    case Ext64 => ToBigEndian(|f.masked|, 8)
  }

  function Header(f: Frame): (s: seq<byte>)
    ensures 6 <= |s| == 6 + |Extension(f)|
  {
    [HeadByte(f.fin, f.opcode), LengthByte(f)] + Extension(f) + f.key
  }

  function OnWire(f: Frame): (s: seq<byte>)
    ensures |s| >= 6
  {
    Header(f) + f.masked
  }

  lemma HeadFields(fin: bool, opcode: byte)
    requires opcode < 16
    ensures Fin(HeadByte(fin, opcode)) == fin && Opcode(HeadByte(fin, opcode)) == opcode
    ensures !Reserved(HeadByte(fin, opcode))
  {
  }

  lemma MaskBit(b: byte)
    requires b < 128
    ensures Masked(0x80 | b) && Len7(0x80 | b) == b
  {
  }

  lemma LengthFields(f: Frame)
    requires Writable(f)
    ensures Masked(LengthByte(f)) && FormOf(LengthByte(f)) == f.form
    ensures ExtendedSize(LengthByte(f)) == |Extension(f)|
    ensures f.form.Short? ==> Len7(LengthByte(f)) as int == |f.masked|
  {
    match f.form
    case Short =>
      ByteOfInt(|f.masked|);
      SmallLength(LowByte(|f.masked|));
      MaskBit(LowByte(|f.masked|));
    case Ext16 =>
      MaskBit(EXT16);
    case Ext64 =>
      MaskBit(EXT64);
  }

  lemma HeaderFields(f: Frame, rest: seq<byte>, s: seq<byte>)
    requires Writable(f) && s == Header(f) + rest
    ensures s[0] == HeadByte(f.fin, f.opcode) && s[1] == LengthByte(f)
    ensures HeaderSize(s[1]) == |Header(f)| && WireLength(s) == |f.masked|
    ensures s[|Header(f)| - 4..|Header(f)|] == f.key
  {
    LengthFields(f);
    var n := |Extension(f)|;
    assert s[2..2 + n] == Extension(f);
    match f.form
    case Short =>
    case Ext16 => BigEndianRoundTrip(|f.masked|, 2);
    case Ext64 => BigEndianRoundTrip(|f.masked|, 8);
  }

  lemma Middle(a: seq<byte>, b: seq<byte>, c: seq<byte>)
    ensures a + b + c == a + (b + c) && (a + b + c)[|a|..|a| + |b|] == b
  {
  }

  // What such a frame is byte by byte (RFC 6455, section 5.2): the fin bit and the opcode; the
  // mask bit with the length, or with 126 or 127 and the length behind it; the key; the payload.
  predicate SentBytes(w: seq<byte>, f: Frame)
  {
    var n := |f.masked|;
    && |w| >= 2 && w[0] == (if f.fin then 128 else 0) + f.opcode
    && match f.form
       case Short => |w| == 6 + n && w[1] as int == 128 + n && w[2..6] == f.key && w[6..] == f.masked
       case Ext16 =>
         && |w| == 8 + n && w[1] == 254 && w[2] as int * 256 + w[3] as int == n
         && w[4..8] == f.key && w[8..] == f.masked
       case Ext64 =>
         && |w| == 14 + n && w[1] == 255 && EightBytes(w[2..10]) == n
         && w[10..14] == f.key && w[14..] == f.masked
  }

  lemma OnWireParts(w: seq<byte>, f: Frame, e: seq<byte>)
    requires w == OnWire(f) && e == Extension(f)
    ensures |w| == 6 + |e| + |f.masked| && w[0] == HeadByte(f.fin, f.opcode) && w[1] == LengthByte(f)
    ensures w[2..2 + |e|] == e && w[2 + |e|..6 + |e|] == f.key && w[6 + |e|..] == f.masked
  {
  }

  lemma HeadValue(fin: bool, opcode: byte)
    requires opcode < 16
    ensures HeadByte(fin, opcode) == (if fin then 128 else 0) + opcode
  {
  }

  lemma MaskedLength(n: nat)
    requires n < 126
    ensures (0x80 | LowByte(n)) as int == 128 + n
  {
    ByteOfInt(n);
    ByteOfInt(128 + n);
    var b := LowByte(n);
    SmallLength(b);
    assert 0x80 | b == 128 + b;
    HighByte(b);
  }

  lemma HighByte(b: byte)
    requires b < 128
    ensures (128 + b) as int == 128 + b as int
    decreases b as int
  {
    if b == 0 {
      assert (128 as byte) as int == 128;
    } else {
      ByteSuccessor(b - 1);
      HighByte(b - 1);
      ByteSuccessor(128 + (b - 1));
      assert 128 + (b - 1) + 1 == 128 + b && b - 1 + 1 == b;
    }
  }

  lemma OnWireBytes(f: Frame)
    requires Writable(f)
    ensures SentBytes(OnWire(f), f)
  {
    var w, e, n := OnWire(f), Extension(f), |f.masked|;
    HeadValue(f.fin, f.opcode);
    OnWireParts(w, f, e);
    match f.form
    case Short => MaskedLength(n);
    case Ext16 =>
      BigEndianRoundTrip(n, 2);
      TwoValue(e);
      assert w[2] == e[0] && w[3] == e[1];
    case Ext64 =>
      BigEndianRoundTrip(n, 8);
      EightValue(e);
  }

  // The server writes the shortest length form: no frame a sender could have written for a
  // payload of that size has a shorter one.
  lemma LengthMinimal(f: Frame)
    requires Writable(f)
    ensures |LengthField(|f.masked|)| <= 1 + |Extension(f)|
  {
    assert Pow256(1) == 0x100 && Pow256(2) == 0x1_0000;
  }

  // What the parser needs to see of a frame.
  lemma ScanFields(s: seq<byte>, f: Frame, head: nat, max: nat, pending: nat)
    requires |f.masked| <= max && pending + |f.masked| <= INT_MAX
    requires |s| >= head + |f.masked| && head >= 6 && Masked(s[1]) && !Reserved(s[0]) && HeaderSize(s[1]) == head
    requires WireLength(s) == |f.masked|
    requires Fin(s[0]) == f.fin && Opcode(s[0]) == f.opcode && FormOf(s[1]) == f.form
    requires s[head - 4..head] == f.key && s[head..head + |f.masked|] == f.masked
    ensures ScanFrame(s, max, pending) == Complete(f, head + |f.masked|)
  {
  }

  // Whatever frame was written in front, the parser reads that frame and no more.
  lemma ScanReadsFrame(f: Frame, rest: seq<byte>, max: nat, pending: nat)
    requires Writable(f) && |f.masked| <= max && pending + |f.masked| <= INT_MAX
    ensures ScanFrame(OnWire(f) + rest, max, pending) == Complete(f, |OnWire(f)|)
  {
    var s := OnWire(f) + rest;
    Middle(Header(f), f.masked, rest);
    HeaderFields(f, f.masked + rest, s);
    HeadFields(f.fin, f.opcode);
    LengthFields(f);
    ScanFields(s, f, |Header(f)|, max, pending);
  }

  lemma HeadBack(b: byte)
    requires !Reserved(b)
    ensures HeadByte(Fin(b), Opcode(b)) == b && Opcode(b) < 16
  {
  }

  lemma MaskBack(b: byte)
    requires Masked(b)
    ensures 0x80 | Len7(b) == b
  {
  }

  lemma SmallLen7(b: byte)
    requires Len7(b) != EXT16 && Len7(b) != EXT64
    ensures Len7(b) < 126
  {
  }

  lemma SmallByte(x: byte)
    requires x < 126
    ensures x as int < 126
  {
  }

  lemma LowByteOfByte(x: byte)
    ensures LowByte(x as int) == x
  {
    assert x as int % 256 == x as int;
  }

  lemma ShortLength(b: byte)
    requires FormOf(b).Short?
    ensures Len7(b) as int < 126 && LowByte(Len7(b) as int) == Len7(b)
  {
    SmallLen7(b);
    SmallByte(Len7(b));
    LowByteOfByte(Len7(b));
  }

  lemma LengthBack(s: seq<byte>, f: Frame)
    requires |s| >= 2 && |s| >= HeaderSize(s[1]) && Masked(s[1])
    requires f.form == FormOf(s[1]) && |f.masked| == WireLength(s)
    ensures f.form.Short? ==> |f.masked| < 126
    ensures f.form.Ext16? ==> |f.masked| < Pow256(2)
    ensures f.form.Ext64? ==> |f.masked| < Pow256(8)
    ensures LengthByte(f) == s[1] && Extension(f) == s[2..HeaderSize(s[1]) - 4]
  {
    MaskBack(s[1]);
    if f.form.Short? {
      ShortLength(s[1]);
    } else if f.form.Ext16? {
      BigEndianImage(s[2..4]);
    } else {
      BigEndianImage(s[2..10]);
    }
  }

  lemma HeaderBack(s: seq<byte>, f: Frame)
    requires |s| >= 2 && |s| >= HeaderSize(s[1]) && |s| >= HeaderSize(s[1]) + WireLength(s)
    requires Masked(s[1]) && !Reserved(s[0]) && f == FrameAt(s)
    ensures Writable(f) && Header(f) == s[..HeaderSize(s[1])]
  {
    var head := HeaderSize(s[1]);
    HeadBack(s[0]);
    LengthBack(s, f);
    assert s[..head] == [s[0], s[1]] + s[2..head - 4] + s[head - 4..head];
  }

  // And whatever the parser reads is what its sender wrote, byte for byte.
  lemma ScanReadsOnlyFrames(s: seq<byte>, max: nat, pending: nat)
    requires ScanFrame(s, max, pending).Complete?
    ensures var r := ScanFrame(s, max, pending);
      Writable(r.frame) && OnWire(r.frame) == s[..r.size] && |r.frame.masked| <= max
  {
    FrameBack(s, FrameAt(s));
  }

  lemma FrameBack(s: seq<byte>, f: Frame)
    requires |s| >= 2 && |s| >= HeaderSize(s[1]) && |s| >= HeaderSize(s[1]) + WireLength(s)
    requires Masked(s[1]) && !Reserved(s[0]) && f == FrameAt(s)
    ensures Writable(f) && OnWire(f) == s[..HeaderSize(s[1]) + WireLength(s)]
  {
    HeaderBack(s, f);
    Halves(s, HeaderSize(s[1]), HeaderSize(s[1]) + WireLength(s));
  }

  lemma Halves(s: seq<byte>, i: nat, j: nat)
    requires i <= j <= |s|
    ensures s[..j] == s[..i] + s[i..j]
  {
  }
}
