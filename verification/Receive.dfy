// What a viewer's byte stream means: the one-pass parser of RFC 6455, section 5.2, and the
// handling of each frame, that the receive machine of src/websocket.c has to agree with.
module Receive {
  import opened Bytes
  import opened Wire
  import opened Utf8

  // ---------------------------------------------------------------- frames from a viewer

  // A masked frame as it lies on the wire, with the length form its sender chose.
  datatype Form = Short | Ext16 | Ext64

  type Key = k: seq<byte> | |k| == 4 witness [0, 0, 0, 0]

  datatype Frame = Frame(fin: bool, opcode: byte, form: Form, key: Key, masked: seq<byte>)

  function XorByte(a: byte, b: byte): byte { a ^ b }

  // RFC 6455, section 5.3: octet i is combined with octet i mod 4 of the key.
  function Unmask(s: seq<byte>, key: Key): (r: seq<byte>)
    ensures |r| == |s|
  {
    seq(|s|, i requires 0 <= i < |s| => XorByte(s[i], key[i % 4]))
  }

  lemma UnmaskTwice(s: seq<byte>, key: Key)
    ensures Unmask(Unmask(s, key), key) == s
  {
    forall i | 0 <= i < |s|
      ensures Unmask(Unmask(s, key), key)[i] == s[i]
    {
      XorTwice(s[i], key[i % 4]);
    }
  }

  lemma XorTwice(a: byte, b: byte)
    ensures XorByte(XorByte(a, b), b) == a
  {
  }

  function HeaderSize(b: byte): (n: nat)
    ensures 6 <= n <= 14
  {
    6 + ExtendedSize(b)
  }

  function FormOf(b: byte): Form
  {
    if Len7(b) == EXT16 then Ext16 else if Len7(b) == EXT64 then Ext64 else Short
  }

  // The frame whose header starts s, its payload included.
  function FrameAt(s: seq<byte>): Frame
    requires |s| >= 2 && |s| >= HeaderSize(s[1]) && |s| >= HeaderSize(s[1]) + WireLength(s)
  {
    var head := HeaderSize(s[1]);
    Frame(Fin(s[0]), Opcode(s[0]), FormOf(s[1]), s[head - 4..head], s[head..head + WireLength(s)])
  }

  // ---------------------------------------------------------------- one frame off the front

  datatype Scan = Incomplete | Refused | TooLarge | OutOfRange | Complete(frame: Frame, size: nat)

  // `pending` bytes of a fragmented message have been collected. Lengths and totals of 2^31
  // and more, which the int fields of the C code cannot hold, are out of range.
  function ScanFrame(s: seq<byte>, max: nat, pending: nat): (r: Scan)
    ensures r.Complete? ==> 6 <= r.size <= |s|
  {
    if |s| < 2 then Incomplete
    else if !Masked(s[1]) || Reserved(s[0]) then Refused
    else if |s| < HeaderSize(s[1]) then Incomplete
    else
      var n := WireLength(s);
      if n > INT_MAX then OutOfRange
      else if n > max then TooLarge
      else if pending + n > INT_MAX then OutOfRange
      else if |s| < HeaderSize(s[1]) + n then Incomplete
      else Complete(FrameAt(s), HeaderSize(s[1]) + n)
  }

  lemma WireLengthPrefix(s: seq<byte>, t: seq<byte>)
    requires |s| >= 2 && |s| >= 2 + ExtendedSize(s[1])
    ensures WireLength(s + t) == WireLength(s)
  {
    if Len7(s[1]) == EXT16 {
      assert (s + t)[2..4] == s[2..4];
    } else if Len7(s[1]) == EXT64 {
      assert (s + t)[2..10] == s[2..10];
    }
  }

  lemma FrameAtPrefix(s: seq<byte>, t: seq<byte>)
    requires |s| >= 2 && |s| >= HeaderSize(s[1]) && |s| >= HeaderSize(s[1]) + WireLength(s)
    ensures WireLength(s + t) == WireLength(s) && FrameAt(s + t) == FrameAt(s)
  {
    WireLengthPrefix(s, t);
    var head, n := HeaderSize(s[1]), WireLength(s);
    var u := s + t;
    assert u[..|s|] == s;
    assert u[head - 4..head] == u[..|s|][head - 4..head] && u[head..head + n] == u[..|s|][head..head + n];
  }

  // A decision once made does not depend on what follows.
  lemma ScanStable(s: seq<byte>, t: seq<byte>, max: nat, pending: nat)
    requires !ScanFrame(s, max, pending).Incomplete?
    ensures ScanFrame(s + t, max, pending) == ScanFrame(s, max, pending)
  {
    if |s| >= HeaderSize(s[1]) {
      WireLengthPrefix(s, t);
      if |s| >= HeaderSize(s[1]) + WireLength(s) {
        FrameAtPrefix(s, t);
      }
    }
  }

  // ---------------------------------------------------------------- handling a frame

  datatype Config = Config(max: nat, echo: bool)

  datatype Verdict = Open | Closed | Overflow

  // The data frames of a message not yet complete, unmasked.
  datatype Partial = NoMessage | Fragments(opcode: byte, payload: seq<byte>)

  // onmessage was called, or ws_send_frame was.
  datatype Event = Deliver(opcode: byte, payload: seq<byte>) | Reply(m: Message)

  datatype Machine = Machine(verdict: Verdict, partial: Partial, events: seq<Event>)

  const INITIAL := Machine(Open, NoMessage, [])

  const PROTO_ERR: nat := 1002
  const INVALID_UTF8: nat := 1007
  const TOO_LARGE: nat := 1009

  function CloseMessage(code: nat, text: seq<byte>): Message
  {
    Message(OPCODE_CLOSE, ToBigEndian(code, 2) + text)
  }

  // "Frame is too big"
  const TOO_BIG: seq<byte> := [70, 114, 97, 109, 101, 32, 105, 115, 32, 116, 111, 111, 32, 98, 105, 103]

  // The connection is given up, with or without a last frame to the viewer.
  function Drop(m: Machine): Machine
  {
    Machine(Closed, NoMessage, m.events)
  }

  function DropWith(m: Machine, last: Message): Machine
  {
    Machine(Closed, NoMessage, m.events + [Reply(last)])
  }

  function Collected(p: Partial): seq<byte>
  {
    if p.NoMessage? then [] else p.payload
  }

  // A complete message, as it leaves the machine: delivered, or sent back as it came.
  function Outcome(c: Config, opcode: byte, payload: seq<byte>): Event
  {
    if c.echo then Reply(Message(opcode, payload)) else Deliver(opcode, payload)
  }

  // A text, binary or continuation frame that is in place.
  ghost function HandleData(c: Config, m: Machine, opcode: byte, f: Frame): Machine
  {
    var payload := Collected(m.partial) + Unmask(f.masked, f.key);
    if !f.fin then m.(partial := Fragments(opcode, payload))
    else if opcode == OPCODE_TEXT && !IsWellFormed(payload) then
      DropWith(m, CloseMessage(INVALID_UTF8, []))
    else Machine(Open, NoMessage, m.events + [Outcome(c, opcode, payload)])
  }

  ghost function Handle(c: Config, m: Machine, f: Frame): Machine
  {
    if f.opcode == OPCODE_CONTINUATION then
      if m.partial.NoMessage? then Drop(m) else HandleData(c, m, m.partial.opcode, f)
    else if f.opcode == OPCODE_TEXT || f.opcode == OPCODE_BIN then
      if m.partial.Fragments? then Drop(m) else HandleData(c, m, f.opcode, f)
    else if f.opcode == OPCODE_PONG then
      if !f.fin then DropWith(m, CloseMessage(PROTO_ERR, [])) else m.(partial := NoMessage)
    else if f.opcode == OPCODE_PING then
      if !f.fin || |f.masked| > 125 then DropWith(m, CloseMessage(PROTO_ERR, []))
      else m.(events := m.events + [Reply(Message(OPCODE_PONG, Unmask(f.masked, f.key)))])
    else DropWith(m, Message(OPCODE_CLOSE, []))
  }

  // ---------------------------------------------------------------- a stream of bytes

  // The machine after all frames that lie whole in s, and the bytes behind them. Nothing is
  // read after the connection has been given up.
  ghost function Feed(c: Config, m: Machine, s: seq<byte>): (r: (Machine, seq<byte>))
    decreases |s|
  {
    if m.verdict != Open then (m, [])
    else
      match ScanFrame(s, c.max, |Collected(m.partial)|)
      case Incomplete => (m, s)
      case Refused => (Drop(m), [])
      case TooLarge => (DropWith(m, CloseMessage(TOO_LARGE, TOO_BIG)), [])
      case OutOfRange => (m.(verdict := Overflow), [])
      case Complete(f, size) => Feed(c, Handle(c, m, f), s[size..])
  }

  // Chunk independence of the specification: bytes may arrive in any two pieces, and hence
  // in any number of them.
  lemma {:induction false} FeedConcat(c: Config, m: Machine, a: seq<byte>, b: seq<byte>)
    ensures Feed(c, m, a + b) == (var (m', rest) := Feed(c, m, a); Feed(c, m', rest + b))
    decreases |a|
  {
    if m.verdict == Open {
      var pending := |Collected(m.partial)|;
      var r := ScanFrame(a, c.max, pending);
      if !r.Incomplete? {
        ScanStable(a, b, c.max, pending);
        if r.Complete? {
          assert (a + b)[r.size..] == a[r.size..] + b;
          FeedConcat(c, Handle(c, m, r.frame), a[r.size..], b);
        }
      }
    }
  }

  // In whatever pieces the stream arrives.
  ghost function FeedAll(c: Config, m: Machine, rest: seq<byte>, pieces: seq<seq<byte>>): (Machine, seq<byte>)
    decreases |pieces|
  {
    if pieces == [] then (m, rest)
    else
      var r := Feed(c, m, rest + pieces[0]);
      FeedAll(c, r.0, r.1, pieces[1..])
  }

  // A state between two reads: nothing more can be done with the bytes kept.
  ghost predicate Settled(c: Config, m: Machine, rest: seq<byte>)
  {
    Feed(c, m, rest) == (m, rest)
  }

  lemma {:induction false} ChunkIndependence(c: Config, m: Machine, rest: seq<byte>, pieces: seq<seq<byte>>)
    requires Settled(c, m, rest)
    ensures FeedAll(c, m, rest, pieces) == Feed(c, m, rest + Flatten(pieces))
    decreases |pieces|
  {
    if pieces == [] {
      assert rest + [] == rest;
    } else {
      var first, tail := rest + pieces[0], Flatten(pieces[1..]);
      assert rest + Flatten(pieces) == first + tail;
      var r := Feed(c, m, first);
      FeedSettles(c, m, first);
      ChunkIndependence(c, r.0, r.1, pieces[1..]);
      FeedConcat(c, m, first, tail);
    }
  }

  lemma {:induction false} FeedSettles(c: Config, m: Machine, s: seq<byte>)
    ensures var (m', rest) := Feed(c, m, s); Settled(c, m', rest)
    decreases |s|
  {
    if m.verdict == Open {
      var r := ScanFrame(s, c.max, |Collected(m.partial)|);
      if r.Complete? {
        FeedSettles(c, Handle(c, m, r.frame), s[r.size..]);
      }
    }
  }

  // No length and no total of 2^31 or more is announced in s.
  ghost predicate InRange(c: Config, s: seq<byte>)
  {
    Feed(c, INITIAL, s).0.verdict != Overflow
  }

  lemma InRangePrefix(c: Config, s: seq<byte>, more: seq<byte>)
    requires InRange(c, s + more)
    ensures InRange(c, s)
  {
    FeedConcat(c, INITIAL, s, more);
  }
}
