// The receive machine of src/websocket.c, field by field and step by step: whatever pieces
// recv() hands out, its state is the one-pass parser's state after the bytes taken so far.
module ReceiveMachine {
  import opened Bytes
  import opened Wire
  import opened Utf8
  import opened Sanitize
  import opened Receive

  // What reading assigns to the status: WS_OK, WS_READING, or WS_ERR with WS_CLOSE.
  datatype ReadStatus = Ok | Reading | ErrClose

  // A 64-bit length stored in an int.
  function ToInt32(n: nat): (r: int)
    ensures n <= INT_MAX ==> r == n
  {
    var low := n % 0x1_0000_0000;
    if low > INT_MAX then low - 0x1_0000_0000 else low
  }

  // ---------------------------------------------------------------- the socket

  // recv(): each call takes the next number of the schedule as an upper bound on what it
  // hands out; 0, an empty schedule or no data mean EAGAIN.
  class RecvSocket {
    var incoming: seq<byte>
    var schedule: seq<nat>

    constructor (incoming: seq<byte>, schedule: seq<nat>)
      ensures this.incoming == incoming && this.schedule == schedule
    {
      this.incoming, this.schedule := incoming, schedule;
    }

    ghost predicate Ready()
      reads this
    {
      incoming != [] && schedule != [] && schedule[0] > 0
    }

    // Every byte that comes will be handed out: no call says EAGAIN before the data is used up.
    ghost predicate Eager()
      reads this
    {
      |schedule| >= |incoming| && forall k :: 0 <= k < |schedule| ==> schedule[k] > 0
    }

    method Recv(buf: array<byte>, at: nat, size: nat) returns (n: int, ghost got: seq<byte>)
      requires 0 < size && at + size <= buf.Length
      modifies this, buf
      ensures old(incoming) == got + incoming
      ensures if old(Ready()) then 1 <= n <= size && |got| == n else n == -1 && got == []
      ensures old(Eager()) ==> Eager() && (old(incoming) != [] ==> old(Ready()))
      ensures buf[at..at + |got|] == got
      ensures forall k :: 0 <= k < buf.Length && !(at <= k < at + |got|) ==> buf[k] == old(buf[k])
    {
      got := [];
      if schedule == [] {
        return -1, [];
      }
      var limit := schedule[0];
      schedule := schedule[1..];
      if limit == 0 || incoming == [] {
        return -1, [];
      }
      var most := if limit < size then limit else size;
      n := if most < |incoming| then most else |incoming|;
      got := incoming[..n];
      forall k | at <= k < at + n {
        buf[k] := incoming[k - at];
      }
      incoming := incoming[n..];
    }
  }

  // ---------------------------------------------------------------- frames and messages

  const HEAD_SZ: nat := 16

  // The beginning of a header the machine goes on reading.
  predicate PartialHeader(h: seq<byte>)
  {
    |h| < 2 || (Masked(h[1]) && !Reserved(h[0]) && |h| < HeaderSize(h[1]))
  }

  predicate WholeHeader(h: seq<byte>)
  {
    |h| >= 2 && Masked(h[1]) && !Reserved(h[0]) && |h| == HeaderSize(h[1])
  }

  predicate RefusedHeader(h: seq<byte>)
  {
    |h| >= 2 && (!Masked(h[1]) || Reserved(h[0]))
  }

  class WSFrame {
    var opcode: byte
    var fin: bool
    var mask: Key
    var res: bool
    var payloadOffset: nat
    var payloadlen: int
    var reading: bool
    var masking: bool
    const buf: array<byte>
    var buflen: nat

    // new_wsframe
    constructor ()
      ensures reading && buflen == 0 && fresh(buf) && buf.Length == HEAD_SZ + 1
    {
      opcode, fin, mask, res, payloadOffset, payloadlen := 0, false, [0, 0, 0, 0], false, 0, 0;
      reading, masking, buflen := true, false, 0;
      buf := new byte[HEAD_SZ + 1](_ => 0);
    }

    ghost predicate Shape()
      reads this
    {
      buf.Length == HEAD_SZ + 1 && buflen <= HEAD_SZ
    }

    // The header bytes read so far.
    ghost function Head(): seq<byte>
      reads this, buf
      requires Shape()
    {
      buf[..buflen]
    }

    // The header h has been read and taken apart.
    ghost predicate Describes(h: seq<byte>)
      reads this, buf
    {
      && WholeHeader(h) && Shape() && !reading
      && payloadOffset == |h| <= HEAD_SZ && buf[..payloadOffset] == h
      && fin == Fin(h[0]) && opcode == Opcode(h[0])
      && mask == h[|h| - 4..] && payloadlen == ToInt32(WireLength(h))
    }

    // ws_set_payloadlen
    method SetPayloadlen()
      requires Shape() && WholeHeader(Head())
      modifies this`payloadlen
      ensures payloadlen == ToInt32(WireLength(Head()))
    {
      ghost var h := Head();
      var len := Len7(buf[1]);
      assert h[1] == buf[1];
      if len == EXT16 {
        assert buf[2..4] == h[2..4];
        payloadlen := ToInt32(FromBigEndian(buf[2..4]));
      } else if len == EXT64 {
        assert buf[2..10] == h[2..10];
        payloadlen := ToInt32(FromBigEndian(buf[2..10]));
      } else {
        payloadlen := ToInt32(len as int);
      }
    }

    // ws_set_masking_key
    method SetMaskingKey()
      requires Shape() && WholeHeader(Head())
      modifies this`mask
      ensures mask == Head()[|Head()| - 4..]
    {
      ghost var h := Head();
      var len := Len7(buf[1]);
      assert h[1] == buf[1];
      var at := if len == EXT16 then 4 else if len == EXT64 then 10 else 2;
      assert buf[at..at + 4] == h[|h| - 4..];
      mask := buf[at..at + 4];
    }
  }

  // ws_unmask_payload
  method UnmaskPayload(buf: array?<byte>, len: nat, offset: nat, mask: Key)
    requires offset <= len
    requires if buf == null then len == 0 else len <= buf.Length
    modifies buf
    ensures buf != null ==> buf[..offset] == old(buf[..offset])
    ensures buf != null ==> buf[offset..len] == Unmask(old(buf[offset..len]), mask)
  {
    var i, j := offset, 0;
    while i < len
      invariant offset <= i <= len && j == i - offset
      invariant buf != null ==> forall k :: 0 <= k < offset || i <= k < len ==> buf[k] == old(buf[k])
      invariant buf != null ==> forall k :: offset <= k < i ==> buf[k] == XorByte(old(buf[k]), mask[(k - offset) % 4])
    {
      buf[i] := XorByte(buf[i], mask[j % 4]);
      i, j := i + 1, j + 1;
    }
  }

  // realloc() of the C library: nothing is left of a block of no bytes.
  method Realloc(a: array?<byte>, n: nat) returns (b: array?<byte>)
    ensures n == 0 <==> b == null
    ensures b != null ==> fresh(b) && b.Length == n
    ensures b != null && a != null ==> forall k :: 0 <= k < a.Length && k < n ==> b[k] == a[k]
  {
    if n == 0 {
      return null;
    }
    b := new byte[n];
    if a != null {
      forall k | 0 <= k < a.Length && k < n {
        b[k] := a[k];
      }
    }
  }

  class WSMessage {
    var opcode: byte
    var fragmented: bool
    var maskOffset: nat
    var payload: array?<byte>
    var payloadsz: nat
    var buflen: nat
    // The fragments taken in so far, and the masked payload bytes of the current frame.
    ghost var gathered: seq<byte>
    ghost var current: seq<byte>

    // new_wsmessage
    constructor ()
      ensures Valid() && payload == null && !fragmented && buflen == 0 && current == []
    {
      opcode, fragmented, maskOffset, payload, payloadsz, buflen := 0, false, 0, null, 0, 0;
      gathered, current := [], [];
    }

    // payloadsz is where the payload of the current frame starts, plus the buflen bytes of it
    // that are there; before the first fragment has been taken in it starts at the front.
    ghost predicate Valid()
      reads this`opcode, this`fragmented, this`payload, this`payloadsz, this`buflen
      reads this`gathered, this`current, payload
    {
      && payloadsz == |gathered| + buflen && buflen == |current|
      && (if payload == null then payloadsz == 0
          else payloadsz <= payload.Length && payload[..payloadsz] == gathered + current)
      && (if fragmented then opcode == OPCODE_TEXT || opcode == OPCODE_BIN else gathered == [])
    }

    // Every byte of the current frame's n payload bytes lies inside the allocated buffer.
    ghost predicate Fits(n: nat)
      reads this`payload, this`gathered
    {
      payload != null && |gathered| + n <= payload.Length
    }

    // The allocating part of ws_get_frm_payload, with ws_realloc_frm_payload.
    method Alloc(n: nat)
      requires Valid() && (buflen > 0 ==> Fits(n))
      modifies this`payload
      ensures Valid() && (n > 0 ==> Fits(n))
      ensures payload == old(payload) || fresh(payload)
    {
      if payload == null && n > 0 {
        payload := new byte[n](_ => 0);
      } else if buflen == 0 && n > 0 {
        var newlen := payloadsz + n;
        payload := Realloc(payload, newlen);
      }
    }

    // ws_read_payload, as far as the message is concerned.
    method Read(sock: RecvSocket, need: nat) returns (bytes: int, ghost got: seq<byte>)
      requires Valid() && 0 < need && Fits(buflen + need)
      modifies this`payloadsz, this`buflen, this`current, sock, payload
      ensures old(sock.incoming) == got + sock.incoming
      ensures if old(sock.Ready()) then 1 <= bytes == |got| <= need else bytes == -1 && got == []
      ensures old(sock.Eager()) ==> sock.Eager()
      ensures Valid() && current == old(current) + got
    {
      ghost var data := payload[..payloadsz];
      bytes, got := sock.Recv(payload, payloadsz, need);
      assert payload[..payloadsz] == data;
      if bytes < 1 {
        return;
      }
      ghost var end := payloadsz + bytes;
      assert payload[..end] == data + got;
      Regroup(gathered, current, got);
      buflen := buflen + bytes;
      payloadsz := payloadsz + bytes;
      current := current + got;
    }

    // The middle of ws_handle_text_bin: the current frame is unmasked in place and becomes
    // part of the message.
    method TakeFragment(offset: nat, mask: Key)
      requires Valid() && offset == payloadsz - buflen
      requires opcode == OPCODE_TEXT || opcode == OPCODE_BIN
      modifies this`fragmented, this`buflen, this`gathered, this`current, payload
      ensures Valid() && fragmented && current == []
      ensures gathered == old(gathered) + Unmask(old(current), mask)
    {
      assert payload != null ==> payload[..offset] == gathered && payload[offset..payloadsz] == current;
      UnmaskPayload(payload, payloadsz, offset, mask);
      buflen := 0;
      fragmented := true;
      gathered := gathered + Unmask(current, mask);
      current := [];
      assert payload != null ==> payload[..payloadsz] == payload[..offset] + payload[offset..payloadsz];
    }

    // The middle of ws_handle_ping: the payload of the ping is copied, unmasked, and cut off
    // the message again.
    method TakePing(len: nat, mask: Key) returns (buf: array<byte>)
      requires Valid() && buflen == len > 0
      modifies this`payload, this`payloadsz, this`buflen, this`current
      ensures Valid() && current == []
      ensures payload == null || fresh(payload)
      ensures fresh(buf) && buf[..] == Unmask(old(current), mask)
    {
      var pos := payloadsz - len;
      var copy := payload[pos..pos + len];
      assert copy == current && payload[..pos] == gathered;
      buf := new byte[len](i requires 0 <= i < len => copy[i]);
      assert buf[0..len] == copy;
      UnmaskPayload(buf, len, 0, mask);
      assert buf[..] == buf[0..len];
      var newlen := payloadsz - len;
      payload := Realloc(payload, newlen);
      payloadsz := payloadsz - len;
      buflen := 0;
      current := [];
      assert payload != null ==> payload[..payloadsz] == gathered;
    }
  }

  // ---------------------------------------------------------------- the client

  // The half of WSClient that reading works on.
  class ReceivingClient {
    var frame: WSFrame?
    var message: WSMessage?
    var status: ReadStatus
    const sock: RecvSocket
    const config: Config
    // The calls of onmessage and ws_send_frame, in order.
    var events: seq<Event>
    // The bytes taken from the socket, and those of the current frame's header among them.
    ghost var consumed: seq<byte>
    ghost var header: seq<byte>
    ghost var Repr: set<object>

    constructor (config: Config, sock: RecvSocket)
      requires InRange(config, sock.incoming)
      ensures Valid() && status == Ok && events == [] && consumed == [] && fresh(Repr - {sock})
      ensures this.config == config && this.sock == sock
    {
      frame, message, status, events, consumed, header := null, null, Ok, [], [], [];
      this.config, this.sock := config, sock;
      Repr := {this, sock};
      new;
      assert [] + sock.incoming == sock.incoming;
    }

    // ---- sending, as far as receiving is concerned

    // ws_send_frame
    method SendFrame(opcode: byte, p: seq<byte>)
      modifies this`events
      ensures events == old(events) + [Reply(Message(opcode, p))]
    {
      events := events + [Reply(Message(opcode, p))];
    }

    // ws_error
    method Error(code: nat, err: seq<byte>)
      modifies this`events
      ensures events == old(events) + [Reply(CloseMessage(code, err))]
    {
      var code_be := ToBigEndian(code, 2);
      SendFrame(OPCODE_CLOSE, code_be + err);
    }

    // ws_handle_err
    method HandleErr(code: nat, newStatus: ReadStatus)
      modifies this`events, this`status
      ensures status == newStatus && events == old(events) + [Reply(CloseMessage(code, []))]
    {
      status := newStatus;
      Error(code, []);
    }

    // ws_send_data
    method SendData(opcode: byte, p: seq<byte>)
      modifies this`events
      ensures events == old(events) +
        [Reply(Message(opcode, if opcode != OPCODE_BIN then Sanitized(p) else p))]
    {
      if opcode != OPCODE_BIN {
        var buf := SanitizeUtf8(p);
        SendFrame(opcode, buf[..|p|]);
      } else {
        SendFrame(opcode, p);
      }
    }

    // ---- what the fields stand for

    ghost predicate MessageOk()
      reads this`message, message, if message == null then null else message.payload
    {
      message != null ==> message.Valid()
    }

    ghost function PartialView(): Partial
      reads this`message, message
    {
      if message == null || !message.fragmented then NoMessage else Fragments(message.opcode, message.gathered)
    }

    ghost function MachineView(): Machine
      reads this`message, this`status, this`events, message
    {
      if status == ErrClose then Machine(Closed, NoMessage, events) else Machine(Open, PartialView(), events)
    }

    // The payload bytes of the current frame.
    ghost function PayloadSoFar(): seq<byte>
      reads this`message, message
    {
      if message == null then [] else message.current
    }

    // ---- the header

    // ws_read_header
    method ReadHeader(pos: nat, need: nat) returns (bytes: int, ghost got: seq<byte>)
      requires frame != null && frame.Shape() && pos == frame.buflen && 0 < need && pos + need <= 14
      modifies this`status, this`consumed, sock, frame`buflen, frame.buf
      ensures frame.Shape() && frame.Head() == old(frame.Head()) + got
      ensures consumed == old(consumed) + got && old(sock.incoming) == got + sock.incoming
      ensures if old(sock.Ready()) then 1 <= bytes == |got| <= need && status == old(status)
        else bytes == -1 && got == [] && status == Reading
      ensures old(sock.Eager()) ==> sock.Eager()
    {
      ghost var h := frame.Head();
      bytes, got := sock.Recv(frame.buf, pos, need);
      consumed := consumed + got;
      if bytes < 1 {
        status := Reading;
        assert frame.Head() == h;
        return;
      }
      frame.buflen := frame.buflen + bytes;
      frame.buf[frame.buflen] := 0;
      assert frame.Head() == h + got;
    }

    // One of the three reads of ws_get_frm_header: go on until `target` bytes are there.
    method FillHeader(target: nat, last: int) returns (bytes: int, done: bool, ghost got: seq<byte>)
      requires frame != null && frame.Shape() && target <= 14
      modifies this`status, this`consumed, sock, frame`buflen, frame.buf
      ensures frame.Shape() && frame.Head() == old(frame.Head()) + got
      ensures consumed == old(consumed) + got && old(sock.incoming) == got + sock.incoming
      ensures status == if done then old(status) else Reading
      ensures done ==> |frame.Head()| == if old(|frame.Head()|) < target then target else old(|frame.Head()|)
      ensures !done ==> |frame.Head()| < target
      ensures old(|frame.Head()|) >= target ==> bytes == last && got == [] && (sock.Ready() <==> old(sock.Ready()))
      ensures old(|frame.Head()|) < target ==> (done ==> bytes >= 1) && (old(sock.Ready()) ==> got != [])
      ensures old(sock.Eager()) ==> sock.Eager()
    {
      bytes, done, got := last, true, [];
      var readh := frame.buflen;
      var need := target - readh;
      if need > 0 {
        bytes, got := ReadHeader(readh, need);
        if bytes != need {
          status := Reading;
          done := false;
        }
      }
    }

    // ws_set_front_header_fields
    method SetFrontHeaderFields() returns (r: int)
      requires frame != null && frame.Shape() && |frame.Head()| >= 2
      modifies this`status, frame`fin, frame`masking, frame`opcode, frame`res
      ensures frame.fin == Fin(frame.Head()[0]) && frame.opcode == Opcode(frame.Head()[0])
      ensures r == 0 <==> !RefusedHeader(frame.Head())
      ensures status == if r == 0 then old(status) else ErrClose
    {
      var buf := frame.buf;
      frame.fin := Fin(buf[0]);
      frame.masking := Masked(buf[1]);
      frame.opcode := Opcode(buf[0]);
      frame.res := Reserved(buf[0]);
      assert frame.Head()[0] == buf[0] && frame.Head()[1] == buf[1];
      r := 0;
      if !frame.masking || frame.res {
        status := ErrClose;
        r := 1;
      }
    }

    // What ws_get_frm_header makes of the header bytes h it has after its reads.
    ghost predicate HeaderOutcome(h: seq<byte>, bytes: int, eventsBefore: seq<Event>)
      reads this, frame, if frame == null then null else frame.buf
    {
      && frame != null && frame.Shape()
      && if RefusedHeader(h) then frame.reading && status == ErrClose && events == eventsBefore
         else if PartialHeader(h) then
           frame.reading && status == Reading && events == eventsBefore && frame.Head() == h
         else if WholeHeader(h) && ToInt32(WireLength(h)) > config.max then
           frame.reading && status == ErrClose && events == eventsBefore + [Reply(CloseMessage(TOO_LARGE, TOO_BIG))]
         else
           frame.Describes(h) && status == Ok && events == eventsBefore && bytes >= 1
    }

    // The last part of ws_get_frm_header: the whole header is there.
    method FinishHeader(offset: nat)
      requires frame != null && frame.Shape() && frame.reading
      requires WholeHeader(frame.Head()) && offset == |frame.Head()|
      requires frame.fin == Fin(frame.Head()[0]) && frame.opcode == Opcode(frame.Head()[0])
      modifies this`status, this`events
      modifies frame`payloadlen, frame`mask, frame`buflen, frame`reading, frame`payloadOffset
      ensures HeaderOutcome(old(frame.Head()), 1, old(events))
    {
      frame.SetPayloadlen();
      frame.SetMaskingKey();
      if frame.payloadlen > config.max {
        Error(TOO_LARGE, TOO_BIG);
        status := ErrClose;
        return;
      }
      frame.buflen := 0;
      frame.reading := false;
      frame.payloadOffset := offset;
      status := Ok;
    }

    // The third read of ws_get_frm_header: the masking key.
    method GetMaskingKey(offset: nat, last: int) returns (bytes: int, ghost got: seq<byte>)
      requires frame != null && frame.Shape() && frame.reading
      requires |frame.Head()| >= offset >= 2 && PartialHeader(frame.Head())
      requires offset == 2 + ExtendedSize(frame.Head()[1])
      requires frame.fin == Fin(frame.Head()[0]) && frame.opcode == Opcode(frame.Head()[0])
      modifies this`status, this`events, this`consumed, sock, frame, frame.buf
      ensures consumed == old(consumed) + got && old(sock.incoming) == got + sock.incoming
      ensures old(sock.Ready()) ==> got != []
      ensures old(sock.Eager()) ==> sock.Eager()
      ensures HeaderOutcome(old(frame.Head()) + got, bytes, old(events))
    {
      var done;
      bytes, done, got := FillHeader(4 + offset, last);
      if done {
        FinishHeader(4 + offset);
      }
    }

    // The second read: the extended length.
    method GetRestOfHeader(last: int) returns (bytes: int, ghost got: seq<byte>)
      requires frame != null && frame.Shape() && frame.reading
      requires |frame.Head()| >= 2 && PartialHeader(frame.Head())
      requires frame.fin == Fin(frame.Head()[0]) && frame.opcode == Opcode(frame.Head()[0])
      modifies this`status, this`events, this`consumed, sock, frame, frame.buf
      ensures consumed == old(consumed) + got && old(sock.incoming) == got + sock.incoming
      ensures old(sock.Ready()) ==> got != []
      ensures old(sock.Eager()) ==> sock.Eager()
      ensures HeaderOutcome(old(frame.Head()) + got, bytes, old(events))
    {
      ghost var h, before := frame.Head(), consumed;
      var extended := ExtendedSize(frame.buf[1]);
      assert frame.buf[1] == h[1];
      var done;
      bytes, done, got := FillHeader(2 + extended, last);
      if !done {
        return;
      }
      ghost var more;
      bytes, more := GetMaskingKey(2 + extended, bytes);
      Regroup(h, got, more);
      Regroup(before, got, more);
      Regroup(got, more, sock.incoming);
      got := got + more;
    }

    // ws_get_frm_header, for a frame that is there.
    method GetHeader() returns (bytes: int, ghost got: seq<byte>)
      requires frame != null && frame.Shape() && frame.reading && PartialHeader(frame.Head())
      modifies this`status, this`events, this`consumed, sock, frame, frame.buf
      ensures consumed == old(consumed) + got && old(sock.incoming) == got + sock.incoming
      ensures old(sock.Ready()) ==> got != []
      ensures old(sock.Eager()) ==> sock.Eager()
      ensures HeaderOutcome(old(frame.Head()) + got, bytes, old(events))
    {
      ghost var h, before := frame.Head(), consumed;
      var done;
      bytes, done, got := FillHeader(2, 0);
      if !done {
        return;
      }
      var r := SetFrontHeaderFields();
      if r != 0 {
        return;
      }
      ghost var more;
      bytes, more := GetRestOfHeader(bytes);
      Regroup(h, got, more);
      Regroup(before, got, more);
      Regroup(got, more, sock.incoming);
      got := got + more;
    }

    // There is a frame to read a header into.
    method EnsureFrame()
      requires AtHeader() && Owned()
      modifies this`frame, this`Repr
      ensures frame != null && AtHeader() && Owned() && fresh(Repr - old(Repr))
      ensures if old(frame) == null then fresh(frame) && fresh(frame.buf) else frame == old(frame)
    {
      if frame == null {
        frame := new WSFrame();
        Repr := Repr + {frame, frame.buf};
        assert frame.Head() == [];
      }
    }

    // ws_get_frm_header
    method GetFrmHeader() returns (bytes: int, ghost got: seq<byte>)
      requires AtHeader() && Owned()
      modifies this`frame, this`status, this`events, this`consumed, this`header, this`Repr, sock
      modifies frame, if frame == null then null else frame.buf
      ensures Owned() && fresh(Repr - old(Repr))
      ensures frame != null && if old(frame) == null then fresh(frame) && fresh(frame.buf) else frame == old(frame)
      ensures consumed == old(consumed) + got && old(sock.incoming) == got + sock.incoming
      ensures old(sock.Ready()) ==> got != []
      ensures old(sock.Eager()) ==> sock.Eager()
      ensures Between() && Apart() && PartialView() == old(PartialView())
      ensures header == old(header) + got && HeaderOutcome(header, bytes, old(events))
    {
      EnsureFrame();
      bytes, got := GetHeader();
      header := header + got;
    }

    // ---- the opcodes

    // The frame f has arrived whole: its payload is the current part of the message.
    ghost predicate Arrived(f: Receive.Frame)
      reads this, frame, message, if message == null then null else message.payload
    {
      && status != ErrClose && frame != null && message != null && message.Valid()
      && f.fin == frame.fin && f.opcode == frame.opcode && f.key == frame.mask
      && f.masked == message.current && frame.payloadlen == message.buflen
      && message.maskOffset == message.payloadsz - message.buflen
    }

    // Between two frames nothing of a frame's payload is left over.
    ghost predicate Between()
      reads this`message, message, if message == null then null else message.payload
    {
      MessageOk() && (message != null ==> message.buflen == 0)
    }

    // ws_handle_close
    method HandleClose()
      modifies this`events, this`status
      ensures status == ErrClose && events == old(events) + [Reply(Message(OPCODE_CLOSE, []))]
    {
      status := ErrClose;
      SendFrame(OPCODE_CLOSE, []);
    }

    // ws_handle_pong
    method HandlePong(ghost f: Receive.Frame)
      requires Arrived(f) && f.opcode == OPCODE_PONG
      modifies this`events, this`status, this`message
      ensures status != ErrClose ==> Between()
      ensures message == null || message == old(message)
      ensures MachineView() == Handle(config, old(MachineView()), f)
    {
      if !frame.fin {
        HandleErr(PROTO_ERR, ErrClose);
        return;
      }
      message := null;
    }

    // ws_handle_ping
    method HandlePing(ghost f: Receive.Frame)
      requires Arrived(f) && f.opcode == OPCODE_PING
      modifies this`events, this`status, this`message
      modifies message`payload, message`payloadsz, message`buflen, message`current
      ensures status != ErrClose ==> Between()
      ensures message == null || message == old(message)
      ensures message == null || message.payload == null || message.payload == old(message.payload)
        || fresh(message.payload)
      ensures MachineView() == Handle(config, old(MachineView()), f)
    {
      var len := frame.payloadlen;
      if !frame.fin {
        HandleErr(PROTO_ERR, ErrClose);
        return;
      }
      if len > 125 {
        HandleErr(PROTO_ERR, ErrClose);
        return;
      }
      if len == 0 {
        SendFrame(OPCODE_PONG, []);
        return;
      }
      var buf := message.TakePing(len, frame.mask);
      SendFrame(OPCODE_PONG, buf[..]);
      if !message.fragmented {
        message := null;
      }
    }

    // The end of ws_handle_text_bin: the message is complete.
    method CompleteMessage()
      requires message != null && message.Valid() && message.fragmented && message.buflen == 0
      modifies this`events, this`status, this`message
      ensures if old(message.opcode) == OPCODE_TEXT && !IsWellFormed(old(message.gathered)) then
          status == ErrClose && message == old(message)
          && events == old(events) + [Reply(CloseMessage(INVALID_UTF8, []))]
        else
          status == old(status) && message == null
          && events == old(events) + [Outcome(config, old(message.opcode), old(message.gathered))]
    {
      var data := if message.payload == null then [] else message.payload[..message.payloadsz];
      assert data == message.gathered;
      if message.opcode == OPCODE_TEXT {
        var r := ValidateString(data);
        if r != 0 {
          HandleErr(INVALID_UTF8, ErrClose);
          return;
        }
        SanitizedIdentity(data);
      }
      if message.opcode != OPCODE_CONTINUATION {
        if config.echo {
          SendData(message.opcode, data);
        } else {
          events := events + [Deliver(message.opcode, data)];
        }
      }
      message := null;
    }

    // ws_handle_text_bin
    method HandleTextBin(ghost f: Receive.Frame)
      requires Arrived(f) && frame.buf != message.payload
      requires message.opcode == OPCODE_TEXT || message.opcode == OPCODE_BIN
      modifies this`events, this`status, this`message
      modifies message`fragmented, message`buflen, message`gathered, message`current, message.payload
      ensures status != ErrClose ==> Between()
      ensures message == null || (message == old(message) && message.payload == old(message.payload))
      ensures if old(message.fragmented) && f.opcode != OPCODE_CONTINUATION
        then MachineView() == Drop(old(MachineView()))
        else MachineView() == HandleData(config, old(MachineView()), old(message.opcode), f)
    {
      var offset := message.maskOffset;
      if message.fragmented && frame.opcode != OPCODE_CONTINUATION {
        status := ErrClose;
        return;
      }
      message.TakeFragment(offset, frame.mask);
      if frame.fin {
        CompleteMessage();
      }
    }

    // ws_manage_payload_opcode
    method ManagePayloadOpcode(ghost f: Receive.Frame)
      requires Arrived(f) && frame.buf != message.payload
      modifies this`events, this`status, this`message, message, message.payload
      ensures status != ErrClose ==> Between()
      ensures message == null || message == old(message)
      ensures message == null || message.payload == null || message.payload == old(message.payload)
        || fresh(message.payload)
      ensures MachineView() == Handle(config, old(MachineView()), f)
    {
      var opcode := frame.opcode;
      if opcode == OPCODE_CONTINUATION {
        if !message.fragmented {
          status := ErrClose;
          return;
        }
        HandleTextBin(f);
      } else if opcode == OPCODE_TEXT || opcode == OPCODE_BIN {
        message.opcode := frame.opcode;
        HandleTextBin(f);
      } else if opcode == OPCODE_PONG {
        HandlePong(f);
      } else if opcode == OPCODE_PING {
        HandlePing(f);
      } else {
        HandleClose();
      }
    }

    // ---- the payload

    // Where the payload of the frame that has just been announced will go: its `buflen` bytes
    // end at payloadsz, and once there are any, there is room for all of it.
    ghost predicate Room()
      reads this`frame, this`message, frame, message, if message == null then null else message.payload
    {
      && frame != null && frame.payloadlen >= 0 && MessageOk()
      && (message == null ==> frame.payloadlen <= INT_MAX)
      && (message != null ==>
        && message.buflen <= frame.payloadlen && frame.buf != message.payload
        && message.payloadsz - message.buflen + frame.payloadlen <= INT_MAX
        && (message.buflen > 0 ==> message.Fits(frame.payloadlen)))
    }

    // The reading part of ws_get_frm_payload.
    method FillPayload() returns (bytes: int, done: bool, ghost got: seq<byte>)
      requires Room() && message != null && status != ErrClose
      requires frame.payloadlen > 0 ==> message.Fits(frame.payloadlen)
      modifies this`status, this`consumed, sock
      modifies message`payloadsz, message`buflen, message`current, message.payload
      ensures consumed == old(consumed) + got && old(sock.incoming) == got + sock.incoming
      ensures Room() && message.current == old(message.current) + got
      ensures status != ErrClose && MachineView() == old(MachineView())
      ensures done <==> message.buflen == frame.payloadlen
      ensures !done ==> status == Reading
      ensures old(message.buflen) < frame.payloadlen && old(sock.Ready()) ==> got != []
      ensures old(sock.Eager()) ==> sock.Eager()
    {
      bytes, done, got := 0, true, [];
      var readh := message.buflen;
      var need := frame.payloadlen - readh;
      if need > 0 {
        bytes, got := message.Read(sock, need);
        consumed := consumed + got;
        if bytes != need {
          status := Reading;
          done := false;
        }
      }
    }

    // The first part of ws_get_frm_payload: there is a message, with room for the payload.
    method PrepareMessage()
      requires Room() && status != ErrClose
      modifies this`message
      modifies message
      ensures message != null && Room() && (frame.payloadlen > 0 ==> message.Fits(frame.payloadlen))
      ensures old(message) == null ==> fresh(message)
      ensures old(message) != null ==> message == old(message)
      ensures message.payload == null || fresh(message.payload)
        || (old(message) != null && message.payload == old(message.payload))
      ensures PayloadSoFar() == old(PayloadSoFar()) && MachineView() == old(MachineView())
    {
      if message == null {
        message := new WSMessage();
      }
      message.Alloc(frame.payloadlen);
    }

    // The payload p that is there is not the whole of the frame's.
    ghost predicate Waiting(p: seq<byte>, m: Machine)
      reads this, frame, message, if message == null then null else message.payload
    {
      && Room() && message != null && |p| < frame.payloadlen && PayloadSoFar() == p
      && status == Reading && MachineView() == m
    }

    // The machine is in this state, with no frame under way.
    ghost predicate Done(m: Machine)
      reads this, frame, message, if message == null then null else message.payload
    {
      frame == null && (status != ErrClose ==> Between()) && MachineView() == m
    }

    // The last part of ws_get_frm_payload: a frame that is there is handled and freed.
    method FinishFrame(ghost f: Receive.Frame, done: bool)
      requires status != ErrClose && Room() && message != null
      requires done <==> message.buflen == frame.payloadlen
      requires !done ==> status == Reading
      requires f.fin == frame.fin && f.opcode == frame.opcode && f.key == frame.mask && f.masked == message.current
      modifies this`frame, this`message, this`status, this`events, message, message.payload
      ensures frame == null || frame == old(frame)
      ensures message == null || message == old(message)
      ensures message == null || message.payload == null || message.payload == old(message.payload)
        || fresh(message.payload)
      ensures if done then Done(Handle(config, old(MachineView()), f)) else Waiting(f.masked, old(MachineView()))
    {
      if done {
        message.maskOffset := message.payloadsz - message.buflen;
        ManagePayloadOpcode(f);
        frame := null;
      }
    }

    // The middle part: the payload is read.
    method TakeFrame(ghost form: Form) returns (bytes: int, ghost got: seq<byte>, ghost f: Receive.Frame)
      requires Room() && status != ErrClose && message != null
      requires frame.payloadlen > 0 ==> message.Fits(frame.payloadlen)
      modifies this`frame, this`message, this`status, this`events, this`consumed, sock, message, message.payload
      ensures consumed == old(consumed) + got && old(sock.incoming) == got + sock.incoming
      ensures old(|PayloadSoFar()| < frame.payloadlen && sock.Ready()) ==> got != []
      ensures old(sock.Eager()) ==> sock.Eager()
      ensures message == null || message == old(message)
      ensures message == null || message.payload == null || message.payload == old(message.payload)
        || fresh(message.payload)
      ensures frame == null || frame == old(frame)
      ensures f == Receive.Frame(old(frame.fin), old(frame.opcode), form, old(frame.mask), old(PayloadSoFar()) + got)
      ensures |f.masked| <= old(frame.payloadlen)
      ensures if |f.masked| < old(frame.payloadlen) then Waiting(f.masked, old(MachineView()))
        else Done(Handle(config, old(MachineView()), f))
    {
      var done;
      bytes, done, got := FillPayload();
      f := Receive.Frame(frame.fin, frame.opcode, form, frame.mask, message.current);
      FinishFrame(f, done);
    }

    // Once the frame f is there it is handled and freed.
    method GetPayload(ghost form: Form) returns (bytes: int, ghost got: seq<byte>, ghost f: Receive.Frame)
      requires Room() && status != ErrClose
      modifies this`frame, this`message, this`status, this`events, this`consumed, sock
      modifies message, if message == null then null else message.payload
      ensures consumed == old(consumed) + got && old(sock.incoming) == got + sock.incoming
      ensures old(|PayloadSoFar()| < frame.payloadlen && sock.Ready()) ==> got != []
      ensures old(sock.Eager()) ==> sock.Eager()
      ensures message == null || message == old(message) || fresh(message)
      ensures message == null || message.payload == null || fresh(message.payload)
        || (old(message) != null && message.payload == old(message.payload))
      ensures frame == null || frame == old(frame)
      ensures f == Receive.Frame(old(frame.fin), old(frame.opcode), form, old(frame.mask), old(PayloadSoFar()) + got)
      ensures |f.masked| <= old(frame.payloadlen)
      ensures if |f.masked| < old(frame.payloadlen) then Waiting(f.masked, old(MachineView()))
        else Done(Handle(config, old(MachineView()), f))
    {
      PrepareMessage();
      bytes, got, f := TakeFrame(form);
    }

    // Whatever message there is now belongs to the client.
    ghost method Adopt()
      requires this in Repr && sock in Repr && (frame != null ==> frame in Repr && frame.buf in Repr)
      modifies this`Repr, this`header
      ensures Owned() && old(Repr) <= Repr
      ensures forall o :: o in Repr && o !in old(Repr) ==> message != null && (o == message || o == message.payload)
      ensures header == if frame == null then [] else old(header)
    {
      if message != null {
        Repr := Repr + {message} + (if message.payload == null then {} else {message.payload});
      }
      if frame == null {
        header := [];
      }
    }

    // ws_get_frm_payload
    method GetFrmPayload(ghost form: Form) returns (bytes: int, ghost got: seq<byte>, ghost f: Receive.Frame)
      requires Room() && status != ErrClose && Owned() && Apart()
      modifies this`frame, this`message, this`status, this`events, this`consumed, this`header, this`Repr, sock
      modifies message, if message == null then null else message.payload
      ensures Owned() && Apart() && fresh(Repr - old(Repr))
      ensures header == if frame == null then [] else old(header)
      ensures consumed == old(consumed) + got && old(sock.incoming) == got + sock.incoming
      ensures old(|PayloadSoFar()| < frame.payloadlen && sock.Ready()) ==> got != []
      ensures old(sock.Eager()) ==> sock.Eager()
      ensures frame == null || frame == old(frame)
      ensures f == Receive.Frame(old(frame.fin), old(frame.opcode), form, old(frame.mask), old(PayloadSoFar()) + got)
      ensures |f.masked| <= old(frame.payloadlen)
      ensures if |f.masked| < old(frame.payloadlen) then Waiting(f.masked, old(MachineView()))
        else Done(Handle(config, old(MachineView()), f))
    {
      bytes, got, f := GetPayload(form);
      Adopt();
    }

    // ---- the whole

    // The bytes taken and not handled yet.
    ghost function Rest(): seq<byte>
      reads this`status, this`header, this`message, message
    {
      if status == ErrClose then [] else header + PayloadSoFar()
    }

    // Everything the client owns is in Repr.
    ghost predicate Owned()
      reads this, Repr
    {
      && this in Repr && sock in Repr
      && (frame != null ==> frame in Repr && frame.buf in Repr)
      && (message != null ==> message in Repr && (message.payload != null ==> message.payload in Repr))
    }

    ghost predicate Apart()
      reads this`frame, this`message, frame, message
    {
      frame != null && message != null ==> frame.buf != message.payload
    }

    // No frame under way, or the beginning of a header.
    ghost predicate AtHeader()
      reads this`frame, this`header, this`message, frame, if frame == null then null else frame.buf
      reads message, if message == null then null else message.payload
    {
      && Between() && Apart()
      && if frame == null then header == []
         else frame.Shape() && frame.reading && frame.Head() == header && PartialHeader(header)
    }

    // A frame that has been announced, and part of its payload.
    ghost predicate AtPayload()
      reads this`frame, this`header, this`message, frame, if frame == null then null else frame.buf
      reads message, if message == null then null else message.payload
    {
      && Room() && Apart() && frame.Describes(header)
      && frame.payloadlen == WireLength(header) <= config.max
    }

    // In every state between two calls, the fields say what the one-pass parser says of the
    // bytes taken so far: the events, the message being assembled, and the bytes not handled.
    ghost predicate Valid()
      reads this, Repr
    {
      && Owned() && InRange(config, consumed + sock.incoming)
      && (status != ErrClose ==> AtHeader() || (AtPayload() && |PayloadSoFar()| < frame.payloadlen))
      && Tracks(config, consumed, MachineView(), Rest())
    }

    lemma HeaderView()
      requires Valid() && status != ErrClose && AtHeader()
      ensures MachineView().verdict == Open && MachineView().events == events && Rest() == header
      ensures Tracks(config, consumed, MachineView(), header)
    {
      assert PayloadSoFar() == [];
      assert header + [] == header;
    }

    // After the bytes `got` of a header all is well again, or the frame has been announced.
    lemma HeaderTaken(before: seq<byte>, m: Machine, h: seq<byte>, got: seq<byte>, bytes: int)
      requires Owned() && InRange(config, consumed + sock.incoming) && consumed == before + got
      requires m.verdict == Open && m.partial == PartialView() && Tracks(config, before, m, h)
      requires Between() && Apart() && header == h + got && HeaderOutcome(header, bytes, m.events)
      ensures if frame.reading then Valid() else bytes >= 1 && status == Ok && AtPayload() && Tracking()
    {
      HeaderStep(config, before, m, h, got, sock.incoming);
      assert PayloadSoFar() == [];
      assert header + [] == header;
    }

    // ws_get_message, while a header is being read.
    method ReceiveHeader() returns (bytes: int, ghost got: seq<byte>)
      requires Valid() && status != ErrClose && AtHeader()
      modifies Repr
      ensures frame != null && fresh(Repr - old(Repr))
      ensures consumed == old(consumed) + got && old(sock.incoming) == got + sock.incoming
      ensures old(sock.Ready()) ==> got != []
      ensures old(sock.Eager()) ==> sock.Eager()
      ensures Owned() && InRange(config, consumed + sock.incoming)
      ensures if frame.reading then Valid() else bytes >= 1 && status == Ok && AtPayload() && Tracking()
    {
      HeaderView();
      ghost var m, before, h := MachineView(), consumed, header;
      bytes, got := GetFrmHeader();
      Regroup(before, got, sock.incoming);
      HeaderTaken(before, m, h, got, bytes);
    }

    // The parser agrees about the frame that has been announced.
    ghost predicate Tracking()
      reads this`status, this`events, this`consumed, this`header, this`message, message
    {
      Tracks(config, consumed, MachineView(), header + PayloadSoFar())
    }

    // After the bytes `got` of a payload all is well again.
    lemma PayloadTaken(before: seq<byte>, m: Machine, h: seq<byte>, p: seq<byte>, got: seq<byte>, f: Receive.Frame)
      requires Owned() && InRange(config, consumed + sock.incoming) && consumed == before + got
      requires m.verdict == Open && Tracks(config, before, m, h + p) && WholeHeader(h)
      requires |p + got| <= WireLength(h) <= config.max && |Collected(m.partial)| + WireLength(h) <= INT_MAX
      requires f == Receive.Frame(Fin(h[0]), Opcode(h[0]), FormOf(h[1]), h[|h| - 4..], p + got)
      requires Apart() && header == if frame == null then [] else h
      requires frame != null ==> frame.Describes(h)
      requires if |f.masked| < WireLength(h) then Waiting(f.masked, m) else Done(Handle(config, m, f))
      ensures Valid()
    {
      PayloadStep(config, before, m, h, p, got, f);
    }

    // ws_get_message, while a payload is being read.
    method ReceivePayload() returns (bytes: int, ghost got: seq<byte>)
      requires status != ErrClose && Owned() && AtPayload() && InRange(config, consumed + sock.incoming)
      requires Tracking()
      modifies Repr
      ensures Valid() && fresh(Repr - old(Repr))
      ensures consumed == old(consumed) + got && old(sock.incoming) == got + sock.incoming
      ensures old(|PayloadSoFar()| < frame.payloadlen && sock.Ready()) ==> got != []
      ensures old(sock.Eager()) ==> sock.Eager()
    {
      ghost var m, before, h, p := MachineView(), consumed, header, PayloadSoFar();
      ghost var f;
      bytes, got, f := GetFrmPayload(FormOf(header[1]));
      Regroup(before, got, sock.incoming);
      PayloadTaken(before, m, h, p, got, f);
    }

    // ws_get_message, from a header on: the payload is read in the same call.
    method ReceiveFrame() returns (bytes: int, ghost got: seq<byte>)
      requires Valid() && status != ErrClose && AtHeader()
      modifies Repr
      ensures Valid() && fresh(Repr - old(Repr))
      ensures consumed == old(consumed) + got && old(sock.incoming) == got + sock.incoming
      ensures old(sock.Ready()) ==> got != []
      ensures old(sock.Eager()) ==> sock.Eager()
    {
      ghost var before := consumed;
      bytes, got := ReceiveHeader();
      if bytes < 1 || frame.reading {
        return;
      }
      ghost var more;
      bytes, more := ReceivePayload();
      Regroup(before, got, more);
      Regroup(got, more, sock.incoming);
      got := got + more;
    }

    // ws_get_message
    method GetMessage() returns (bytes: int, ghost got: seq<byte>)
      requires Valid() && status != ErrClose
      modifies Repr
      ensures Valid() && fresh(Repr - old(Repr))
      ensures consumed == old(consumed) + got && old(sock.incoming) == got + sock.incoming
      ensures old(sock.Ready()) ==> got != []
      ensures old(sock.Eager()) ==> sock.Eager()
    {
      if frame == null || frame.reading {
        bytes, got := ReceiveFrame();
      } else {
        bytes, got := ReceivePayload();
      }
    }

    // The fields are exactly the parser's result on the bytes taken so far.
    lemma Exact()
      requires Valid()
      ensures Feed(config, INITIAL, consumed) == (MachineView(), Rest())
    {
      TracksNow(config, consumed, MachineView(), Rest());
      if status != ErrClose {
        Waits(config, MachineView(), header, PayloadSoFar());
      }
    }

    // Chunk independence: after any number of calls, and however recv() cut the stream, the
    // messages delivered, the frames sent back, the verdict, the message being assembled and
    // the bytes kept are those of the one-pass parser on the bytes taken.
    method Run(calls: nat)
      requires Valid()
      modifies Repr
      ensures Valid() && fresh(Repr - old(Repr))
      ensures old(consumed) <= consumed && consumed + sock.incoming == old(consumed + sock.incoming)
      ensures Feed(config, INITIAL, consumed) == (MachineView(), Rest())
      ensures old(sock.Eager()) && calls >= |old(sock.incoming)| ==> status == ErrClose || sock.incoming == []
    {
      ghost var first, stream, taken := consumed, sock.incoming, [];
      for k := 0 to calls
        invariant Valid() && fresh(Repr - old(Repr))
        invariant consumed == first + taken && stream == taken + sock.incoming
        invariant old(sock.Eager()) ==> sock.Eager() && (sock.incoming == [] || |taken| >= k)
      {
        if status == ErrClose {
          break;
        }
        var bytes; ghost var got;
        bytes, got := GetMessage();
        Regroup(first, taken, got);
        Regroup(taken, got, sock.incoming);
        taken := taken + got;
      }
      Regroup(first, taken, sock.incoming);
      Exact();
    }
  }

  // ---------------------------------------------------------------- the parser's side

  // Whatever follows, the parser makes the same of it after `consumed` as from the state m
  // with the bytes `rest` kept.
  ghost predicate Tracks(c: Config, consumed: seq<byte>, m: Machine, rest: seq<byte>)
  {
    forall t :: Feed(c, INITIAL, consumed + t) == Feed(c, m, rest + t)
  }

  lemma TracksNow(c: Config, consumed: seq<byte>, m: Machine, rest: seq<byte>)
    requires Tracks(c, consumed, m, rest)
    ensures Feed(c, INITIAL, consumed) == Feed(c, m, rest)
  {
    assert Feed(c, INITIAL, consumed + []) == Feed(c, m, rest + []);
    assert consumed + [] == consumed && rest + [] == rest;
  }

  lemma TracksMore(c: Config, consumed: seq<byte>, m: Machine, rest: seq<byte>, got: seq<byte>)
    requires Tracks(c, consumed, m, rest)
    ensures Tracks(c, consumed + got, m, rest + got)
  {
    forall t
      ensures Feed(c, INITIAL, consumed + got + t) == Feed(c, m, rest + got + t)
    {
      Regroup(consumed, got, t);
      Regroup(rest, got, t);
      assert Feed(c, INITIAL, consumed + (got + t)) == Feed(c, m, rest + (got + t));
    }
  }

  // Two states of the parser that are one for it can be put for each other.
  ghost predicate Same(c: Config, m: Machine, s: seq<byte>, n: Machine, r: seq<byte>)
  {
    forall t :: Feed(c, m, s + t) == Feed(c, n, r + t)
  }

  lemma TracksSame(c: Config, consumed: seq<byte>, m: Machine, s: seq<byte>, n: Machine, r: seq<byte>)
    requires Tracks(c, consumed, m, s) && Same(c, m, s, n, r)
    ensures Tracks(c, consumed, n, r)
  {
    forall t
      ensures Feed(c, INITIAL, consumed + t) == Feed(c, n, r + t)
    {
      assert Feed(c, m, s + t) == Feed(c, n, r + t);
    }
  }

  // What the front of the bytes decides stays decided.
  lemma RefusedFed(c: Config, m: Machine, h: seq<byte>)
    requires m.verdict == Open && RefusedHeader(h)
    ensures Same(c, m, h, Drop(m), [])
  {
  }

  lemma TooLargeFed(c: Config, m: Machine, h: seq<byte>)
    requires m.verdict == Open && WholeHeader(h) && c.max < WireLength(h) <= INT_MAX
    ensures Same(c, m, h, DropWith(m, CloseMessage(TOO_LARGE, TOO_BIG)), [])
  {
    forall t
      ensures Feed(c, m, h + t) == Feed(c, DropWith(m, CloseMessage(TOO_LARGE, TOO_BIG)), [] + t)
    {
      ScanStable(h, t, c.max, |Collected(m.partial)|);
    }
  }

  lemma HandledFed(c: Config, m: Machine, h: seq<byte>, p: seq<byte>, f: Receive.Frame)
    requires m.verdict == Open && WholeHeader(h) && |p| == WireLength(h) <= c.max
    requires |p| <= INT_MAX && |Collected(m.partial)| + |p| <= INT_MAX
    requires f == Receive.Frame(Fin(h[0]), Opcode(h[0]), FormOf(h[1]), h[|h| - 4..], p)
    ensures Same(c, m, h + p, Handle(c, m, f), [])
  {
    WholeScan(h, p, c.max, |Collected(m.partial)|, f);
    forall t
      ensures Feed(c, m, h + p + t) == Feed(c, Handle(c, m, f), [] + t)
    {
      ScanStable(h + p, t, c.max, |Collected(m.partial)|);
      assert (h + p + t)[|h + p|..] == [] + t;
    }
  }

  lemma WholeScan(h: seq<byte>, p: seq<byte>, max: nat, pending: nat, f: Receive.Frame)
    requires WholeHeader(h) && |p| == WireLength(h) <= max && |p| <= INT_MAX && pending + |p| <= INT_MAX
    requires f == Receive.Frame(Fin(h[0]), Opcode(h[0]), FormOf(h[1]), h[|h| - 4..], p)
    ensures ScanFrame(h + p, max, pending) == Complete(f, |h + p|)
  {
    var s := h + p;
    WireLengthPrefix(h, p);
    assert s[0] == h[0] && s[1] == h[1];
    assert s[|h| - 4..|h|] == h[|h| - 4..] && s[|h|..|h| + |p|] == p;
  }

  // A beginning of a header, or a header with a beginning of its payload, waits.
  lemma Waits(c: Config, m: Machine, h: seq<byte>, p: seq<byte>)
    requires m.verdict == Open
    requires (PartialHeader(h) && p == []) ||
      (WholeHeader(h) && |p| < WireLength(h) <= c.max && WireLength(h) <= INT_MAX
       && |Collected(m.partial)| + WireLength(h) <= INT_MAX)
    ensures Feed(c, m, h + p) == (m, h + p)
  {
    assert h + [] == h;
    if WholeHeader(h) {
      WireLengthPrefix(h, p);
      assert (h + p)[0] == h[0] && (h + p)[1] == h[1];
    }
  }

  lemma LengthInRange(c: Config, consumed: seq<byte>, m: Machine, h: seq<byte>, more: seq<byte>)
    requires Tracks(c, consumed, m, h) && InRange(c, consumed + more) && m.verdict == Open && WholeHeader(h)
    ensures WireLength(h) <= INT_MAX
    ensures WireLength(h) <= c.max ==> |Collected(m.partial)| + WireLength(h) <= INT_MAX
  {
    TracksNow(c, consumed, m, h);
    InRangePrefix(c, consumed, more);
    assert Feed(c, m, h).0.verdict != Overflow;
  }

  // The bytes `got` go on with a header.
  lemma HeaderStep(c: Config, consumed: seq<byte>, m: Machine, h: seq<byte>, got: seq<byte>, more: seq<byte>)
    requires m.verdict == Open && Tracks(c, consumed, m, h)
    requires InRange(c, consumed + got + more)
    ensures Tracks(c, consumed + got, m, h + got)
    ensures RefusedHeader(h + got) ==> Tracks(c, consumed + got, Drop(m), [])
    ensures WholeHeader(h + got) ==>
      && WireLength(h + got) <= INT_MAX
      && (WireLength(h + got) > c.max ==>
        Tracks(c, consumed + got, DropWith(m, CloseMessage(TOO_LARGE, TOO_BIG)), []))
      && (WireLength(h + got) <= c.max ==> |Collected(m.partial)| + WireLength(h + got) <= INT_MAX)
  {
    TracksMore(c, consumed, m, h, got);
    if RefusedHeader(h + got) {
      RefusedFed(c, m, h + got);
      TracksSame(c, consumed + got, m, h + got, Drop(m), []);
    } else if WholeHeader(h + got) {
      LengthInRange(c, consumed + got, m, h + got, more);
      if WireLength(h + got) > c.max {
        TooLargeFed(c, m, h + got);
        TracksSame(c, consumed + got, m, h + got, DropWith(m, CloseMessage(TOO_LARGE, TOO_BIG)), []);
      }
    }
  }

  // The bytes `got` go on with a payload.
  lemma PayloadStep(c: Config, consumed: seq<byte>, m: Machine, h: seq<byte>, p: seq<byte>, got: seq<byte>,
      f: Receive.Frame)
    requires m.verdict == Open && WholeHeader(h) && |p + got| <= WireLength(h) <= c.max
    requires WireLength(h) <= INT_MAX && |Collected(m.partial)| + WireLength(h) <= INT_MAX
    requires Tracks(c, consumed, m, h + p)
    requires f == Receive.Frame(Fin(h[0]), Opcode(h[0]), FormOf(h[1]), h[|h| - 4..], p + got)
    ensures Tracks(c, consumed + got, m, h + (p + got))
    ensures |p + got| == WireLength(h) ==> Tracks(c, consumed + got, Handle(c, m, f), [])
  {
    TracksMore(c, consumed, m, h + p, got);
    Regroup(h, p, got);
    if |p + got| == WireLength(h) {
      HandledFed(c, m, h, p + got, f);
      TracksSame(c, consumed + got, m, h + (p + got), Handle(c, m, f), []);
    }
  }
}
