// Sending to a viewer: ws_respond and its helpers, the queue, and ws_send_frame.
module Outbound {
  import opened Bytes
  import opened Wire

  const THROTTLE_THLD: nat := 2097152

  // The flags of WSStatus that sending looks at or sets.
  datatype SendStatus = SendStatus(err: bool, close: bool, reading: bool, sending: bool, throttling: bool)

  const OK := SendStatus(false, false, false, false, false)
  const ERR_CLOSE := SendStatus(true, true, false, false, false)
  const CLOSE_ONLY := SendStatus(false, true, false, false, false)

  // ---------------------------------------------------------------- the socket

  // How the kernel will answer one send(): take up to n bytes (at least one), EAGAIN, or EPIPE.
  datatype Answer = Takes(n: nat) | WouldBlock | BrokenPipe

  datatype SendResult = Sent(bytes: nat) | Again | Pipe

  // How often the viewer will be found gone.
  function Breaks(answers: seq<Answer>): (n: nat)
  {
    if answers == [] then 0 else (if answers[0].BrokenPipe? then 1 else 0) + Breaks(answers[1..])
  }

  lemma {:induction false} NoBreaks(answers: seq<Answer>)
    requires forall k :: 0 <= k < |answers| ==> !answers[k].BrokenPipe?
    ensures Breaks(answers) == 0
  {
    if answers != [] {
      NoBreaks(answers[1..]);
    }
  }

  function Broken(r: SendResult): nat
  {
    if r.Pipe? then 1 else 0
  }

  class Socket {
    var wire: seq<byte>
    var answers: seq<Answer>

    constructor (answers: seq<Answer>)
      ensures wire == [] && this.answers == answers
    {
      this.wire, this.answers := [], answers;
    }

    // send(). An empty buffer is reported as sent; when no answer is left it would block.
    method Send(buffer: seq<byte>) returns (r: SendResult)
      modifies this
      ensures r.Sent? ==> r.bytes <= |buffer| && (buffer != [] ==> r.bytes > 0)
      ensures wire == old(wire) + (if r.Sent? then buffer[..r.bytes] else [])
      ensures buffer == [] ==> r == Sent(0)
      ensures answers == if buffer == [] || old(answers) == [] then old(answers) else old(answers)[1..]
      ensures Breaks(answers) + Broken(r) == Breaks(old(answers))
    {
      if buffer == [] {
        return Sent(0);
      }
      if answers == [] {
        return Again;
      }
      var answer := answers[0];
      answers := answers[1..];
      match answer
      case BrokenPipe => return Pipe;
      case WouldBlock => return Again;
      case Takes(n) =>
        var k := if n == 0 then 1 else if n > |buffer| then |buffer| else n;
        wire := wire + buffer[..k];
        return Sent(k);
    }
  }

  // ---------------------------------------------------------------- buffers

  // chop_nchars: drop n characters in place; chopping nothing reports an empty buffer.
  method ChopNchars(str: array<byte>, n: nat, len: nat) returns (left: nat)
    requires len <= str.Length
    modifies str
    ensures n == 0 ==> left == 0
    ensures n > 0 ==> left == (if n > len then 0 else len - n)
    ensures n > 0 ==> str[..left] == old(str[len - left..len])
  {
    if n == 0 {
      return 0;
    }
    var k := if n > len then len else n;
    MoveDown(str, k, len);
    left := len - k;
  }

  // memmove (str, str + k, len - k)
  method MoveDown(str: array<byte>, k: nat, len: nat)
    requires k <= len <= str.Length
    modifies str
    ensures str[..len - k] == old(str[k..len])
  {
    var i := 0;
    while i < len - k
      invariant 0 <= i <= len - k
      invariant str[..i] == old(str[k..k + i])
      invariant forall m :: i + k <= m < len ==> str[m] == old(str[m])
    {
      str[i] := str[i + k];
      i := i + 1;
    }
  }

  class WSQueue {
    var queued: array<byte>
    var qlen: nat

    constructor (data: seq<byte>)
      ensures fresh(queued) && queued.Length == qlen == |data| && queued[..] == data
    {
      queued := new byte[|data|](i requires 0 <= i < |data| => data[i]);
      qlen := |data|;
    }

    // realloc and memcpy: a larger buffer takes the place of the old one.
    method Replace(data: seq<byte>)
      modifies this
      ensures fresh(queued) && queued.Length == qlen == |data| && queued[..qlen] == data
    {
      queued := new byte[|data|](i requires 0 <= i < |data| => data[i]);
      qlen := |data|;
    }
  }

  // ---------------------------------------------------------------- the client

  // A queue of q bytes (none when q is 0) that is throttled or not, and no longer than buffers
  // of at most `limit` bytes can make it. Throttling has been wiped `wipes` times before the
  // queue was drained, by a read or a broken pipe, and each time one more buffer may follow.
  ghost predicate Limited(s: SendStatus, q: nat, limit: nat, wipes: nat)
  {
    (q == 0 ==> !s.throttling) && q <= QueueLimit(limit, s.throttling) + Times(wipes, limit)
  }

  // The bound in numbers: the longer of a buffer and the threshold, one buffer behind it, and
  // one more for each time throttling was wiped.
  lemma QueueBounded(s: SendStatus, q: nat, limit: nat, wipes: nat)
    requires Limited(s, q, limit, wipes)
    ensures q <= (if limit > 2097151 then limit else 2097151) + (wipes + 1) * limit
  {
    TimesIsProduct(wipes, limit);
    TimesIsProduct(wipes + 1, limit);
  }

  lemma StaysLimited(s: SendStatus, q: nat, appended: bool, r: SendResult, size: nat, left: nat, limit: nat, wipes: nat)
    requires Limited(s, q, limit, wipes) && size <= limit
    requires appended ==> q > 0 && !s.throttling && left == q + size && !r.Pipe?
    requires q == 0 ==> left <= size
    requires q > 0 && !appended ==> left <= q && (left == 0 ==> r.Sent?)
    ensures Limited(StatusAfter(s, q > 0, appended, r, left), left, limit, wipes + Broken(r))
  {
    assert Times(wipes + 1, limit) == Times(wipes, limit) + limit;
  }

  // A status that a read assigns, where it sets no THROTTLING.
  lemma WipedLimited(s: SendStatus, q: nat, limit: nat, wipes: nat, t: SendStatus)
    requires Limited(s, q, limit, wipes) && !t.throttling
    ensures Limited(t, q, limit, wipes + 1)
  {
    assert Times(wipes + 1, limit) == Times(wipes, limit) + limit;
  }

  // n buffers of `size` bytes.
  function Times(n: nat, size: nat): nat
  {
    if n == 0 then 0 else Times(n - 1, size) + size
  }

  lemma {:induction false} TimesIsProduct(n: nat, size: nat)
    ensures Times(n, size) == n * size
  {
    if n > 0 {
      TimesIsProduct(n - 1, size);
      assert n * size == (n - 1) * size + size;
    }
  }

  // The buffer handed to ws_respond, or none.
  datatype Chunk = NoChunk | Chunk(data: seq<byte>)

  function DataOf(buffer: Chunk): seq<byte>
  {
    if buffer.Chunk? then buffer.data else []
  }

  function Listed(buffer: Chunk): seq<seq<byte>>
  {
    if buffer.Chunk? then [buffer.data] else []
  }

  lemma FlattenListed(parts: seq<seq<byte>>, buffer: Chunk)
    ensures Flatten(parts + Listed(buffer)) == Flatten(parts) + DataOf(buffer)
  {
    if buffer.Chunk? {
      FlattenSnoc(parts, buffer.data);
    } else {
      assert parts + [] == parts && Flatten(parts) + [] == Flatten(parts);
    }
  }

  lemma SplitAt(before: seq<byte>, data: seq<byte>, k: nat)
    requires k <= |data|
    ensures before + data[..k] + data[k..] == before + data
    ensures k == 0 ==> before + [] + data[k..] == before + data
    ensures k == |data| ==> before + data[..k] + [] == before + data
  {
    assert data == data[..k] + data[k..];
  }

  // A buffer accepted while nothing was queued: k bytes of it are sent, the rest is waiting.
  lemma HandedOver(parts: seq<seq<byte>>, buffer: Chunk, before: seq<byte>, k: nat, wire: seq<byte>, queue: seq<byte>)
    requires before + [] == Flatten(parts) && k <= |DataOf(buffer)|
    requires wire == before + DataOf(buffer)[..k] && queue == DataOf(buffer)[k..]
    ensures wire + queue == Flatten(parts + Listed(buffer))
  {
    SplitAt(before, DataOf(buffer), k);
    FlattenListed(parts, buffer);
  }

  // A buffer appended to the queue.
  lemma Appended(parts: seq<seq<byte>>, wire: seq<byte>, queue: seq<byte>, buffer: seq<byte>)
    requires wire + queue == Flatten(parts)
    ensures wire + (queue + buffer) == Flatten(parts + [buffer])
  {
    FlattenSnoc(parts, buffer);
    Regroup(wire, queue, buffer);
  }

  // Draining the queue ends throttling; a client that was closing while it sent is closed.
  function StatusAfterDrain(s: SendStatus): SendStatus
  {
    if s.close && s.sending then CLOSE_ONLY else s.(throttling := false)
  }

  // The status after ws_respond, from whether there was a queue, whether the buffer was
  // appended to it, the answer of the socket and the bytes left waiting.
  function StatusAfter(s: SendStatus, had: bool, appended: bool, r: SendResult, left: nat): SendStatus
  {
    if appended then (if left >= THROTTLE_THLD then s.(throttling := true) else s)
    else if r.Pipe? then ERR_CLOSE
    else if !had then s.(sending := s.sending || left > 0)
    else if r.Sent? && left == 0 then StatusAfterDrain(s)
    else s
  }

  // The longest queue a run of buffers of at most `limit` bytes can leave.
  function QueueLimit(limit: nat, throttling: bool): nat
  {
    (if limit > THROTTLE_THLD - 1 then limit else THROTTLE_THLD - 1) + (if throttling then limit else 0)
  }

  // The half of WSClient that sending works on.
  class SendingClient {
    var sockqueue: WSQueue?
    var status: SendStatus
    const socket: Socket
    ghost var accepted: seq<seq<byte>>

    ghost function Repr(): set<object?>
      reads this, sockqueue
    {
      {this, socket} + (if sockqueue == null then {} else {sockqueue, sockqueue.queued})
    }

    ghost predicate Shape()
      reads this, sockqueue
    {
      sockqueue != null ==> 0 < sockqueue.qlen <= sockqueue.queued.Length
    }

    // The bytes waiting.
    ghost function Queue(): seq<byte>
      reads this, sockqueue, if sockqueue == null then {} else {sockqueue.queued}
      requires Shape()
    {
      if sockqueue == null then [] else sockqueue.queued[..sockqueue.qlen]
    }

    // Conservation: what the kernel took, followed by what is queued, is what was accepted.
    ghost predicate Valid()
      reads Repr()
    {
      Shape() && socket.wire + Queue() == Flatten(accepted)
    }

    constructor (answers: seq<Answer>)
      ensures Valid() && fresh(socket) && accepted == [] && sockqueue == null && status == OK
      ensures socket.wire == [] && socket.answers == answers
    {
      sockqueue, status, accepted := null, OK, [];
      socket := new Socket(answers);
    }

    // ws_clear_queue
    method ClearQueue()
      modifies this`sockqueue, this`status
      ensures sockqueue == null
      ensures old(sockqueue) == null ==> status == old(status)
      ensures old(sockqueue) != null ==> status == StatusAfterDrain(old(status))
    {
      if sockqueue == null {
        return;
      }
      sockqueue := null;
      status := status.(throttling := false);
      if status.close && status.sending {
        status := CLOSE_ONLY;
      }
    }

    // ws_queue_sockbuf
    method QueueSockbuf(buffer: seq<byte>, bytes: nat)
      requires sockqueue == null && bytes < |buffer|
      modifies this`sockqueue, this`status
      ensures sockqueue != null && fresh(sockqueue) && fresh(sockqueue.queued)
      ensures Shape() && Queue() == buffer[bytes..]
      ensures status == old(status).(sending := true)
    {
      sockqueue := new WSQueue(buffer[bytes..]);
      status := status.(sending := true);
    }

    // ws_respond_data: nothing is queued, so the buffer goes straight to the socket and the
    // rest of it into a new queue. A missing buffer is an empty one that nobody handed over.
    method RespondData(buffer: Chunk) returns (r: SendResult)
      requires Valid() && sockqueue == null
      modifies this, socket
      ensures Valid() && fresh(Repr() - old(Repr()))
      ensures r.Pipe? ==> status == ERR_CLOSE && accepted == old(accepted) && sockqueue == null
      ensures !r.Pipe? ==> accepted == old(accepted) + Listed(buffer)
      ensures !r.Pipe? ==> status == old(status).(sending := old(status.sending) || sockqueue != null)
      ensures r.Sent? ==> r.bytes <= |DataOf(buffer)|
      ensures !r.Pipe? ==> Queue() == DataOf(buffer)[if r.Sent? then r.bytes else 0..]
      ensures Breaks(socket.answers) + Broken(r) == Breaks(old(socket.answers))
    {
      ghost var before := socket.wire;
      var data := DataOf(buffer);
      r := socket.Send(data);
      if r.Pipe? {
        status := ERR_CLOSE;
        return;
      }
      var bytes := if r.Sent? then r.bytes else 0;
      assert socket.wire == before + data[..bytes];
      if bytes < |data| {
        QueueSockbuf(data, bytes);
      }
      assert Queue() == data[bytes..];
      HandedOver(accepted, buffer, before, bytes, socket.wire, Queue());
      accepted := accepted + Listed(buffer);
    }

    // ws_respond_cache: the queue goes to the socket, and what was taken is chopped off it.
    method RespondCache() returns (r: SendResult)
      requires Valid() && sockqueue != null
      modifies this`sockqueue, this`status, socket, sockqueue, sockqueue.queued
      ensures Valid() && fresh(Repr() - old(Repr())) && accepted == old(accepted)
      ensures r.Pipe? ==> status == ERR_CLOSE && Queue() == old(Queue())
      ensures r.Again? ==> status == old(status) && Queue() == old(Queue())
      ensures r.Sent? ==> 0 < r.bytes <= |old(Queue())| && Queue() == old(Queue())[r.bytes..]
      ensures r.Sent? ==> status == if Queue() == [] then StatusAfterDrain(old(status)) else old(status)
      ensures sockqueue == null <==> r == Sent(|old(Queue())|)
      ensures Breaks(socket.answers) + Broken(r) == Breaks(old(socket.answers))
    {
      ghost var before, waiting := socket.wire, Queue();
      var queue := sockqueue;
      r := socket.Send(queue.queued[..queue.qlen]);
      assert before + [] == before;
      if r.Pipe? {
        status := ERR_CLOSE;
        return;
      }
      if r.Again? {
        return;
      }
      SplitAt(before, waiting, r.bytes);
      var left := ChopNchars(queue.queued, r.bytes, queue.qlen);
      if left == 0 {
        ClearQueue();
      } else {
        queue.qlen := queue.qlen - r.bytes;
      }
    }

    // ws_realloc_send_buf: the buffer is appended to the queue; a long queue is throttled.
    method ReallocSendBuf(buffer: seq<byte>)
      requires Valid() && sockqueue != null
      modifies this`status, this`accepted, sockqueue
      ensures Valid() && fresh(Repr() - old(Repr())) && sockqueue == old(sockqueue)
      ensures accepted == old(accepted) + [buffer] && Queue() == old(Queue()) + buffer
      ensures status == if |Queue()| >= THROTTLE_THLD then old(status).(throttling := true) else old(status)
    {
      var queue := sockqueue;
      Appended(accepted, socket.wire, Queue(), buffer);
      var data := queue.queued[..queue.qlen] + buffer;
      queue.Replace(data);
      if queue.qlen >= THROTTLE_THLD {
        status := status.(throttling := true);
      }
      accepted := accepted + [buffer];
    }

    // Whether ws_respond takes a buffer: not while a client that has a queue is throttled.
    ghost predicate Accepting()
      reads this
    {
      sockqueue == null || !status.throttling
    }

    // ws_respond. A throttled client loses the whole new buffer: the call sends from the queue
    // instead, as it does when there is no new buffer.
    method Respond(buffer: Chunk) returns (r: SendResult)
      requires Valid()
      modifies this, Repr()
      ensures Valid() && fresh(Repr() - old(Repr()))
      ensures accepted == old(accepted) +
        (if old(Accepting()) && !(old(sockqueue) == null && r.Pipe?) then Listed(buffer) else [])
      ensures old(sockqueue) != null && buffer.Chunk? && old(Accepting()) ==>
        Queue() == old(Queue()) + buffer.data && r == Sent(0)
      ensures old(sockqueue) != null && !(buffer.Chunk? && old(Accepting())) ==>
        (r.Sent? ==> 0 < r.bytes <= |old(Queue())|) && Queue() == old(Queue())[if r.Sent? then r.bytes else 0..]
      ensures old(sockqueue) == null ==> |Queue()| <= |DataOf(buffer)|
      ensures status == StatusAfter(old(status), old(sockqueue) != null,
        old(sockqueue) != null && buffer.Chunk? && old(Accepting()), r, |Queue()|)
      ensures Breaks(socket.answers) + Broken(r) == Breaks(old(socket.answers))
    {
      if sockqueue == null {
        r := RespondData(buffer);
      } else if buffer.Chunk? && !status.throttling {
        ReallocSendBuf(buffer.data);
        r := Sent(0);
      } else {
        r := RespondCache();
      }
    }

    ghost predicate Within(limit: nat, wipes: nat)
      reads this, sockqueue, if sockqueue == null then {} else {sockqueue.queued}
      requires Shape()
    {
      Limited(status, |Queue()|, limit, wipes)
    }

    // handle_ws_writes, the sending part.
    method HandleWrites(ghost limit: nat, ghost wipes: nat) returns (r: SendResult)
      requires Valid()
      modifies this, Repr()
      ensures Valid() && fresh(Repr() - old(Repr())) && accepted == old(accepted)
      ensures old(Within(limit, wipes)) ==> Within(limit, wipes + Broken(r))
      ensures |Queue()| <= |old(Queue())|
      ensures old(sockqueue) != null && r.Sent? ==> |Queue()| < |old(Queue())|
      ensures sockqueue != null ==> old(sockqueue) != null
      ensures status == (var s := StatusAfter(old(status), old(sockqueue) != null, false, r, |Queue()|);
                         if sockqueue == null then s.(sending := false) else s)
      ensures Breaks(socket.answers) + Broken(r) == Breaks(old(socket.answers))
      ensures !old(status.throttling) ==> !status.throttling
    {
      ghost var s, q := status, |Queue()|;
      r := Respond(NoChunk);
      assert accepted + [] == accepted;
      if Limited(s, q, limit, wipes) {
        StaysLimited(s, q, false, r, 0, |Queue()|, limit, wipes);
      }
      if sockqueue == null {
        status := status.(sending := false);
      }
    }

    // ws_send_frame
    method SendFrame(m: Message, ghost limit: nat, ghost wipes: nat) returns (r: SendResult)
      requires Valid() && Sendable(m) && |EncodeFrame(m)| <= limit
      modifies this, Repr()
      ensures Valid() && fresh(Repr() - old(Repr()))
      ensures accepted == old(accepted) +
        (if old(Accepting()) && !(old(sockqueue) == null && r.Pipe?) then [EncodeFrame(m)] else [])
      ensures old(Within(limit, wipes)) ==> Within(limit, wipes + Broken(r))
      ensures !old(status.throttling) && |Queue()| < THROTTLE_THLD ==> !status.throttling
      ensures Breaks(socket.answers) + Broken(r) == Breaks(old(socket.answers))
    {
      ghost var s, q, open := status, |Queue()|, Accepting();
      var frm := BuildFrame(m);
      var data := frm[..];
      r := Respond(Chunk(data));
      if Limited(s, q, limit, wipes) {
        StaysLimited(s, q, q > 0 && open, r, |data|, |Queue()|, limit, wipes);
      }
    }

    // What has been accepted is exactly the frames `taken`, some of those asked for, in order.
    ghost predicate Took(taken: seq<Message>, asked: seq<Message>)
      reads this
    {
      && accepted == EncodeFrames(taken) && Subsequence(taken, asked)
      && forall j :: 0 <= j < |taken| ==> Sendable(taken[j])
    }

    // Reading assigns the status, and so wipes what sending has noted in it (ws_set_status).
    method SetStatus(s: SendStatus, ghost limit: nat, ghost wipes: nat)
      requires Valid()
      modifies this`status
      ensures Valid() && status == s
      ensures old(Within(limit, wipes)) && !s.throttling ==> Within(limit, wipes + 1)
    {
      if Within(limit, wipes) && !s.throttling {
        WipedLimited(status, |Queue()|, limit, wipes, s);
      }
      status := s;
    }

    method TakeFrame(m: Message, ghost limit: nat, ghost wipes: nat,
      ghost taken: seq<Message>, ghost asked: seq<Message>)
      returns (r: SendResult, ghost now: seq<Message>)
      requires Valid() && Took(taken, asked) && Sendable(m) && |EncodeFrame(m)| <= limit
      modifies this, Repr()
      ensures Valid() && fresh(Repr() - old(Repr()))
      ensures old(Within(limit, wipes)) ==> Within(limit, wipes + Broken(r))
      ensures Breaks(socket.answers) + Broken(r) == Breaks(old(socket.answers))
      ensures Took(now, asked + [m])
      ensures !r.Pipe? && !old(status.throttling) ==> now == taken + [m]
      ensures !old(status.throttling) && |Queue()| < THROTTLE_THLD ==> !status.throttling
    {
      now := taken;
      ghost var before := accepted;
      SubsequenceSnoc(taken, asked, m);
      EncodeSnoc(taken, m);
      r := SendFrame(m, limit, wipes);
      if accepted != before {
        now := taken + [m];
      }
    }

    method Take(step: Step, ghost limit: nat, ghost wipes: nat, ghost taken: seq<Message>, ghost asked: seq<Message>)
      returns (ghost now: seq<Message>, ghost total: nat)
      requires Valid() && Took(taken, asked)
      requires step.Frame? ==> Sendable(step.m) && |EncodeFrame(step.m)| <= limit
      modifies this, Repr()
      ensures Valid() && fresh(Repr() - old(Repr()))
      ensures old(Within(limit, wipes)) && KeepsUp(step) ==> Within(limit, total)
      ensures Breaks(socket.answers) <= Breaks(old(socket.answers))
      ensures total + Breaks(socket.answers) == wipes + Breaks(old(socket.answers)) + (if step.Reads? then 1 else 0)
      ensures Took(now, asked + Asked(step))
      ensures Breaks(old(socket.answers)) == 0 && !old(status.throttling) && KeepsUp(step) ==>
        now == taken + Asked(step)
      ensures !old(status.throttling) && KeepsUp(step) && |Queue()| < THROTTLE_THLD ==> !status.throttling
    {
      if step.Frame? {
        var r;
        r, now := TakeFrame(step.m, limit, wipes, taken, asked);
        return now, wipes + Broken(r);
      }
      NothingAsked(taken, asked);
      if step.Writable? {
        var r := HandleWrites(limit, wipes);
        return taken, wipes + Broken(r);
      }
      SetStatus(step.s, limit, wipes);
      return taken, wipes + 1;
    }

    method TakeAll(steps: seq<Step>, ghost limit: nat) returns (ghost taken: seq<Message>, ghost wipes: nat)
      requires Valid() && accepted == [] && Within(limit, 0)
      requires forall k :: 0 <= k < |steps| && steps[k].Frame? ==>
        Sendable(steps[k].m) && |EncodeFrame(steps[k].m)| <= limit
      modifies this, Repr()
      ensures Valid() && fresh(Repr() - old(Repr()))
      ensures AllKeepUp(steps) ==> Within(limit, wipes)
      ensures Breaks(socket.answers) <= Breaks(old(socket.answers))
      ensures wipes + Breaks(socket.answers) == ReadsIn(steps) + Breaks(old(socket.answers))
      ensures Took(taken, Requested(steps))
      ensures Breaks(old(socket.answers)) == 0 && !old(status.throttling) && Gentle(steps) ==>
        taken == Requested(steps) && !status.throttling
    {
      if steps == [] {
        taken, wipes := [], 0;
        assert accepted == EncodeFrames(taken);
      } else {
        var init, last := steps[..|steps| - 1], steps[|steps| - 1];
        taken, wipes := TakeAll(init, limit);
        ghost var before := taken;
        taken, wipes := Take(last, limit, wipes, taken, Requested(init));
        assert |Queue()| <= |Flatten(accepted)|;
        GentleStep(steps, before, taken);
      }
    }

    // A run of frames to send, sockets found writable and reads that assign the status, from
    // the first frame on. The frames taken are some of those asked for, in order; they are what
    // has been sent and queued; and from the bytes sent the viewer recovers exactly the taken
    // frames that lie in them whole, that is all of them once the queue is empty. The queue
    // stays within its bound, that each read and each broken pipe raises by one buffer. While
    // the viewer is there and less than the threshold has been asked for, every frame is taken.
    method Run(steps: seq<Step>, ghost limit: nat) returns (ghost taken: seq<Message>, ghost wipes: nat)
      requires Valid() && accepted == [] && Within(limit, 0)
      requires forall k :: 0 <= k < |steps| && steps[k].Frame? ==>
        Sendable(steps[k].m) && |EncodeFrame(steps[k].m)| <= limit
      modifies this, Repr()
      ensures Valid() && fresh(Repr() - old(Repr()))
      ensures AllKeepUp(steps) ==> Within(limit, wipes)
      ensures Breaks(socket.answers) <= Breaks(old(socket.answers))
      ensures wipes + Breaks(socket.answers) == ReadsIn(steps) + Breaks(old(socket.answers))
      ensures Took(taken, Requested(steps))
      ensures socket.wire + Queue() == Flatten(EncodeFrames(taken))
      ensures Recovered(taken, PeerParse(socket.wire), |socket.wire|)
      ensures Queue() == [] ==> PeerParse(socket.wire) == taken
      ensures Breaks(old(socket.answers)) == 0 && !old(status.throttling) && Gentle(steps) ==> taken == Requested(steps)
    {
      taken, wipes := TakeAll(steps, limit);
      PrefixRecovered(taken, socket.wire, Queue());
      if Queue() == [] {
        assert socket.wire + [] == socket.wire;
        PeerReadsAll(taken);
      }
    }

    // Sockets found writable n times: each successful send shortens the queue, so no more of
    // them than queued bytes succeed, and that many empty it.
    method Drain(n: nat) returns (sends: nat)
      requires Valid()
      modifies this, Repr()
      ensures Valid() && fresh(Repr() - old(Repr())) && accepted == old(accepted)
      ensures sends + |Queue()| <= |old(Queue())|
      ensures sends == |old(Queue())| ==> socket.wire == Flatten(accepted)
    {
      sends := 0;
      for k := 0 to n
        invariant Valid() && fresh(Repr() - old(Repr())) && accepted == old(accepted)
        invariant sends + |Queue()| <= |old(Queue())|
      {
        if sockqueue != null {
          var r := HandleWrites(0, 0);
          if r.Sent? {
            sends := sends + 1;
          }
        }
      }
    }
  }

  lemma PrefixRecovered(ms: seq<Message>, sent: seq<byte>, waiting: seq<byte>)
    requires forall i :: 0 <= i < |ms| ==> Sendable(ms[i])
    requires sent + waiting == Flatten(EncodeFrames(ms))
    ensures Recovered(ms, PeerParse(sent), |sent|)
  {
    assert Flatten(EncodeFrames(ms))[..|sent|] == sent;
    PeerRecovers(ms, |sent|);
  }

  datatype Step = Frame(m: Message) | Writable | Reads(s: SendStatus)

  // A read never sets THROTTLING.
  predicate KeepsUp(step: Step)
  {
    step.Reads? ==> !step.s.throttling
  }

  predicate AllKeepUp(steps: seq<Step>)
  {
    forall k :: 0 <= k < |steps| ==> KeepsUp(steps[k])
  }

  // Fewer bytes than the throttle threshold of 2 MiB are asked for in all.
  predicate Gentle(steps: seq<Step>)
  {
    |Flatten(EncodeFrames(Requested(steps)))| < 2097152 && AllKeepUp(steps)
  }

  lemma GentleStep(steps: seq<Step>, before: seq<Message>, taken: seq<Message>)
    requires steps != []
    ensures var init, last := steps[..|steps| - 1], steps[|steps| - 1];
      && (AllKeepUp(steps) ==> AllKeepUp(init) && KeepsUp(last))
      && (Gentle(steps) ==> Gentle(init))
      && ReadsIn(steps) == ReadsIn(init) + (if last.Reads? then 1 else 0)
      && (Gentle(steps) && taken == Requested(init) + Asked(last) ==>
           |Flatten(EncodeFrames(taken))| < THROTTLE_THLD)
  {
    var init, last := steps[..|steps| - 1], steps[|steps| - 1];
    if last.Frame? {
      EncodeSnoc(Requested(init), last.m);
      FlattenSnoc(EncodeFrames(Requested(init)), EncodeFrame(last.m));
    } else {
      assert Requested(init) + [] == Requested(init);
    }
  }

  function ReadsIn(steps: seq<Step>): (n: nat)
  {
    if steps == [] then 0
    else ReadsIn(steps[..|steps| - 1]) + (if steps[|steps| - 1].Reads? then 1 else 0)
  }

  // The frames a run asks for.
  function Requested(steps: seq<Step>): seq<Message>
  {
    if steps == [] then [] else Requested(steps[..|steps| - 1]) + Asked(steps[|steps| - 1])
  }

  function Asked(step: Step): seq<Message>
  {
    if step.Frame? then [step.m] else []
  }

  ghost predicate Subsequence<T>(a: seq<T>, b: seq<T>)
    decreases |b|
  {
    if b == [] then a == []
    else
      || Subsequence(a, b[..|b| - 1])
      || (a != [] && a[|a| - 1] == b[|b| - 1] && Subsequence(a[..|a| - 1], b[..|b| - 1]))
  }

  lemma SubsequenceSnoc<T>(a: seq<T>, b: seq<T>, x: T)
    requires Subsequence(a, b)
    ensures Subsequence(a, b + [x]) && Subsequence(a + [x], b + [x]) && b + [] == b
  {
    assert (b + [x])[..|b|] == b && (a + [x])[..|a|] == a;
  }

  lemma NothingAsked<T>(taken: seq<T>, asked: seq<T>)
    ensures taken + [] == taken && asked + [] == asked
  {
  }

  lemma EncodeSnoc(ms: seq<Message>, m: Message)
    ensures EncodeFrames(ms + [m]) == EncodeFrames(ms) + [EncodeFrame(m)]
  {
  }

  // The connection is given up when the viewer is found gone, and then only. A viewer that is
  // closing while bytes wait is closed once they are sent.
  lemma GivenUp(s: SendStatus, had: bool, appended: bool, r: SendResult, left: nat)
    requires appended ==> !r.Pipe?
    ensures var t := StatusAfter(s, had, appended, r, left);
      && (r.Pipe? ==> t.err && t.close) && (t.err ==> s.err || r.Pipe?)
      && (t.close ==> s.close || r.Pipe?) && (s.close ==> t.close)
  {
  }

  // The socket is watched for writing (SENDING) from when a queue is made until a read assigns
  // the status; a queue found there without it goes on without it.
  lemma WatchedIff(s: SendStatus, had: bool, appended: bool, r: SendResult, left: nat)
    requires left > 0 && !r.Pipe? && (appended ==> had)
    ensures StatusAfter(s, had, appended, r, left).sending <==> (had ==> s.sending)
  {
  }

  // Throttling ends only by draining the queue, or with the connection.
  lemma ThrottlingEnds(s: SendStatus, had: bool, appended: bool, r: SendResult, left: nat)
    requires s.throttling && !StatusAfter(s, had, appended, r, left).throttling
    ensures left == 0 || r.Pipe?
  {
  }

  // The header bytes of ws_send_frame, field by field, and the payload behind them.
  method BuildFrame(m: Message) returns (frm: array<byte>)
    requires Sendable(m)
    ensures fresh(frm) && frm[..] == EncodeFrame(m) && FrameBytes(frm[..], m.opcode, m.payload)
  {
    var sz := |m.payload|;
    var buf := new byte[32](_ => 0);
    var hsize := 2;
    buf[0] := FirstByte(m.opcode);
    if sz < 126 {
      buf[1] := LowByte(sz);
    } else if sz < 0x1_0000 {
      hsize := hsize + 2;
      buf[1] := EXT16;
      buf[2] := LowByte(sz / 256);
      buf[3] := LowByte(sz);
      assert ToBigEndian(sz, 2) == ToBigEndian(sz / 256, 1) + [LowByte(sz)];
      assert ToBigEndian(sz / 256, 1) == [LowByte(sz / 256)];
    } else {
      hsize := hsize + 8;
      buf[1] := EXT64;
      var u64 := ToBigEndian(sz, 8);
      forall k | 0 <= k < 8 {
        buf[2 + k] := u64[k];
      }
      assert buf[2..10] == u64;
    }
    assert buf[..hsize] == [FirstByte(m.opcode)] + LengthField(sz);
    var head := buf[..hsize];
    frm := new byte[hsize + sz](i requires 0 <= i < hsize + sz =>
      if i < |head| then head[i] else if i - |head| < |m.payload| then m.payload[i - |head|] else 0);
    EncodedBytes(m);
  }
}
