// Receiving and sending put together: from the pieces recv() hands out to the messages
// delivered, and from the replies to what the viewer reads.
module Server {
  import opened Bytes
  import opened Wire
  import opened Receive
  import Messages
  import Outbound
  import ReceiveMachine

  // A viewer's stream, read in any pieces by any number of calls. What is delivered and sent
  // depends on the bytes taken alone, and the messages delivered are assembled from consecutive
  // frames of them, each from its own and in order. When no read comes back empty and there are
  // enough calls, everything is taken, unless the connection is given up before.
  method Serve(c: Config, incoming: seq<byte>, schedule: seq<nat>, calls: nat)
    returns (events: seq<Event>, taken: nat, ghost stretches: seq<Messages.Stretch>)
    requires InRange(c, incoming)
    ensures taken <= |incoming|
    ensures events == Feed(c, INITIAL, incoming[..taken]).0.events
    ensures |schedule| >= |incoming| && calls >= |incoming| && (forall k :: 0 <= k < |schedule| ==> schedule[k] > 0)
      ==> taken == |incoming| || Feed(c, INITIAL, incoming[..taken]).0.verdict == Closed
    ensures !c.echo ==>
      Messages.InOrder(Messages.FramesIn(c, INITIAL, incoming[..taken]), Messages.Deliveries(events), stretches)
  {
    var sock := new ReceiveMachine.RecvSocket(incoming, schedule);
    var client := new ReceiveMachine.ReceivingClient(c, sock);
    assert [] + incoming == incoming;
    client.Run(calls);
    events := client.events;
    taken := |incoming| - |client.sock.incoming|;
    assert client.consumed == incoming[..taken];
    stretches := [];
    if !c.echo {
      stretches := Messages.StreamReassembly(c, incoming[..taken]);
    }
  }

  // A viewer that sends frames, whole and in range, gets what the handlers make of them.
  method ServeFrames(c: Config, fs: seq<Frame>, schedule: seq<nat>, calls: nat) returns (events: seq<Event>)
    requires Messages.Fits(c, INITIAL, fs)
    requires forall k :: 0 <= k < |schedule| ==> schedule[k] > 0
    requires |schedule| >= |Messages.OnWireAll(fs)| && calls >= |Messages.OnWireAll(fs)|
    ensures events == Messages.Fold(c, INITIAL, fs).events
  {
    var incoming := Messages.OnWireAll(fs);
    Messages.WrittenInRange(c, fs);
    Messages.FeedIsFold(c, INITIAL, fs);
    var taken; ghost var stretches;
    events, taken, stretches := Serve(c, incoming, schedule, calls);
    ClosedStays(c, incoming, taken);
  }

  // Once the connection has been given up, what follows changes nothing.
  lemma ClosedStays(c: Config, s: seq<byte>, n: nat)
    requires n <= |s| && (n == |s| || Feed(c, INITIAL, s[..n]).0.verdict == Closed)
    ensures Feed(c, INITIAL, s).0 == Feed(c, INITIAL, s[..n]).0
  {
    assert s == s[..n] + s[n..];
    FeedConcat(c, INITIAL, s[..n], s[n..]);
    if n == |s| {
      assert s[..n] == s;
    }
  }

  // The messages a server that does not echo would have delivered after the bytes s, as
  // replies, with the pongs and the close frame between them.
  ghost function Replies(max: nat, s: seq<byte>): seq<Message>
  {
    Messages.Sent(Messages.Echoed(Feed(Config(max, false), INITIAL, s).0.events))
  }

  // An echoing server that has taken the bytes s sends its replies, over any run of sends,
  // sockets found writable and reads. What the viewer reads is a subsequence of the messages
  // another server would have delivered, each whole. If the viewer stays and less than the
  // throttle threshold is asked for, every byte of them is sent or waiting: the viewer reads
  // the first of them, and all once nothing is waiting.
  method Echo(max: nat, s: seq<byte>, steps: seq<Outbound.Step>, answers: seq<Outbound.Answer>)
    returns (wire: seq<byte>, waiting: nat)
    requires Outbound.Requested(steps) == Messages.Sent(Feed(Config(max, true), INITIAL, s).0.events)
    requires forall k :: 0 <= k < |steps| && steps[k].Frame? ==> Sendable(steps[k].m)
    ensures Outbound.Subsequence(PeerParse(wire), Replies(max, s))
    ensures Outbound.Gentle(steps) && (forall k :: 0 <= k < |answers| ==> !answers[k].BrokenPipe?) ==>
      Underway(wire, waiting, Replies(max, s))
  {
    Messages.EchoReplies(max, s);
    wire, waiting := SendAll(steps, answers);
  }

  // The first |wire| bytes of the stream of `ms` are sent, the rest is waiting.
  ghost predicate Underway(wire: seq<byte>, waiting: nat, ms: seq<Message>)
  {
    var stream := Flatten(EncodeFrames(ms));
    && wire <= stream && |wire| + waiting == |stream|
    && Recovered(ms, PeerParse(wire), |wire|)
    && (waiting == 0 ==> PeerParse(wire) == ms)
  }

  method SendAll(steps: seq<Outbound.Step>, answers: seq<Outbound.Answer>) returns (wire: seq<byte>, waiting: nat)
    requires forall k :: 0 <= k < |steps| && steps[k].Frame? ==> Sendable(steps[k].m)
    ensures Outbound.Subsequence(PeerParse(wire), Outbound.Requested(steps))
    ensures Outbound.Gentle(steps) && (forall k :: 0 <= k < |answers| ==> !answers[k].BrokenPipe?) ==>
      Underway(wire, waiting, Outbound.Requested(steps))
  {
    var client := new Outbound.SendingClient(answers);
    if forall k :: 0 <= k < |answers| ==> !answers[k].BrokenPipe? {
      Outbound.NoBreaks(answers);
    }
    ghost var taken, wipes := client.Run(steps, MAX_PAYLOAD + 10);
    wire := client.socket.wire;
    waiting := if client.sockqueue == null then 0 else client.sockqueue.qlen;
    SubsequencePrefix(PeerParse(wire), taken, Outbound.Requested(steps));
    assert wire <= wire + client.Queue() == Flatten(EncodeFrames(taken));
  }

  lemma {:induction false} SubsequencePrefix<T>(p: seq<T>, a: seq<T>, b: seq<T>)
    requires p <= a && Outbound.Subsequence(a, b)
    ensures Outbound.Subsequence(p, b)
    decreases |b|
  {
    if b != [] {
      var init := b[..|b| - 1];
      if Outbound.Subsequence(a, init) {
        SubsequencePrefix(p, a, init);
      } else if p != a {
        assert p == a[..|p|] && p <= a[..|a| - 1];
        SubsequencePrefix(p, a[..|a| - 1], init);
      }
    }
  }
}
