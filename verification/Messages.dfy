// What streams of frames amount to: pings do not disturb messages, messages are the
// concatenation of their fragments, text is well-formed, and echoing is faithful.
module Messages {
  import opened Bytes
  import opened Wire
  import opened Utf8
  import opened Receive
  import opened Frames

  // The handlers folded over a stream of frames, up to the point where the connection goes.
  ghost function Fold(c: Config, m: Machine, fs: seq<Frame>): Machine
    decreases |fs|
  {
    if fs == [] || m.verdict != Open then m else Fold(c, Handle(c, m, fs[0]), fs[1..])
  }

  // Every frame is one a sender can write, not too large, and totals stay below 2^31.
  ghost predicate Fits(c: Config, m: Machine, fs: seq<Frame>)
    decreases |fs|
  {
    fs == [] || m.verdict != Open ||
    (Frames.Writable(fs[0]) && |fs[0].masked| <= c.max && |Collected(m.partial)| + |fs[0].masked| <= INT_MAX
     && Fits(c, Handle(c, m, fs[0]), fs[1..]))
  }

  function OnWireAll(fs: seq<Frame>): seq<byte>
  {
    if fs == [] then [] else OnWire(fs[0]) + OnWireAll(fs[1..])
  }

  // The byte-level machine on a stream of written frames is the fold over the frames.
  lemma {:induction false} FeedIsFold(c: Config, m: Machine, fs: seq<Frame>)
    requires Fits(c, m, fs)
    ensures Feed(c, m, OnWireAll(fs)) == (Fold(c, m, fs), [])
    decreases |fs|
  {
    if fs != [] && m.verdict == Open {
      var f, rest := fs[0], OnWireAll(fs[1..]);
      ScanReadsFrame(f, rest, c.max, |Collected(m.partial)|);
      assert (OnWire(f) + rest)[|OnWire(f)|..] == rest;
      FeedIsFold(c, Handle(c, m, f), fs[1..]);
    }
  }

  // Streams of written frames are in range.
  lemma WrittenInRange(c: Config, fs: seq<Frame>)
    requires Fits(c, INITIAL, fs)
    ensures InRange(c, OnWireAll(fs))
  {
    FeedIsFold(c, INITIAL, fs);
    FoldInRange(c, INITIAL, fs);
  }

  lemma {:induction false} FoldInRange(c: Config, m: Machine, fs: seq<Frame>)
    requires m.verdict != Overflow
    ensures Fold(c, m, fs).verdict != Overflow
    decreases |fs|
  {
    if fs != [] && m.verdict == Open {
      FoldInRange(c, Handle(c, m, fs[0]), fs[1..]);
    }
  }

  lemma {:induction false} FoldSnoc(c: Config, m: Machine, fs: seq<Frame>, f: Frame)
    ensures var a := Fold(c, m, fs);
      Fold(c, m, fs + [f]) == if a.verdict == Open then Handle(c, a, f) else a
    decreases |fs|
  {
    if fs != [] && m.verdict == Open {
      assert (fs + [f])[1..] == fs[1..] + [f];
      FoldSnoc(c, Handle(c, m, fs[0]), fs[1..], f);
    }
  }

  // ---------------------------------------------------------------- pings

  // A ping the machine answers.
  predicate IsPing(f: Frame)
  {
    f.opcode == OPCODE_PING && f.fin && |f.masked| <= 125
  }

  function WithoutPings(fs: seq<Frame>): (gs: seq<Frame>)
  {
    if fs == [] then [] else (if IsPing(fs[0]) then [] else [fs[0]]) + WithoutPings(fs[1..])
  }

  predicate IsPong(e: Event)
  {
    e.Reply? && e.m.opcode == OPCODE_PONG
  }

  function WithoutPongs(es: seq<Event>): seq<Event>
  {
    if es == [] then [] else WithoutPongs(es[..|es| - 1]) + (if IsPong(es[|es| - 1]) then [] else [es[|es| - 1]])
  }

  function PongsOf(es: seq<Event>): seq<Message>
  {
    if es == [] then [] else PongsOf(es[..|es| - 1]) + (if IsPong(es[|es| - 1]) then [es[|es| - 1].m] else [])
  }

  // The answers to the pings of a stream.
  function Answers(fs: seq<Frame>): seq<Message>
  {
    if fs == [] then []
    else (if IsPing(fs[0]) then [Message(OPCODE_PONG, Unmask(fs[0].masked, fs[0].key))] else []) + Answers(fs[1..])
  }

  // The same machine, pongs aside.
  ghost predicate SameButPongs(a: Machine, b: Machine)
  {
    a.verdict == b.verdict && a.partial == b.partial && WithoutPongs(a.events) == WithoutPongs(b.events)
  }

  ghost predicate DataPartial(p: Partial)
  {
    p.Fragments? ==> p.opcode == OPCODE_TEXT || p.opcode == OPCODE_BIN
  }

  lemma EventSnoc(es: seq<Event>, e: Event)
    ensures WithoutPongs(es + [e]) == WithoutPongs(es) + (if IsPong(e) then [] else [e])
    ensures PongsOf(es + [e]) == PongsOf(es) + (if IsPong(e) then [e.m] else [])
  {
    assert (es + [e])[..|es|] == es;
  }

  // A frame adds at most one event, and that depends only on the message being assembled.
  lemma HandleAdds(c: Config, m: Machine, f: Frame)
    requires m.verdict == Open
    ensures var a := Handle(c, m, f);
      a.events == m.events || (a.events == m.events + [a.events[|m.events|]] && |a.events| == |m.events| + 1)
  {
  }

  lemma HandleUniform(c: Config, m: Machine, n: Machine, f: Frame)
    requires m.verdict == n.verdict == Open && m.partial == n.partial
    ensures var a, b := Handle(c, m, f), Handle(c, n, f);
      && a.verdict == b.verdict && a.partial == b.partial
      && |a.events| - |m.events| == |b.events| - |n.events|
      && (|a.events| > |m.events| ==> a.events[|m.events|] == b.events[|n.events|])
  {
  }

  lemma HandleNoPong(c: Config, m: Machine, f: Frame)
    requires m.verdict == Open && DataPartial(m.partial) && !IsPing(f)
    ensures DataPartial(Handle(c, m, f).partial)
    ensures |Handle(c, m, f).events| > |m.events| ==> !IsPong(Handle(c, m, f).events[|m.events|])
  {
  }

  lemma HandlePing(c: Config, m: Machine, f: Frame)
    requires m.verdict == Open && IsPing(f)
    ensures Handle(c, m, f) == m.(events := m.events + [Reply(Message(OPCODE_PONG, Unmask(f.masked, f.key)))])
  {
  }

  // One frame that is not a ping, on both sides.
  lemma StepBoth(c: Config, m: Machine, n: Machine, fs: seq<Frame>, gs: seq<Frame>) returns (a: Machine, b: Machine)
    requires fs != [] && gs != [] && fs[0] == gs[0] && !IsPing(fs[0])
    requires m.verdict == Open && SameButPongs(m, n) && DataPartial(m.partial)
    ensures Fold(c, m, fs) == Fold(c, a, fs[1..]) && Fold(c, n, gs) == Fold(c, b, gs[1..])
    ensures SameButPongs(a, b) && DataPartial(a.partial) && PongsOf(a.events) == PongsOf(m.events)
  {
    var f := fs[0];
    a, b := Handle(c, m, f), Handle(c, n, f);
    HandleAdds(c, m, f);
    HandleAdds(c, n, f);
    HandleUniform(c, m, n, f);
    HandleNoPong(c, m, f);
    AddBoth(m, n, a, b);
  }

  lemma AddBoth(m: Machine, n: Machine, a: Machine, b: Machine)
    requires SameButPongs(m, n) && a.verdict == b.verdict && a.partial == b.partial
    requires (a.events == m.events && b.events == n.events) ||
      (exists e :: !IsPong(e) && a.events == m.events + [e] && b.events == n.events + [e])
    ensures SameButPongs(a, b) && PongsOf(a.events) == PongsOf(m.events)
  {
    if !(a.events == m.events && b.events == n.events) {
      var e :| !IsPong(e) && a.events == m.events + [e] && b.events == n.events + [e];
      EventSnoc(m.events, e);
      EventSnoc(n.events, e);
    }
  }

  // One ping, answered.
  lemma StepPing(c: Config, m: Machine, fs: seq<Frame>) returns (a: Machine)
    requires fs != [] && IsPing(fs[0]) && m.verdict == Open
    ensures Fold(c, m, fs) == Fold(c, a, fs[1..])
    ensures a.verdict == Open && a.partial == m.partial && WithoutPongs(a.events) == WithoutPongs(m.events)
    ensures PongsOf(a.events) == PongsOf(m.events) + [Message(OPCODE_PONG, Unmask(fs[0].masked, fs[0].key))]
  {
    a := Handle(c, m, fs[0]);
    HandlePing(c, m, fs[0]);
    EventSnoc(m.events, Reply(Message(OPCODE_PONG, Unmask(fs[0].masked, fs[0].key))));
  }

  // x is the machine with the pings of fs in the stream, y the machine without them, and the
  // pongs of x that those of m do not include answer the pings, in order.
  ghost predicate Transparent(m: Machine, fs: seq<Frame>, x: Machine, y: Machine)
  {
    && SameButPongs(x, y)
    && PongsOf(x.events) <= PongsOf(m.events) + Answers(fs)
    && (x.verdict == Open ==> PongsOf(x.events) == PongsOf(m.events) + Answers(fs))
  }

  lemma TransparentCons(m: Machine, a: Machine, fs: seq<Frame>, x: Machine, y: Machine)
    requires fs != [] && Transparent(a, fs[1..], x, y)
    requires PongsOf(a.events) == PongsOf(m.events) +
      (if IsPing(fs[0]) then [Message(OPCODE_PONG, Unmask(fs[0].masked, fs[0].key))] else [])
    ensures Transparent(m, fs, x, y)
  {
    var head := if IsPing(fs[0]) then [Message(OPCODE_PONG, Unmask(fs[0].masked, fs[0].key))] else [];
    Regroup(PongsOf(m.events), head, Answers(fs[1..]));
  }

  // Ping transparency: taking the pings out of a stream leaves the verdict, the message being
  // assembled and every message delivered as they are; the pings are answered in order, each
  // with its own payload, as long as the connection lasts.
  lemma {:induction false} PingsTransparent(c: Config, m: Machine, n: Machine, fs: seq<Frame>)
    requires SameButPongs(m, n) && DataPartial(m.partial)
    ensures Transparent(m, fs, Fold(c, m, fs), Fold(c, n, WithoutPings(fs)))
    decreases |fs|
  {
    if fs != [] && m.verdict == Open {
      var gs := WithoutPings(fs);
      if IsPing(fs[0]) {
        var a := StepPing(c, m, fs);
        PingsTransparent(c, a, n, fs[1..]);
        assert gs == WithoutPings(fs[1..]);
        TransparentCons(m, a, fs, Fold(c, a, fs[1..]), Fold(c, n, gs));
      } else {
        assert gs[1..] == WithoutPings(fs[1..]);
        var a, b := StepBoth(c, m, n, fs, gs);
        PingsTransparent(c, a, b, fs[1..]);
        assert PongsOf(m.events) + [] == PongsOf(m.events);
        TransparentCons(m, a, fs, Fold(c, a, fs[1..]), Fold(c, b, gs[1..]));
      }
    }
  }

  // ---------------------------------------------------------------- reassembly

  predicate IsData(f: Frame)
  {
    f.opcode == OPCODE_CONTINUATION || f.opcode == OPCODE_TEXT || f.opcode == OPCODE_BIN
  }

  // What a frame adds to its message.
  function DataIn(f: Frame): seq<byte>
  {
    if IsData(f) then Unmask(f.masked, f.key) else []
  }

  // The unmasked payloads of the data frames of fs, in order.
  function DataOf(fs: seq<Frame>): seq<byte>
  {
    if fs == [] then [] else DataOf(fs[..|fs| - 1]) + DataIn(fs[|fs| - 1])
  }

  // fs is the beginning of a message: a text or binary frame, then continuations and pings,
  // none of the data frames final.
  ghost predicate Begun(fs: seq<Frame>, opcode: byte)
  {
    && fs != [] && fs[0].opcode == opcode && (opcode == OPCODE_TEXT || opcode == OPCODE_BIN) && !fs[0].fin
    && forall k :: 0 < k < |fs| ==> IsPing(fs[k]) || (fs[k].opcode == OPCODE_CONTINUATION && !fs[k].fin)
  }

  // fs is a whole message: the beginning of one and its final frame, or a single final frame.
  ghost predicate Whole(fs: seq<Frame>, opcode: byte)
  {
    && fs != [] && fs[|fs| - 1].fin
    && if |fs| == 1 then fs[0].opcode == opcode && (opcode == OPCODE_TEXT || opcode == OPCODE_BIN)
       else Begun(fs[..|fs| - 1], opcode) && fs[|fs| - 1].opcode == OPCODE_CONTINUATION
  }

  // The frames i to j of fs are a whole message with this payload.
  ghost predicate MessageAt(fs: seq<Frame>, i: nat, j: nat, opcode: byte, payload: seq<byte>)
  {
    i < j <= |fs| && Whole(fs[i..j], opcode) && payload == DataOf(fs[i..j])
  }

  // The frames of fs from i on are the beginning of the message collected in p.
  ghost predicate BeginsAt(fs: seq<Frame>, i: nat, p: Partial)
    requires p.Fragments?
  {
    i < |fs| && Begun(fs[i..], p.opcode) && p.payload == DataOf(fs[i..])
  }

  // Consecutive frames of a stream.
  datatype Stretch = Stretch(start: nat, end: nat)

  // A message delivered after the stream fs: the frames of the stretch are the whole message,
  // its payload is their unmasked data, and text is well-formed.
  ghost predicate Assembled(fs: seq<Frame>, e: Event, r: Stretch)
  {
    e.Deliver? && MessageAt(fs, r.start, r.end, e.opcode, e.payload)
    && (e.opcode == OPCODE_TEXT ==> IsWellFormed(e.payload))
  }

  function Deliveries(es: seq<Event>): (ds: seq<Event>)
    ensures forall k :: 0 <= k < |ds| ==> ds[k].Deliver?
  {
    if es == [] then []
    else Deliveries(es[..|es| - 1]) + (if es[|es| - 1].Deliver? then [es[|es| - 1]] else [])
  }

  // Each message delivered has a stretch of its own, and the stretches of later messages lie
  // behind those of earlier ones.
  ghost predicate InOrder(fs: seq<Frame>, ds: seq<Event>, rs: seq<Stretch>)
  {
    && |rs| == |ds|
    && (forall k :: 0 <= k < |ds| ==> Assembled(fs, ds[k], rs[k]))
    && (forall j, k :: 0 <= j < k < |rs| ==> rs[j].end <= rs[k].start)
  }

  ghost predicate Before(rs: seq<Stretch>, i: nat)
  {
    forall k :: 0 <= k < |rs| ==> rs[k].end <= i
  }

  // The frames from i on, behind all messages delivered, are the beginning of the message.
  ghost predicate CollectedFrom(fs: seq<Frame>, p: Partial, rs: seq<Stretch>, i: nat)
    requires p.Fragments?
  {
    BeginsAt(fs, i, p) && Before(rs, i)
  }

  // What has been collected is the data of the last frames, the beginning of a message.
  ghost predicate Collecting(fs: seq<Frame>, p: Partial, rs: seq<Stretch>)
  {
    p.Fragments? ==> exists i: nat :: CollectedFrom(fs, p, rs, i)
  }

  lemma DeliveriesSnoc(es: seq<Event>, e: Event)
    ensures Deliveries(es + [e]) == Deliveries(es) + (if e.Deliver? then [e] else [])
  {
    assert (es + [e])[..|es|] == es;
  }

  lemma StillAssembled(fs: seq<Frame>, f: Frame, e: Event, r: Stretch)
    requires Assembled(fs, e, r)
    ensures Assembled(fs + [f], e, r)
  {
    assert (fs + [f])[r.start..r.end] == fs[r.start..r.end];
  }

  lemma StillInOrder(fs: seq<Frame>, f: Frame, ds: seq<Event>, rs: seq<Stretch>)
    requires InOrder(fs, ds, rs)
    ensures InOrder(fs + [f], ds, rs) && Before(rs, |fs|)
  {
    forall k | 0 <= k < |ds|
      ensures Assembled(fs + [f], ds[k], rs[k]) && rs[k].end <= |fs|
    {
      StillAssembled(fs, f, ds[k], rs[k]);
    }
  }

  lemma DataOfSnoc(fs: seq<Frame>, f: Frame)
    ensures DataOf(fs + [f]) == DataOf(fs) + DataIn(f)
  {
    assert (fs + [f])[..|fs|] == fs;
  }

  lemma DataOfOne(f: Frame)
    ensures DataOf([f]) == DataIn(f)
  {
    assert [f][..0] == [];
    assert DataOf([f]) == DataOf([]) + DataIn(f);
  }

  lemma BegunSnoc(fs: seq<Frame>, f: Frame, opcode: byte)
    requires Begun(fs, opcode) && (IsPing(f) || (f.opcode == OPCODE_CONTINUATION && !f.fin))
    ensures Begun(fs + [f], opcode)
  {
  }

  // A message under way goes on with a ping or a continuation that is not final.
  lemma CollectMore(fs: seq<Frame>, f: Frame, p: Partial, rs: seq<Stretch>, q: Partial)
    requires p.Fragments? && Collecting(fs, p, rs) && q == Fragments(p.opcode, p.payload + DataIn(f))
    requires IsPing(f) || (f.opcode == OPCODE_CONTINUATION && !f.fin)
    ensures Collecting(fs + [f], q, rs)
  {
    var i: nat :| CollectedFrom(fs, p, rs, i);
    BeginsMore(fs, f, p, q, i);
    assert CollectedFrom(fs + [f], q, rs, i);
  }

  lemma BeginsMore(fs: seq<Frame>, f: Frame, p: Partial, q: Partial, i: nat)
    requires p.Fragments? && BeginsAt(fs, i, p) && q == Fragments(p.opcode, p.payload + DataIn(f))
    requires IsPing(f) || (f.opcode == OPCODE_CONTINUATION && !f.fin)
    ensures BeginsAt(fs + [f], i, q)
  {
    TailSnoc(fs, f, i);
    DataOfSnoc(fs[i..], f);
    BegunSnoc(fs[i..], f, p.opcode);
  }

  lemma TailSnoc(fs: seq<Frame>, f: Frame, i: nat)
    requires i <= |fs|
    ensures (fs + [f])[i..] == (fs + [f])[i..|fs + [f]|] == fs[i..] + [f]
  {
  }

  // A message starts.
  lemma CollectFirst(fs: seq<Frame>, f: Frame, rs: seq<Stretch>)
    requires !f.fin && Before(rs, |fs|)
    requires f.opcode == OPCODE_TEXT || f.opcode == OPCODE_BIN
    ensures Collecting(fs + [f], Fragments(f.opcode, Unmask(f.masked, f.key)), rs)
  {
    assert (fs + [f])[|fs|..] == [f];
    DataOfOne(f);
    assert CollectedFrom(fs + [f], Fragments(f.opcode, Unmask(f.masked, f.key)), rs, |fs|);
  }

  lemma WholeSnoc(fs: seq<Frame>, f: Frame, opcode: byte)
    requires Begun(fs, opcode) && f.opcode == OPCODE_CONTINUATION && f.fin
    ensures Whole(fs + [f], opcode)
  {
    assert (fs + [f])[..|fs|] == fs;
  }

  // A message ends, with its final continuation or in a single frame.
  lemma AssembleLast(fs: seq<Frame>, f: Frame, p: Partial, rs: seq<Stretch>, payload: seq<byte>) returns (r: Stretch)
    requires p.Fragments? && Collecting(fs, p, rs) && payload == p.payload + Unmask(f.masked, f.key)
    requires f.opcode == OPCODE_CONTINUATION && f.fin
    requires p.opcode == OPCODE_TEXT ==> IsWellFormed(payload)
    ensures Assembled(fs + [f], Deliver(p.opcode, payload), r) && Before(rs, r.start)
  {
    var i: nat :| CollectedFrom(fs, p, rs, i);
    r := Stretch(i, |fs + [f]|);
    LastAt(fs, f, p, i);
  }

  lemma LastAt(fs: seq<Frame>, f: Frame, p: Partial, i: nat)
    requires p.Fragments? && BeginsAt(fs, i, p)
    requires f.opcode == OPCODE_CONTINUATION && f.fin
    ensures MessageAt(fs + [f], i, |fs + [f]|, p.opcode, p.payload + Unmask(f.masked, f.key))
  {
    TailSnoc(fs, f, i);
    WholeSnoc(fs[i..], f, p.opcode);
    DataOfSnoc(fs[i..], f);
  }

  lemma AssembleOne(fs: seq<Frame>, f: Frame) returns (r: Stretch)
    requires f.fin
    requires f.opcode == OPCODE_BIN || (f.opcode == OPCODE_TEXT && IsWellFormed(Unmask(f.masked, f.key)))
    ensures Assembled(fs + [f], Deliver(f.opcode, Unmask(f.masked, f.key)), r) && r.start == |fs|
  {
    var gs := fs + [f];
    r := Stretch(|fs|, |gs|);
    assert gs[|fs|..|gs|] == [f];
    DataOfOne(f);
  }

  lemma InOrderSnoc(fs: seq<Frame>, ds: seq<Event>, rs: seq<Stretch>, e: Event, r: Stretch)
    requires InOrder(fs, ds, rs) && Assembled(fs, e, r) && Before(rs, r.start)
    ensures InOrder(fs, ds + [e], rs + [r])
  {
  }

  // The state of a run: what is collected and what was delivered come from the frames so far.
  ghost predicate Reassembled(fs: seq<Frame>, m: Machine, rs: seq<Stretch>)
  {
    && InOrder(fs, Deliveries(m.events), rs)
    && (m.verdict == Open ==> Collecting(fs, m.partial, rs))
  }

  // The machine has sent a frame, or nothing, and collects nothing.
  lemma Silent(fs: seq<Frame>, f: Frame, a: Machine, b: Machine, rs: seq<Stretch>)
    requires Reassembled(fs, a, rs) && b.partial.NoMessage?
    requires b.events == a.events || exists e :: b.events == a.events + [e] && e.Reply?
    ensures Reassembled(fs + [f], b, rs)
  {
    StillInOrder(fs, f, Deliveries(a.events), rs);
    if b.events != a.events {
      var e :| b.events == a.events + [e] && e.Reply?;
      DeliveriesSnoc(a.events, e);
    }
  }

  lemma DeliverStep(c: Config, a: Machine, fs: seq<Frame>, f: Frame, opcode: byte, rs: seq<Stretch>)
    returns (next: seq<Stretch>)
    requires !c.echo && a.verdict == Open && Reassembled(fs, a, rs) && IsMessageFrame(a, f, opcode)
    requires f.fin && (opcode == OPCODE_TEXT ==> IsWellFormed(Collected(a.partial) + Unmask(f.masked, f.key)))
    ensures rs <= next && Reassembled(fs + [f], HandleData(c, a, opcode, f), next)
  {
    var payload := Collected(a.partial) + Unmask(f.masked, f.key);
    assert a.partial.NoMessage? ==> payload == Unmask(f.masked, f.key);
    var ds, r := Deliveries(a.events), Stretch(0, 0);
    StillInOrder(fs, f, ds, rs);
    if f.opcode == OPCODE_CONTINUATION {
      r := AssembleLast(fs, f, a.partial, rs, payload);
    } else {
      r := AssembleOne(fs, f);
    }
    next := rs + [r];
    InOrderSnoc(fs + [f], ds, rs, Deliver(opcode, payload), r);
    DeliveriesSnoc(a.events, Deliver(opcode, payload));
  }

  // A data frame that is in place.
  predicate IsMessageFrame(a: Machine, f: Frame, opcode: byte)
  {
    if f.opcode == OPCODE_CONTINUATION then a.partial.Fragments? && opcode == a.partial.opcode
    else a.partial.NoMessage? && opcode == f.opcode && (opcode == OPCODE_TEXT || opcode == OPCODE_BIN)
  }

  lemma DataStep(c: Config, a: Machine, fs: seq<Frame>, f: Frame, opcode: byte, rs: seq<Stretch>)
    returns (next: seq<Stretch>)
    requires !c.echo && a.verdict == Open && Reassembled(fs, a, rs) && IsMessageFrame(a, f, opcode)
    ensures rs <= next && Reassembled(fs + [f], HandleData(c, a, opcode, f), next)
  {
    next := rs;
    var payload := Collected(a.partial) + Unmask(f.masked, f.key);
    var b := HandleData(c, a, opcode, f);
    if !f.fin {
      StillInOrder(fs, f, Deliveries(a.events), rs);
      if f.opcode == OPCODE_CONTINUATION {
        CollectMore(fs, f, a.partial, rs, b.partial);
      } else {
        assert payload == Unmask(f.masked, f.key);
        CollectFirst(fs, f, rs);
      }
    } else if opcode == OPCODE_TEXT && !IsWellFormed(payload) {
      Silent(fs, f, a, b, rs);
    } else {
      next := DeliverStep(c, a, fs, f, opcode, rs);
    }
  }

  lemma PingStep(c: Config, a: Machine, fs: seq<Frame>, f: Frame, rs: seq<Stretch>)
    requires a.verdict == Open && Reassembled(fs, a, rs) && IsPing(f)
    ensures Reassembled(fs + [f], Handle(c, a, f), rs)
  {
    HandlePing(c, a, f);
    StillInOrder(fs, f, Deliveries(a.events), rs);
    DeliveriesSnoc(a.events, Reply(Message(OPCODE_PONG, Unmask(f.masked, f.key))));
    if a.partial.Fragments? {
      assert a.partial.payload + [] == a.partial.payload;
      CollectMore(fs, f, a.partial, rs, a.partial);
    }
  }

  // One more frame, handled.
  lemma ReassembleStep(c: Config, a: Machine, fs: seq<Frame>, f: Frame, rs: seq<Stretch>) returns (next: seq<Stretch>)
    requires !c.echo && a.verdict == Open && Reassembled(fs, a, rs)
    ensures rs <= next && Reassembled(fs + [f], Handle(c, a, f), next)
  {
    next := rs;
    if f.opcode == OPCODE_CONTINUATION && a.partial.Fragments? {
      next := DataStep(c, a, fs, f, a.partial.opcode, rs);
    } else if (f.opcode == OPCODE_TEXT || f.opcode == OPCODE_BIN) && a.partial.NoMessage? {
      next := DataStep(c, a, fs, f, f.opcode, rs);
    } else if IsPing(f) {
      PingStep(c, a, fs, f, rs);
    } else {
      var b := Handle(c, a, f);
      assert b.events != a.events ==> b.events == a.events + [b.events[|a.events|]] && b.events[|a.events|].Reply?;
      Silent(fs, f, a, b, rs);
    }
  }

  // Reassembly: whatever the stream, every message delivered is a stretch of consecutive frames
  // forming one whole message, pings between them left out, with each fragment unmasked by its
  // own key; every text delivered is well-formed; and no frame serves twice, or out of order.
  lemma {:induction false} Reassembly(c: Config, fs: seq<Frame>) returns (rs: seq<Stretch>)
    requires !c.echo
    ensures Reassembled(fs, Fold(c, INITIAL, fs), rs)
    decreases |fs|
  {
    if fs == [] {
      rs := [];
    } else {
      var gs, f := fs[..|fs| - 1], fs[|fs| - 1];
      assert fs == gs + [f];
      rs := Reassembly(c, gs);
      FoldSnoc(c, INITIAL, gs, f);
      var a := Fold(c, INITIAL, gs);
      if a.verdict == Open {
        rs := ReassembleStep(c, a, gs, f, rs);
      } else {
        StillInOrder(gs, f, Deliveries(a.events), rs);
      }
    }
  }

  // The frames the parser takes whole off a stream of bytes, however malformed the rest is.
  ghost function FramesIn(c: Config, m: Machine, s: seq<byte>): seq<Frame>
    decreases |s|
  {
    if m.verdict != Open then []
    else
      match ScanFrame(s, c.max, |Collected(m.partial)|)
      case Complete(f, size) => [f] + FramesIn(c, Handle(c, m, f), s[size..])
      case _ => []
  }

  // What the parser adds to the fold of its frames is at most a close frame.
  ghost predicate Ends(a: Machine, r: Machine)
  {
    || r == a || r == Drop(a) || r == a.(verdict := Overflow)
    || (a.verdict == Open && r == DropWith(a, CloseMessage(TOO_LARGE, TOO_BIG)))
  }

  lemma {:induction false} FeedByFrames(c: Config, m: Machine, s: seq<byte>)
    ensures Ends(Fold(c, m, FramesIn(c, m, s)), Feed(c, m, s).0)
    decreases |s|
  {
    if m.verdict == Open {
      var r := ScanFrame(s, c.max, |Collected(m.partial)|);
      if r.Complete? {
        FeedByFrames(c, Handle(c, m, r.frame), s[r.size..]);
        assert FramesIn(c, m, s)[1..] == FramesIn(c, Handle(c, m, r.frame), s[r.size..]);
      }
    }
  }

  // Reassembly for every stream of bytes.
  lemma StreamReassembly(c: Config, s: seq<byte>) returns (rs: seq<Stretch>)
    requires !c.echo
    ensures InOrder(FramesIn(c, INITIAL, s), Deliveries(Feed(c, INITIAL, s).0.events), rs)
  {
    var fs := FramesIn(c, INITIAL, s);
    rs := Reassembly(c, fs);
    FeedByFrames(c, INITIAL, s);
    DeliveriesSnoc(Fold(c, INITIAL, fs).events, Reply(CloseMessage(TOO_LARGE, TOO_BIG)));
  }

  // The beginning of a message leaves the machine collecting exactly its data.
  lemma {:induction false} BegunCollects(c: Config, m: Machine, gs: seq<Frame>, opcode: byte)
    requires m.verdict == Open && m.partial.NoMessage? && Begun(gs, opcode)
    ensures var a := Fold(c, m, gs);
      && a.verdict == Open && a.partial == Fragments(opcode, DataOf(gs))
      && WithoutPongs(a.events) == WithoutPongs(m.events)
    decreases |gs|
  {
    var hs, f := gs[..|gs| - 1], gs[|gs| - 1];
    assert gs == hs + [f];
    FoldSnoc(c, m, hs, f);
    if hs == [] {
      DataOfOne(f);
      assert gs == [f];
    } else {
      BegunCollects(c, m, hs, opcode);
      CollectOne(c, Fold(c, m, hs), f);
      DataOfSnoc(hs, f);
    }
  }

  lemma CollectOne(c: Config, a: Machine, f: Frame)
    requires a.verdict == Open && a.partial.Fragments?
    requires IsPing(f) || (f.opcode == OPCODE_CONTINUATION && !f.fin)
    ensures var b := Handle(c, a, f);
      && b.verdict == Open && WithoutPongs(b.events) == WithoutPongs(a.events)
      && b.partial == Fragments(a.partial.opcode,
           a.partial.payload + DataIn(f))
  {
    if IsPing(f) {
      HandlePing(c, a, f);
      EventSnoc(a.events, Reply(Message(OPCODE_PONG, Unmask(f.masked, f.key))));
      assert a.partial.payload + [] == a.partial.payload;
    }
  }

  // Before its final frame a whole message has been collected, or has not begun.
  lemma CollectedWhole(c: Config, m: Machine, hs: seq<Frame>, opcode: byte)
    requires m.verdict == Open && m.partial.NoMessage? && (hs != [] ==> Begun(hs, opcode))
    ensures var a := Fold(c, m, hs);
      && a.verdict == Open && WithoutPongs(a.events) == WithoutPongs(m.events)
      && a.partial == (if hs == [] then NoMessage else Fragments(opcode, DataOf(hs)))
  {
    if hs != [] {
      BegunCollects(c, m, hs, opcode);
    }
  }

  // What the final frame of a message does.
  lemma LastDelivered(c: Config, a: Machine, f: Frame, opcode: byte, payload: seq<byte>)
    requires !c.echo && a.verdict == Open && f.fin && IsMessageFrame(a, f, opcode)
    requires payload == Collected(a.partial) + DataIn(f) && (opcode == OPCODE_TEXT ==> IsWellFormed(payload))
    ensures Handle(c, a, f) == Machine(Open, NoMessage, a.events + [Deliver(opcode, payload)])
  {
  }

  // Completeness of reassembly: a whole message that finds no other one under way is
  // delivered, with exactly its data, unless it is text that is not well-formed.
  lemma WholeDelivered(c: Config, m: Machine, gs: seq<Frame>, opcode: byte)
    requires !c.echo && m.verdict == Open && m.partial.NoMessage? && Whole(gs, opcode)
    requires opcode == OPCODE_TEXT ==> IsWellFormed(DataOf(gs))
    ensures var a := Fold(c, m, gs);
      && a.verdict == Open && a.partial.NoMessage?
      && WithoutPongs(a.events) == WithoutPongs(m.events) + [Deliver(opcode, DataOf(gs))]
  {
    var hs, f := gs[..|gs| - 1], gs[|gs| - 1];
    assert gs == hs + [f];
    var a := Fold(c, m, hs);
    CollectedWhole(c, m, hs, opcode);
    FoldSnoc(c, m, hs, f);
    DataOfSnoc(hs, f);
    LastDelivered(c, a, f, opcode, DataOf(gs));
    EventSnoc(a.events, Deliver(opcode, DataOf(gs)));
  }

  // ---------------------------------------------------------------- closing

  // What one frame more leaves unfinished: a data frame that is not final begins a message or
  // goes on with one, a ping changes nothing, and a final data frame or a pong leaves nothing.
  function LeftBy(p: Partial, f: Frame): Partial
  {
    if f.opcode == 9 then p
    else if f.opcode == 0 && !f.fin && p.Fragments? then Fragments(p.opcode, p.payload + Unmask(f.masked, f.key))
    else if (f.opcode == 1 || f.opcode == 2) && !f.fin then Fragments(f.opcode, Unmask(f.masked, f.key))
    else NoMessage
  }

  // What a stream that keeps the connection open leaves unfinished, read off its frames.
  function Unfinished(fs: seq<Frame>): (p: Partial)
  {
    if fs == [] then NoMessage else LeftBy(Unfinished(fs[..|fs| - 1]), fs[|fs| - 1])
  }

  // The frames that keep the connection open (RFC 6455, sections 5.4 to 5.6): continuations of a
  // message and first frames of one, each in their place, whole texts in UTF-8, final pings of
  // at most 125 bytes, and final pongs.
  ghost predicate MayFollow(p: Partial, f: Frame)
  {
    || (f.opcode == 0 && p.Fragments?
        && (f.fin && p.opcode == 1 ==> IsWellFormed(p.payload + Unmask(f.masked, f.key))))
    || (f.opcode == 1 && p.NoMessage? && (f.fin ==> IsWellFormed(Unmask(f.masked, f.key))))
    || (f.opcode == 2 && p.NoMessage?)
    || (f.opcode == 9 && f.fin && |f.masked| <= 125)
    || (f.opcode == 10 && f.fin)
  }

  ghost predicate Orderly(fs: seq<Frame>)
  {
    forall k :: 0 <= k < |fs| ==> MayFollow(Unfinished(fs[..k]), fs[k])
  }

  // What the server sends last: nothing when a data frame is out of place, code 1007 after a
  // text that is not UTF-8, code 1002 after a bad ping or pong, and an empty close frame after a
  // close frame or any other opcode.
  function Farewell(p: Partial, f: Frame): seq<Event>
  {
    if f.opcode == 0 then (if p.NoMessage? then [] else [Reply(Message(8, [3, 239]))])
    else if f.opcode == 1 || f.opcode == 2 then (if p.Fragments? then [] else [Reply(Message(8, [3, 239]))])
    else if f.opcode == 9 || f.opcode == 10 then [Reply(Message(8, [3, 234]))]
    else [Reply(Message(8, []))]
  }

  // What a frame that may follow makes the server do: a ping is answered, and a message that it
  // completes is delivered, or sent back.
  function Effect(c: Config, p: Partial, f: Frame): seq<Event>
  {
    var payload := Collected(p) + Unmask(f.masked, f.key);
    var opcode := if f.opcode == 0 && p.Fragments? then p.opcode else f.opcode;
    if f.opcode == 9 then [Reply(Message(10, Unmask(f.masked, f.key)))]
    else if f.opcode <= 2 && f.fin then [if c.echo then Reply(Message(opcode, payload)) else Deliver(opcode, payload)]
    else []
  }

  lemma CloseCode(code: nat, high: byte, low: byte, text: seq<byte>)
    requires code == 256 * (high as int) + low as int
    ensures CloseMessage(code, text) == Message(8, [high, low] + text)
  {
    TwoValue([high, low]);
    BigEndianImage([high, low]);
  }

  lemma BadPingCode()
    ensures CloseMessage(PROTO_ERR, []) == Message(8, [3, 234])
  {
    CloseCode(1002, 3, 234, []);
    assert [3, 234] + [] == [3 as byte, 234];
  }

  lemma BadTextCode()
    ensures CloseMessage(INVALID_UTF8, []) == Message(8, [3, 239])
  {
    CloseCode(1007, 3, 239, []);
    assert [3, 239] + [] == [3 as byte, 239];
  }

  // One frame more: it keeps the connection open, or closes it with the last words said above.
  lemma HandleFollows(c: Config, a: Machine, f: Frame)
    requires a.verdict == Open && DataPartial(a.partial)
    ensures var b := Handle(c, a, f);
      if MayFollow(a.partial, f) then
        b == Machine(Open, LeftBy(a.partial, f), a.events + Effect(c, a.partial, f)) && DataPartial(b.partial)
      else b == Machine(Closed, NoMessage, a.events + Farewell(a.partial, f))
  {
    BadPingCode();
    BadTextCode();
    assert a.events + [] == a.events;
    assert [] + Unmask(f.masked, f.key) == Unmask(f.masked, f.key);
  }

  lemma UnfinishedSnoc(fs: seq<Frame>, f: Frame)
    ensures Unfinished(fs + [f]) == LeftBy(Unfinished(fs), f)
  {
    assert (fs + [f])[..|fs|] == fs;
  }

  lemma OrderlySnoc(fs: seq<Frame>, f: Frame)
    ensures Orderly(fs + [f]) <==> Orderly(fs) && MayFollow(Unfinished(fs), f)
  {
    var gs := fs + [f];
    assert forall k :: 0 <= k <= |fs| ==> gs[..k] == fs[..k];
    assert fs[..|fs|] == fs && gs[|fs|] == f;
    assert forall k :: 0 <= k < |fs| ==> gs[k] == fs[k];
  }

  // The streams that leave the connection open are exactly those in which every frame may
  // follow what came before it.
  lemma {:induction false} OpenIff(c: Config, fs: seq<Frame>)
    ensures var a := Fold(c, INITIAL, fs);
      && (a.verdict == Open <==> Orderly(fs)) && DataPartial(a.partial)
      && (Orderly(fs) ==> a.partial == Unfinished(fs))
    decreases |fs|
  {
    if fs != [] {
      var gs, f := fs[..|fs| - 1], fs[|fs| - 1];
      assert fs == gs + [f];
      OpenIff(c, gs);
      FoldSnoc(c, INITIAL, gs, f);
      OrderlySnoc(gs, f);
      var a := Fold(c, INITIAL, gs);
      if a.verdict == Open {
        HandleFollows(c, a, f);
        UnfinishedSnoc(gs, f);
      }
    }
  }

  lemma {:induction false} FoldConcat(c: Config, m: Machine, fs: seq<Frame>, gs: seq<Frame>)
    ensures Fold(c, m, fs + gs) == Fold(c, Fold(c, m, fs), gs)
    decreases |fs|
  {
    if fs == [] {
      assert fs + gs == gs;
    } else if m.verdict == Open {
      assert (fs + gs)[1..] == fs[1..] + gs;
      FoldConcat(c, Handle(c, m, fs[0]), fs[1..], gs);
    }
  }

  // The first frame that may not follow closes the connection: the server sends its last words,
  // if there are any, and whatever else arrives changes nothing.
  lemma ClosedBy(c: Config, fs: seq<Frame>, f: Frame, more: seq<Frame>)
    requires Orderly(fs) && !MayFollow(Unfinished(fs), f)
    ensures Fold(c, INITIAL, fs + [f] + more) ==
      Machine(Closed, NoMessage, Fold(c, INITIAL, fs).events + Farewell(Unfinished(fs), f))
  {
    OpenIff(c, fs);
    FoldSnoc(c, INITIAL, fs, f);
    HandleFollows(c, Fold(c, INITIAL, fs), f);
    FoldConcat(c, INITIAL, fs + [f], more);
  }

  // Every other frame has its effect.
  lemma KeptOpen(c: Config, fs: seq<Frame>, f: Frame)
    requires Orderly(fs + [f])
    ensures var a, b := Fold(c, INITIAL, fs), Fold(c, INITIAL, fs + [f]);
      b == Machine(Open, Unfinished(fs + [f]), a.events + Effect(c, Unfinished(fs), f))
  {
    OrderlySnoc(fs, f);
    OpenIff(c, fs);
    OpenIff(c, fs + [f]);
    FoldSnoc(c, INITIAL, fs, f);
    HandleFollows(c, Fold(c, INITIAL, fs), f);
  }

  // A close frame is answered by a close frame, whatever came before it and comes behind it.
  lemma CloseAnswered(c: Config, fs: seq<Frame>, f: Frame, more: seq<Frame>)
    requires Fold(c, INITIAL, fs).verdict == Open && f.opcode == 8
    ensures Fold(c, INITIAL, fs + [f] + more) ==
      Machine(Closed, NoMessage, Fold(c, INITIAL, fs).events + [Reply(Message(8, []))])
  {
    OpenIff(c, fs);
    ClosedBy(c, fs, f, more);
  }

  // A header without a mask, or with a reserved bit, closes the connection without a word.
  lemma RefusedHeader(c: Config, m: Machine, s: seq<byte>)
    requires m.verdict == Open && |s| >= 2 && (s[1] < 128 || s[0] % 128 >= 16)
    ensures Feed(c, m, s) == (Machine(Closed, NoMessage, m.events), [])
  {
    FieldValues(s[0]);
    FieldValues(s[1]);
  }

  lemma TooLargeCode()
    ensures CloseMessage(TOO_LARGE, TOO_BIG) == Message(8, [3, 241] +
      [70, 114, 97, 109, 101, 32, 105, 115, 32, 116, 111, 111, 32, 98, 105, 103])
  {
    CloseCode(1009, 3, 241, TOO_BIG);
  }

  // A frame over the limit closes it with code 1009, as soon as its header is there.
  lemma TooLargeClosed(c: Config, m: Machine, f: Frame, rest: seq<byte>)
    requires m.verdict == Open && Frames.Writable(f) && c.max < |f.masked| <= INT_MAX
    ensures Feed(c, m, Header(f) + rest) ==
      (Machine(Closed, NoMessage, m.events + [Reply(Message(8, [3, 241] +
        [70, 114, 97, 109, 101, 32, 105, 115, 32, 116, 111, 111, 32, 98, 105, 103]))]), [])
  {
    HeaderFields(f, rest, Header(f) + rest);
    HeadFields(f.fin, f.opcode);
    LengthFields(f);
    TooLargeCode();
  }

  // ---------------------------------------------------------------- pongs

  predicate IsFinalPong(f: Frame)
  {
    f.opcode == OPCODE_PONG && f.fin
  }

  // The beginning of a message with final pings and pongs between its fragments.
  ghost predicate BegunAmid(fs: seq<Frame>, opcode: byte)
  {
    && fs != [] && fs[0].opcode == opcode && (opcode == OPCODE_TEXT || opcode == OPCODE_BIN) && !fs[0].fin
    && forall k :: 0 < k < |fs| ==>
         IsPing(fs[k]) || IsFinalPong(fs[k]) || (fs[k].opcode == OPCODE_CONTINUATION && !fs[k].fin)
  }

  // A whole message in several frames, with final pings and pongs between them.
  ghost predicate WholeAmid(fs: seq<Frame>, opcode: byte)
  {
    && |fs| > 1 && BegunAmid(fs[..|fs| - 1], opcode)
    && fs[|fs| - 1].opcode == OPCODE_CONTINUATION && fs[|fs| - 1].fin
  }

  predicate NoPong(fs: seq<Frame>)
  {
    forall k :: 0 <= k < |fs| ==> !IsFinalPong(fs[k])
  }

  // Behind a pong nothing is collected, and no fragment that still comes is taken.
  lemma {:induction false} PongLoses(c: Config, m: Machine, gs: seq<Frame>, opcode: byte)
    requires m.verdict == Open && m.partial.NoMessage? && BegunAmid(gs, opcode) && !NoPong(gs)
    ensures var a := Fold(c, m, gs);
      a.verdict != Overflow && a.partial.NoMessage? && WithoutPongs(a.events) == WithoutPongs(m.events)
    decreases |gs|
  {
    var hs, f := gs[..|gs| - 1], gs[|gs| - 1];
    assert gs == hs + [f];
    assert |hs| > 0 by {
      assert !IsFinalPong(gs[0]);
    }
    FoldSnoc(c, m, hs, f);
    var a := Fold(c, m, hs);
    if NoPong(hs) {
      BegunCollects(c, m, hs, opcode);
    } else {
      PongLoses(c, m, hs, opcode);
      if IsPing(f) && a.verdict == Open {
        HandlePing(c, a, f);
        EventSnoc(a.events, Reply(Message(OPCODE_PONG, Unmask(f.masked, f.key))));
      }
    }
  }

  // The exact condition: a whole message with pings and pongs between its fragments is
  // delivered if and only if none of these is a pong. If one is, the connection is closed and
  // nothing is delivered.
  lemma DeliveredIffNoPong(c: Config, m: Machine, gs: seq<Frame>, opcode: byte)
    requires !c.echo && m.verdict == Open && m.partial.NoMessage? && WholeAmid(gs, opcode)
    requires opcode == OPCODE_TEXT ==> IsWellFormed(DataOf(gs))
    ensures var a, before := Fold(c, m, gs), WithoutPongs(m.events);
      && (NoPong(gs) <==> WithoutPongs(a.events) == before + [Deliver(opcode, DataOf(gs))])
      && (NoPong(gs) <==> a.verdict == Open)
      && (!NoPong(gs) ==> a.verdict == Closed && WithoutPongs(a.events) == before)
  {
    var hs, f := gs[..|gs| - 1], gs[|gs| - 1];
    assert gs == hs + [f];
    assert NoPong(gs) <==> NoPong(hs) by {
      assert forall k :: 0 <= k < |hs| ==> gs[k] == hs[k];
    }
    if NoPong(gs) {
      WholeDelivered(c, m, gs, opcode);
    } else {
      PongLoses(c, m, hs, opcode);
      FoldSnoc(c, m, hs, f);
      var a := Fold(c, m, gs);
      assert a.verdict == Closed && WithoutPongs(a.events) == WithoutPongs(m.events);
      assert |WithoutPongs(m.events) + [Deliver(opcode, DataOf(gs))]| > |WithoutPongs(m.events)|;
    }
  }

  // One pong anywhere between two fragments: with it the message is lost, without it it is
  // delivered.
  lemma OnePongLosesMessage(c: Config, m: Machine, gs: seq<Frame>, opcode: byte, pong: Frame, last: Frame)
    requires !c.echo && m.verdict == Open && m.partial.NoMessage? && Begun(gs, opcode) && IsFinalPong(pong)
    requires last.opcode == OPCODE_CONTINUATION && last.fin
    requires opcode == OPCODE_TEXT ==> IsWellFormed(DataOf(gs + [last]))
    ensures var a := Fold(c, m, gs + [pong] + [last]);
      a.verdict == Closed && WithoutPongs(a.events) == WithoutPongs(m.events)
    ensures var a := Fold(c, m, gs + [last]);
      a.verdict == Open && WithoutPongs(a.events) == WithoutPongs(m.events) + [Deliver(opcode, DataOf(gs + [last]))]
  {
    WholeSnoc(gs, last, opcode);
    WholeDelivered(c, m, gs + [last], opcode);
    var hs := gs + [pong];
    assert BegunAmid(hs, opcode);
    assert IsFinalPong(hs[|gs|]);
    PongLoses(c, m, hs, opcode);
    FoldSnoc(c, m, hs, last);
  }

  lemma FoldTwo(c: Config, m: Machine, f: Frame, g: Frame)
    requires m.verdict == Open
    ensures Fold(c, m, [f, g]) == Fold(c, Handle(c, m, f), [g])
  {
    assert [f, g][1..] == [g];
  }

  lemma FoldOne(c: Config, m: Machine, f: Frame)
    requires m.verdict == Open
    ensures Fold(c, m, [f]) == Handle(c, m, f)
  {
    assert [f][1..] == [];
  }

  // The frame of some binary data, under the key 0.
  function Plain(fin: bool, opcode: byte, data: seq<byte>): Frame
  {
    Frame(fin, opcode, Short, [0, 0, 0, 0], data)
  }

  lemma PlainData(fin: bool, opcode: byte, data: seq<byte>)
    ensures var f := Plain(fin, opcode, data); Unmask(f.masked, f.key) == data
  {
    var key: Key := [0, 0, 0, 0];
    forall i | 0 <= i < |data|
      ensures Unmask(data, key)[i] == data[i]
    {
      XorZero(data[i]);
      assert key[i % 4] == 0;
    }
  }

  lemma XorZero(b: byte)
    ensures XorByte(b, 0) == b
  {
  }

  // A binary message in two frames, and the same with a pong between them.
  lemma LostToPong(max: nat, one: seq<byte>, two: seq<byte>)
    ensures var c, first, pong, last := Config(max, false), Plain(false, OPCODE_BIN, one),
        Plain(true, OPCODE_PONG, []), Plain(true, OPCODE_CONTINUATION, two);
      && Fold(c, INITIAL, [first, last]).events == [Deliver(OPCODE_BIN, one + two)]
      && Fold(c, INITIAL, [first, pong, last]) == Machine(Closed, NoMessage, [])
  {
    var c, first, pong, last := Config(max, false), Plain(false, OPCODE_BIN, one),
      Plain(true, OPCODE_PONG, []), Plain(true, OPCODE_CONTINUATION, two);
    PlainData(false, OPCODE_BIN, one);
    PlainData(true, OPCODE_CONTINUATION, two);
    assert [] + one == one;
    var a := Machine(Open, Fragments(OPCODE_BIN, one), []);
    assert Handle(c, INITIAL, first) == a;
    FoldTwo(c, INITIAL, first, last);
    FoldOne(c, a, last);
    assert [first, pong, last][1..] == [pong, last];
    FoldTwo(c, a, pong, last);
    FoldOne(c, INITIAL, last);
  }

  // At the end of any stream a pong changes nothing if and only if nothing is being collected.
  lemma PongTransparentIff(c: Config, m: Machine, fs: seq<Frame>, pong: Frame)
    requires IsFinalPong(pong)
    ensures var a := Fold(c, m, fs);
      Fold(c, m, fs + [pong]) == a <==> a.verdict != Open || a.partial.NoMessage?
  {
    FoldSnoc(c, m, fs, pong);
  }

  // fs without the pongs that arrive while nothing is being collected.
  ghost function WithoutIdlePongs(c: Config, m: Machine, fs: seq<Frame>): seq<Frame>
    decreases |fs|
  {
    if fs == [] || m.verdict != Open then fs
    else if IsFinalPong(fs[0]) && m.partial.NoMessage? then WithoutIdlePongs(c, m, fs[1..])
    else [fs[0]] + WithoutIdlePongs(c, Handle(c, m, fs[0]), fs[1..])
  }

  // These pongs are transparent.
  lemma {:induction false} IdlePongsTransparent(c: Config, m: Machine, fs: seq<Frame>)
    ensures Fold(c, m, WithoutIdlePongs(c, m, fs)) == Fold(c, m, fs)
    decreases |fs|
  {
    if fs != [] && m.verdict == Open {
      if IsFinalPong(fs[0]) && m.partial.NoMessage? {
        assert Handle(c, m, fs[0]) == m;
        IdlePongsTransparent(c, m, fs[1..]);
      } else {
        var a, gs := Handle(c, m, fs[0]), WithoutIdlePongs(c, Handle(c, m, fs[0]), fs[1..]);
        IdlePongsTransparent(c, a, fs[1..]);
        assert ([fs[0]] + gs)[1..] == gs;
      }
    }
  }

  // ---------------------------------------------------------------- echoing

  // A delivered message sent straight back.
  function Echoed(es: seq<Event>): (rs: seq<Event>)
    ensures |rs| == |es|
  {
    seq(|es|, i requires 0 <= i < |es| => if es[i].Deliver? then Reply(Message(es[i].opcode, es[i].payload)) else es[i])
  }

  lemma EchoedSnoc(es: seq<Event>, e: Event)
    ensures Echoed(es + [e]) == Echoed(es) + [if e.Deliver? then Reply(Message(e.opcode, e.payload)) else e]
  {
  }

  // e is what a becomes when messages are echoed.
  ghost predicate IsEcho(a: Machine, e: Machine)
  {
    e == Machine(a.verdict, a.partial, Echoed(a.events)) && DataPartial(a.partial)
  }

  lemma EchoData(max: nat, a: Machine, e: Machine, f: Frame, opcode: byte)
    requires a.verdict == Open && IsEcho(a, e) && (opcode == OPCODE_TEXT || opcode == OPCODE_BIN)
    ensures IsEcho(HandleData(Config(max, false), a, opcode, f), HandleData(Config(max, true), e, opcode, f))
  {
    var payload := Collected(a.partial) + Unmask(f.masked, f.key);
    if f.fin {
      if opcode == OPCODE_TEXT && !IsWellFormed(payload) {
        EchoedSnoc(a.events, Reply(CloseMessage(INVALID_UTF8, [])));
      } else {
        EchoedSnoc(a.events, Deliver(opcode, payload));
      }
    }
  }

  lemma EchoStep(max: nat, a: Machine, e: Machine, f: Frame)
    requires a.verdict == Open && IsEcho(a, e)
    ensures IsEcho(Handle(Config(max, false), a, f), Handle(Config(max, true), e, f))
  {
    if f.opcode == OPCODE_CONTINUATION && a.partial.Fragments? {
      EchoData(max, a, e, f, a.partial.opcode);
    } else if (f.opcode == OPCODE_TEXT || f.opcode == OPCODE_BIN) && a.partial.NoMessage? {
      EchoData(max, a, e, f, f.opcode);
    } else {
      EchoedSnoc(a.events, Reply(CloseMessage(PROTO_ERR, [])));
      EchoedSnoc(a.events, Reply(Message(OPCODE_CLOSE, [])));
      EchoedSnoc(a.events, Reply(Message(OPCODE_PONG, Unmask(f.masked, f.key))));
    }
  }

  // Echo fidelity: in echo mode the server sends back, opcode and payload unchanged, exactly
  // the messages it would otherwise deliver.
  lemma {:induction false} EchoFaithful(max: nat, a: Machine, e: Machine, fs: seq<Frame>)
    requires IsEcho(a, e)
    ensures IsEcho(Fold(Config(max, false), a, fs), Fold(Config(max, true), e, fs))
    decreases |fs|
  {
    if fs != [] && a.verdict == Open {
      EchoStep(max, a, e, fs[0]);
      EchoFaithful(max, Handle(Config(max, false), a, fs[0]), Handle(Config(max, true), e, fs[0]), fs[1..]);
    }
  }

  // The frames the server sends, in order.
  function Sent(es: seq<Event>): (ms: seq<Message>)
  {
    if es == [] then []
    else Sent(es[..|es| - 1]) + (if es[|es| - 1].Reply? then [es[|es| - 1].m] else [])
  }

  // The same on every stream of bytes.
  lemma {:induction false} EchoStream(max: nat, a: Machine, e: Machine, s: seq<byte>)
    requires IsEcho(a, e)
    ensures IsEcho(Feed(Config(max, false), a, s).0, Feed(Config(max, true), e, s).0)
    ensures Feed(Config(max, false), a, s).1 == Feed(Config(max, true), e, s).1
    decreases |s|
  {
    if a.verdict == Open {
      var r := ScanFrame(s, max, |Collected(a.partial)|);
      if r.Complete? {
        EchoStep(max, a, e, r.frame);
        EchoStream(max, Handle(Config(max, false), a, r.frame), Handle(Config(max, true), e, r.frame), s[r.size..]);
      } else {
        EchoedSnoc(a.events, Reply(CloseMessage(TOO_LARGE, TOO_BIG)));
      }
    }
  }

  // What an echoing server asks to be sent, after the bytes s: the messages another server
  // would have delivered, and between them the pongs and the close frame.
  lemma EchoReplies(max: nat, s: seq<byte>)
    ensures Sent(Feed(Config(max, true), INITIAL, s).0.events) ==
      Sent(Echoed(Feed(Config(max, false), INITIAL, s).0.events))
  {
    assert Echoed([]) == [];
    EchoStream(max, INITIAL, INITIAL, s);
  }

  // Their encoding is read back as those frames. Whether all of them are sent is up to the
  // sending side.
  lemma EchoReachesViewer(max: nat, fs: seq<Frame>)
    requires Fits(Config(max, true), INITIAL, fs)
    requires forall i :: 0 <= i < |Sent(Fold(Config(max, true), INITIAL, fs).events)| ==>
      Sendable(Sent(Fold(Config(max, true), INITIAL, fs).events)[i])
    ensures PeerParse(Flatten(EncodeFrames(Sent(Feed(Config(max, true), INITIAL, OnWireAll(fs)).0.events)))) ==
      Sent(Echoed(Fold(Config(max, false), INITIAL, fs).events))
  {
    assert Echoed([]) == [];
    FeedIsFold(Config(max, true), INITIAL, fs);
    EchoFaithful(max, INITIAL, INITIAL, fs);
    PeerReadsAll(Sent(Fold(Config(max, true), INITIAL, fs).events));
  }
}
