// Announced updates on their way to the viewer: check_dirty_pixels and ws_send_dirty_info of
// src/websocket.c, the sending side, and the script that draws what arrives.
module Screen {
  import opened Bytes
  import opened Wire
  import opened Pixels
  import opened Display
  import Outbound
  import Server

  const WORD_SIZE: nat := 0x1_0000_0000

  // The script asks for sixteen 32-bit numbers although four are there.
  const SHORTEST: nat := 64

  // ---------------------------------------------------------------- announcements

  // pack_uint32 without conversion
  function Pack(n: int): (s: seq<byte>)
    ensures |s| == 4
  {
    ToLittleEndian(n % WORD_SIZE, 4)
  }

  function Edges(rc: Rect): (s: seq<byte>)
    ensures |s| == 16
  {
    Pack(rc.left) + Pack(rc.top) + Pack(rc.right) + Pack(rc.bottom)
  }

  // ws_send_dirty_info: a binary message of a rectangle, and the name under which the picture of it can be fetched.
  function Announcement(rc: Rect, name: seq<byte>): Message
  {
    Message(OPCODE_BIN, Edges(rc) + name)
  }

  function Announcements(updates: seq<Update>, names: seq<seq<byte>>): (ms: seq<Message>)
    requires |names| == |updates|
    ensures |ms| == |updates|
  {
    if updates == [] then []
    else
      var n := |updates| - 1;
      Announcements(updates[..n], names[..n]) + [Announcement(updates[n].rc, names[n])]
  }

  // Under each name lies the picture saved under it.
  predicate Serves(pictures: map<seq<byte>, seq<seq<byte>>>, names: seq<seq<byte>>, updates: seq<Update>)
  {
    && |names| == |updates|
    && forall i :: 0 <= i < |updates| ==> names[i] in pictures && pictures[names[i]] == updates[i].png
  }

  // ---------------------------------------------------------------- the script

  function RectOf(p: seq<byte>): Rect
    requires |p| >= 16
  {
    Rect(FromLittleEndian(p[0..4]), FromLittleEndian(p[4..8]),
      FromLittleEndian(p[8..12]), FromLittleEndian(p[12..16]))
  }

  // onmessage: what a message makes the script draw, if anything.
  function Seen(pictures: map<seq<byte>, seq<seq<byte>>>, m: Message): (us: seq<Update>)
    ensures |us| <= 1
  {
    if m.opcode == OPCODE_BIN && |m.payload| >= SHORTEST && m.payload[16..] in pictures
    then [Update(RectOf(m.payload), pictures[m.payload[16..]])]
    else []
  }

  function AllSeen(pictures: map<seq<byte>, seq<seq<byte>>>, ms: seq<Message>): seq<Update>
  {
    if ms == [] then []
    else AllSeen(pictures, ms[..|ms| - 1]) + Seen(pictures, ms[|ms| - 1])
  }

  // The binary messages among others.
  function Binary(ms: seq<Message>): seq<Message>
  {
    if ms == [] then []
    else Binary(ms[..|ms| - 1]) + if ms[|ms| - 1].opcode == OPCODE_BIN then [ms[|ms| - 1]] else []
  }

  // ---------------------------------------------------------------- reading announcements

  lemma FourBytes()
    ensures Pow256(4) == WORD_SIZE
  {
    assert Pow256(1) == 0x100 && Pow256(2) == 0x1_0000 && Pow256(3) == 0x100_0000;
  }

  lemma PackRead(n: int)
    requires 0 <= n < WORD_SIZE
    ensures FromLittleEndian(Pack(n)) == n
  {
    FourBytes();
    var m: nat := n % WORD_SIZE;
    assert m == n;
    LittleEndianRoundTrip(m, 4);
  }

  lemma EdgesRead(rc: Rect, name: seq<byte>, w: nat, h: nat, p: seq<byte>)
    requires OnScreen(rc, w, h) && w <= INT_MAX && h <= INT_MAX && p == Edges(rc) + name
    ensures |p| == 16 + |name| && RectOf(p) == rc && p[16..] == name
  {
    PackRead(rc.left);
    PackRead(rc.top);
    PackRead(rc.right);
    PackRead(rc.bottom);
    assert p[0..4] == Pack(rc.left) && p[4..8] == Pack(rc.top);
    assert p[8..12] == Pack(rc.right) && p[12..16] == Pack(rc.bottom);
  }

  // An announcement byte by byte: the edges in four times four bytes, the first of each counting
  // least, and the name behind them.
  lemma AnnouncementBytes(rc: Rect, name: seq<byte>, w: nat, h: nat)
    requires OnScreen(rc, w, h) && w <= INT_MAX && h <= INT_MAX
    ensures var m := Announcement(rc, name); var p := m.payload;
      && m.opcode == 2 && |p| == 16 + |name| && p[16..] == name
      && FourBytesValue(p, 0) == rc.left && FourBytesValue(p, 4) == rc.top
      && FourBytesValue(p, 8) == rc.right && FourBytesValue(p, 12) == rc.bottom
  {
    var p := Announcement(rc, name).payload;
    EdgesRead(rc, name, w, h, p);
    LittleValue(p[0..4]);
    LittleValue(p[4..8]);
    LittleValue(p[8..12]);
    LittleValue(p[12..16]);
  }

  function FourBytesValue(s: seq<byte>, at: nat): int
    requires at + 4 <= |s|
  {
    s[at] as int + 256 * s[at + 1] as int + 65536 * s[at + 2] as int + 16777216 * s[at + 3] as int
  }

  lemma LittleValue(s: seq<byte>)
    requires |s| == 4
    ensures FromLittleEndian(s) == FourBytesValue(s, 0)
  {
    assert s[1..][1..] == s[2..] && s[2..][1..] == s[3..] && s[3..][1..] == [];
    assert FromLittleEndian(s[3..]) == s[3] as int;
    assert FromLittleEndian(s[2..]) == s[2] as int + 256 * FromLittleEndian(s[3..]);
    assert FromLittleEndian(s[1..]) == s[1] as int + 256 * FromLittleEndian(s[2..]);
  }

  // The script draws an announced update exactly as announced, if and only if its name is not
  // too short.
  lemma AnnouncementRead(pictures: map<seq<byte>, seq<seq<byte>>>, u: Update, name: seq<byte>, w: nat, h: nat)
    requires OnScreen(u.rc, w, h) && w <= INT_MAX && h <= INT_MAX
    requires name in pictures && pictures[name] == u.png
    ensures Seen(pictures, Announcement(u.rc, name)) == if |name| >= 48 then [u] else []
  {
    EdgesRead(u.rc, name, w, h, Announcement(u.rc, name).payload);
  }

  predicate LongEnough(names: seq<seq<byte>>)
  {
    forall i :: 0 <= i < |names| ==> |names[i]| >= 48
  }

  // Of the announcements it gets the script draws all, if and only if no name is too short.
  lemma {:induction false} AnnouncementsRead(pictures: map<seq<byte>, seq<seq<byte>>>, updates: seq<Update>,
    names: seq<seq<byte>>, w: nat, h: nat)
    requires Serves(pictures, names, updates) && w <= INT_MAX && h <= INT_MAX
    requires forall i :: 0 <= i < |updates| ==> OnScreen(updates[i].rc, w, h)
    ensures var seen := AllSeen(pictures, Announcements(updates, names));
      |seen| <= |updates| && Outbound.Subsequence(seen, updates) && (seen == updates <==> LongEnough(names))
    decreases |updates|
  {
    if updates != [] {
      var n := |updates| - 1;
      var init := Announcements(updates[..n], names[..n]);
      AnnouncementsRead(pictures, updates[..n], names[..n], w, h);
      AnnouncementRead(pictures, updates[n], names[n], w, h);
      OneName(names, n);
      OneMessage(pictures, init, Announcement(updates[n].rc, names[n]));
      LastOf(updates, n);
      OneMore(AllSeen(pictures, init), updates[..n], updates[n], |names[n]| >= 48, updates,
        AllSeen(pictures, Announcements(updates, names)));
    }
  }

  lemma OneName(names: seq<seq<byte>>, n: nat)
    requires |names| == n + 1
    ensures LongEnough(names) <==> LongEnough(names[..n]) && |names[n]| >= 48
  {
  }

  lemma OneMessage(pictures: map<seq<byte>, seq<seq<byte>>>, init: seq<Message>, m: Message)
    ensures AllSeen(pictures, init + [m]) == AllSeen(pictures, init) + Seen(pictures, m)
  {
    assert (init + [m])[..|init|] == init;
  }

  lemma LastOf<T>(s: seq<T>, n: nat)
    requires |s| == n + 1
    ensures s == s[..n] + [s[n]]
  {
  }

  lemma OneMore<T>(seen: seq<T>, init: seq<T>, last: T, shown: bool, all: seq<T>, now: seq<T>)
    requires |seen| <= |init| && Outbound.Subsequence(seen, init) && all == init + [last]
    requires now == seen + if shown then [last] else []
    ensures |now| <= |all| && Outbound.Subsequence(now, all) && (now == all <==> shown && seen == init)
  {
    Outbound.SubsequenceSnoc(seen, init, last);
    assert seen + [] == seen;
    if now == all {
      assert seen == now[..|seen|] && init == all[..|init|];
    }
  }

  // Messages that are not binary, such as pongs, make the script draw nothing.
  lemma {:induction false} BinarySeen(pictures: map<seq<byte>, seq<seq<byte>>>, ms: seq<Message>)
    ensures AllSeen(pictures, Binary(ms)) == AllSeen(pictures, ms)
    decreases |ms|
  {
    if ms != [] {
      var init, last := ms[..|ms| - 1], ms[|ms| - 1];
      BinarySeen(pictures, init);
      if last.opcode == OPCODE_BIN {
        assert Binary(ms)[..|Binary(init)|] == Binary(init);
      } else {
        assert Binary(ms) == Binary(init);
      }
    }
  }

  // Losing messages loses drawings, and nothing else.
  lemma {:induction false} FewerSeen(pictures: map<seq<byte>, seq<seq<byte>>>, a: seq<Message>, b: seq<Message>)
    requires Outbound.Subsequence(a, b)
    ensures Outbound.Subsequence(AllSeen(pictures, a), AllSeen(pictures, b))
    decreases |b|
  {
    if b != [] {
      var init, last := b[..|b| - 1], b[|b| - 1];
      var drawn := Seen(pictures, last);
      if Outbound.Subsequence(a, init) {
        FewerSeen(pictures, a, init);
        AppendSeen(AllSeen(pictures, a), AllSeen(pictures, init), drawn);
      } else {
        FewerSeen(pictures, a[..|a| - 1], init);
        AppendSeen(AllSeen(pictures, a[..|a| - 1]), AllSeen(pictures, init), drawn);
      }
    }
  }

  lemma AppendSeen<T>(a: seq<T>, b: seq<T>, drawn: seq<T>)
    requires Outbound.Subsequence(a, b) && |drawn| <= 1
    ensures Outbound.Subsequence(a, b + drawn) && Outbound.Subsequence(a + drawn, b + drawn)
  {
    if drawn == [] {
      assert a + drawn == a && b + drawn == b;
    } else {
      assert drawn == [drawn[0]];
      Outbound.SubsequenceSnoc(a, b, drawn[0]);
    }
  }

  lemma {:induction false} SubsequenceOf<T>(a: seq<T>, b: seq<T>, c: seq<T>)
    requires Outbound.Subsequence(a, b) && Outbound.Subsequence(b, c)
    ensures Outbound.Subsequence(a, c)
    decreases |c|
  {
    if c != [] {
      var init := c[..|c| - 1];
      if Outbound.Subsequence(b, init) {
        SubsequenceOf(a, b, init);
      } else if Outbound.Subsequence(a, b[..|b| - 1]) {
        SubsequenceOf(a, b[..|b| - 1], init);
      } else {
        SubsequenceOf(a[..|a| - 1], b[..|b| - 1], init);
      }
    }
  }

  lemma {:induction false} SomeDrawable(a: seq<Update>, b: seq<Update>)
    requires Outbound.Subsequence(a, b) && AllDrawable(b)
    ensures AllDrawable(a)
    decreases |b|
  {
    if b != [] {
      var init := b[..|b| - 1];
      if Outbound.Subsequence(a, init) {
        SomeDrawable(a, init);
      } else {
        SomeDrawable(a[..|a| - 1], init);
      }
    }
  }

  // Of the announcements among the messages `asked`, those among `got` are drawn.
  lemma SeenOf(pictures: map<seq<byte>, seq<seq<byte>>>, got: seq<Message>, asked: seq<Message>, updates: seq<Update>,
    names: seq<seq<byte>>, w: nat, h: nat)
    requires Serves(pictures, names, updates) && w <= INT_MAX && h <= INT_MAX && AllDrawable(updates)
    requires forall i :: 0 <= i < |updates| ==> OnScreen(updates[i].rc, w, h)
    requires Outbound.Subsequence(got, asked) && Binary(asked) == Announcements(updates, names)
    ensures Outbound.Subsequence(AllSeen(pictures, got), updates) && AllDrawable(AllSeen(pictures, got))
    ensures got == asked ==> (AllSeen(pictures, got) == updates <==> LongEnough(names))
  {
    BinarySeen(pictures, asked);
    AnnouncementsRead(pictures, updates, names, w, h);
    FewerSeen(pictures, got, asked);
    SubsequenceOf(AllSeen(pictures, got), AllSeen(pictures, asked), updates);
    SomeDrawable(AllSeen(pictures, got), updates);
  }

  // ---------------------------------------------------------------- colours

  function ColourIn(u: Update, x: int, y: int): Rgb
    requires Drawable(u) && In(u.rc, x, y)
  {
    RowsPixels(u.png)[y - u.rc.top][x - u.rc.left]
  }

  // The colour the last of the updates over a pixel gives it, or the one it had at first.
  function Colour(first: Rgb, updates: seq<Update>, x: int, y: int): Rgb
    requires AllDrawable(updates)
  {
    if updates == [] then first
    else
      var last := updates[|updates| - 1];
      assert Drawable(last);
      if In(last.rc, x, y) then ColourIn(last, x, y) else Colour(first, updates[..|updates| - 1], x, y)
  }

  lemma {:induction false} ShownColour(canvas: seq<Rgb>, w: nat, h: nat, updates: seq<Update>, x: nat, y: nat)
    requires IsImage(canvas, w, h) && AllDrawable(updates) && x < w && y < h
    ensures At(w, x, y) < w * h
    ensures Shown(canvas, w, h, updates)[At(w, x, y)] == Colour(canvas[At(w, x, y)], updates, x, y)
    decreases |updates|
  {
    AtInside(w, h, x, y);
    if updates != [] {
      var init, last := updates[..|updates| - 1], updates[|updates| - 1];
      assert Drawable(last);
      ShownColour(canvas, w, h, init, x, y);
      DrawAt(Shown(canvas, w, h, init), w, h, last.rc, RowsPixels(last.png), x, y);
    }
  }

  predicate Covered(updates: seq<Update>, x: int, y: int)
  {
    exists i :: 0 <= i < |updates| && In(updates[i].rc, x, y)
  }

  // Later updates hide the earlier ones where they reach.
  lemma {:induction false} DrawnOver(first: Rgb, a: seq<Update>, b: seq<Update>, x: int, y: int)
    requires AllDrawable(a) && AllDrawable(b)
    ensures AllDrawable(a + b)
    ensures Colour(first, a + b, x, y) == Colour(Colour(first, a, x, y), b, x, y)
    ensures !Covered(b, x, y) ==> Colour(first, b, x, y) == first
    ensures Covered(b, x, y) ==> forall other :: Colour(other, b, x, y) == Colour(first, b, x, y)
    decreases |b|
  {
    if b == [] {
      assert a + b == a;
    } else {
      var init, last := b[..|b| - 1], b[|b| - 1];
      DrawnOver(first, a, init, x, y);
      assert a + b == (a + init) + [last];
      CoveredSnoc(init, last, b, x, y);
    }
  }

  lemma CoveredSnoc(init: seq<Update>, last: Update, b: seq<Update>, x: int, y: int)
    requires b == init + [last]
    ensures Covered(b, x, y) <==> Covered(init, x, y) || In(last.rc, x, y)
  {
    if In(last.rc, x, y) {
      assert In(b[|init|].rc, x, y);
    }
    if Covered(init, x, y) {
      var i :| 0 <= i < |init| && In(init[i].rc, x, y);
      assert In(b[i].rc, x, y);
    }
  }

  // One lost update: a pixel is right all the same if and only if the update is not over it, or
  // a later one is, or it had the colour already.
  lemma OneLost(first: Rgb, a: seq<Update>, u: Update, b: seq<Update>, x: int, y: int)
    requires AllDrawable(a) && Drawable(u) && AllDrawable(b)
    ensures AllDrawable(a + b) && AllDrawable(a + [u] + b)
    ensures Colour(first, a + b, x, y) == Colour(first, a + [u] + b, x, y) <==>
      !In(u.rc, x, y) || Covered(b, x, y) || ColourIn(u, x, y) == Colour(first, a, x, y)
  {
    DrawnOver(first, a, b, x, y);
    DrawnOver(first, a, [u], x, y);
    DrawnOver(first, a + [u], b, x, y);
    DrawnOver(Colour(first, a, x, y), [], b, x, y);
    DrawnOver(Colour(first, a + [u], x, y), [], b, x, y);
    assert (a + [u])[..|a|] == a;
  }

  // A white pixel announced to a throttled client: the viewer's stays black.
  lemma LostPixel()
    ensures var u := Update(Rect(0, 0, 1, 1), [[255, 255, 255]]);
      Drawable(u) && Colour(Rgb(0, 0, 0), [], 0, 0) != Colour(Rgb(0, 0, 0), [u], 0, 0)
  {
    var u := Update(Rect(0, 0, 1, 1), [[255, 255, 255]]);
    assert RowsPixels(u.png)[0] == RowPixels(u.png[0]) && RowPixels(u.png[0])[0] == Rgb(255, 255, 255);
  }

  // ---------------------------------------------------------------- from the buffer to the viewer

  // Where pixels have come in, the drawings `seen` leave the colours that all updates would.
  ghost predicate SameColours(blank: seq<Rgb>, w: nat, h: nat, seen: seq<Update>, updates: seq<Update>,
    received: set<(int, int)>)
    requires IsImage(blank, w, h) && AllDrawable(seen) && AllDrawable(updates)
  {
    forall x: nat, y: nat :: (x, y) in received && x < w && y < h ==>
      At(w, x, y) < |blank| && SameColour(blank[At(w, x, y)], seen, updates, x, y)
  }

  predicate SameColour(first: Rgb, seen: seq<Update>, updates: seq<Update>, x: nat, y: nat)
    requires AllDrawable(seen) && AllDrawable(updates)
  {
    Colour(first, seen, x, y) == Colour(first, updates, x, y)
  }

  // The viewer who has drawn `seen` shows every pixel that has come in as the shadow buffer has it.
  ghost predicate AllAgree(b: Buddies, seen: seq<Update>, received: set<(int, int)>)
    reads b, b.us, b.us.shadowFb
    requires b.Valid(received) && AllDrawable(seen)
  {
    var w, h := b.us.width, b.us.height;
    forall x, y :: (x, y) in received ==>
      0 <= x < w && 0 <= y < h && At(w, x, y) < w * h &&
      Shown(b.blank, w, h, seen)[At(w, x, y)] == b.us.Image()[At(w, x, y)]
  }

  // With nothing dirty, a viewer who has drawn some of the updates sees every pixel right if and
  // only if those give each pixel the colour that all would.
  lemma AgreeIff(b: Buddies, seen: seq<Update>, received: set<(int, int)>)
    requires b.Valid(received) && AllDrawable(seen) && b.us.rcDirty == EMPTY
    ensures AllDrawable(b.updates)
    ensures AllAgree(b, seen, received) <==>
      SameColours(b.blank, b.us.width, b.us.height, seen, b.updates, received)
  {
    var w, h := b.us.width, b.us.height;
    forall x, y | (x, y) in received
      ensures 0 <= x < w && 0 <= y < h && At(w, x, y) < w * h
      ensures Shown(b.blank, w, h, seen)[At(w, x, y)] == b.us.Image()[At(w, x, y)] <==>
        SameColour(b.blank[At(w, x, y)], seen, b.updates, x, y)
    {
      b.FlushedAgree(received, x, y);
      ShownColour(b.blank, w, h, seen, x, y);
      ShownColour(b.blank, w, h, b.updates, x, y);
    }
  }

  // The announcements, among whatever else is sent, go to the viewer over any run of sends,
  // sockets found writable and reads. The script draws some of the updates, in order, and with
  // nothing dirty the pixels are right exactly if those give the colours that all would. If the
  // viewer stays, less than the throttle threshold is asked for and nothing is waiting, the
  // script draws them all exactly if no name is too short: every pixel that has come in is right.
  method Show(b: Buddies, names: seq<seq<byte>>, pictures: map<seq<byte>, seq<seq<byte>>>,
    steps: seq<Outbound.Step>, answers: seq<Outbound.Answer>, ghost received: set<(int, int)>)
    returns (wire: seq<byte>, waiting: nat)
    requires b.Valid(received) && b.us.width <= INT_MAX && b.us.height <= INT_MAX
    requires Serves(pictures, names, b.updates)
    requires Binary(Outbound.Requested(steps)) == Announcements(b.updates, names)
    requires forall k :: 0 <= k < |steps| && steps[k].Frame? ==> Sendable(steps[k].m)
    ensures var seen := AllSeen(pictures, PeerParse(wire));
      && Outbound.Subsequence(seen, b.updates) && AllDrawable(seen) && AllDrawable(b.updates)
      && (b.us.rcDirty == EMPTY ==>
           (AllAgree(b, seen, received) <==>
             SameColours(b.blank, b.us.width, b.us.height, seen, b.updates, received)))
      && (Outbound.Gentle(steps) && Stays(answers) && waiting == 0 ==>
           (seen == b.updates <==> LongEnough(names)))
      && (seen == b.updates && b.us.rcDirty == EMPTY ==> AllAgree(b, seen, received))
  {
    wire, waiting := Server.SendAll(steps, answers);
    ghost var seen := AllSeen(pictures, PeerParse(wire));
    SeenOf(pictures, PeerParse(wire), Outbound.Requested(steps), b.updates, names, b.us.width, b.us.height);
    if b.us.rcDirty == EMPTY {
      AgreeIff(b, seen, received);
      if seen == b.updates {
        AllRight(b, received);
      }
    }
  }

  lemma AllRight(b: Buddies, received: set<(int, int)>)
    requires b.Valid(received) && b.us.rcDirty == EMPTY
    ensures AllDrawable(b.updates) && AllAgree(b, b.updates, received)
  {
    forall x, y | (x, y) in received
      ensures 0 <= x < b.us.width && 0 <= y < b.us.height && At(b.us.width, x, y) < b.us.width * b.us.height
      ensures Shown(b.blank, b.us.width, b.us.height, b.updates)[At(b.us.width, x, y)] ==
        b.us.Image()[At(b.us.width, x, y)]
    {
      b.FlushedAgree(received, x, y);
      AtInside(b.us.width, b.us.height, x, y);
    }
  }

  // No send finds the viewer gone.
  predicate Stays(answers: seq<Outbound.Answer>)
  {
    forall k :: 0 <= k < |answers| ==> !answers[k].BrokenPipe?
  }
}
