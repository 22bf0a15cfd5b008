// One viewer and the local client it shows: src/unixsocket.c feeds the shadow buffer,
// check_dirty_pixels of src/websocket.c sends pictures of it, and the viewer draws them.
module Display {
  import opened Bytes
  import opened Pixels
  import opened ShadowBuffer

  // What ws_send_dirty_info announces: a rectangle and where the picture of it is.
  datatype Update = Update(rc: Rect, png: seq<seq<byte>>)

  // The local client has something to say, or the server looks after dirty pixels.
  datatype Event = Data(input: Input) | Tick(turns: seq<Turn>)

  // One turn of the loop of check_dirty_pixels: the two readings of the clock, and what goes
  // wrong with the picture.
  datatype Turn = Turn(now: TimeVal, later: TimeVal, fault: Fault)

  // The loop stays with the viewer.
  predicate Spins(rc: Rect, last: TimeVal, turn: Turn)
  {
    HasPixels(rc) && Due(last, turn.now) && turn.fault != NoFault
  }

  predicate NotAfter(a: TimeVal, b: TimeVal)
  {
    a.sec < b.sec || (a.sec == b.sec && a.usec <= b.usec)
  }

  // With a clock that is not put back, a flush that is due goes on being due: the loop leaves
  // the viewer exactly at the first turn in which the picture is saved.
  lemma LeavesWhenSaved(rc: Rect, last: TimeVal, turns: seq<Turn>)
    requires HasPixels(rc) && turns != [] && Due(last, turns[0].now) && NotAfter(last, turns[0].now)
    requires forall j, k :: 0 <= j <= k < |turns| ==> NotAfter(turns[j].now, turns[k].now)
    ensures forall k :: 0 <= k < |turns| ==> (Spins(rc, last, turns[k]) <==> turns[k].fault != NoFault)
  {
    forall k | 0 <= k < |turns|
      ensures Due(last, turns[k].now)
    {
      assert NotAfter(turns[0].now, turns[k].now);
    }
  }

  // Flushes are paced: within one second of the clock there are at most twenty.
  lemma {:induction false} FlushRate(flushes: seq<TimeVal>)
    requires forall k :: 0 <= k < |flushes| ==> 0 <= flushes[k].usec < 1000000 && flushes[k].sec == flushes[0].sec
    requires forall k :: 0 < k < |flushes| ==> Due(flushes[k - 1], flushes[k])
    ensures |flushes| <= 20
    ensures flushes != [] ==> flushes[|flushes| - 1].usec >= 50000 * (|flushes| - 1)
    decreases |flushes|
  {
    if |flushes| > 1 {
      var init := flushes[..|flushes| - 1];
      FlushRate(init);
      assert Due(init[|init| - 1], flushes[|flushes| - 1]);
    }
  }

  predicate Drawable(u: Update)
  {
    PictureOf(RowsPixels(u.png), u.rc)
  }

  predicate AllDrawable(updates: seq<Update>)
  {
    forall i :: 0 <= i < |updates| ==> Drawable(updates[i])
  }

  // Pixels of the buffer, and at least one.
  predicate OnScreen(rc: Rect, w: nat, h: nat)
  {
    InBounds(rc, w, h) && HasPixels(rc)
  }

  // The viewer's canvas after drawing the updates in order.
  function Shown(canvas: seq<Rgb>, w: nat, h: nat, updates: seq<Update>): (out: seq<Rgb>)
    requires IsImage(canvas, w, h) && AllDrawable(updates)
    ensures IsImage(out, w, h)
  {
    if updates == [] then canvas
    else
      var last := updates[|updates| - 1];
      assert Drawable(last);
      Draw(Shown(canvas, w, h, updates[..|updates| - 1]), w, h, last.rc, RowsPixels(last.png))
  }

  function PixelsOf(rc: Rect): set<(int, int)>
  {
    set x, y | rc.left <= x < rc.right && rc.top <= y < rc.bottom :: (x, y)
  }

  // The places of the pixels that came in the given events.
  function Received(events: seq<Event>): set<(int, int)>
  {
    if events == [] then {}
    else
      var last := events[|events| - 1];
      Received(events[..|events| - 1]) +
      (if last.Data? && last.input.DirtyPixels? then PixelsOf(last.input.rc) else {})
  }

  class Buddies {
    const us: USClient
    // What has been announced to the viewer.
    var updates: seq<Update>
    ghost const blank: seq<Rgb>

    // The canvas of the viewer, whatever it showed at first.
    ghost function Canvas(): (out: seq<Rgb>)
      reads this
      requires us.Shape() && IsImage(blank, us.width, us.height)
      requires AllDrawable(updates)
      ensures IsImage(out, us.width, us.height)
    {
      Shown(blank, us.width, us.height, updates)
    }

    // Coherence: a pixel that has been received is waiting in the dirty rectangle, or the
    // viewer sees what the shadow buffer holds.
    ghost predicate Coherent(received: set<(int, int)>)
      reads this, us, us.shadowFb
      requires us.Shape() && IsImage(blank, us.width, us.height)
      requires AllDrawable(updates)
    {
      forall x, y :: (x, y) in received ==>
        0 <= x < us.width && 0 <= y < us.height && (In(us.rcDirty, x, y) || Agree(x, y))
    }

    ghost predicate Agree(x: nat, y: nat)
      reads this, us, us.shadowFb
      requires us.Shape() && IsImage(blank, us.width, us.height)
      requires AllDrawable(updates)
      requires x < us.width && y < us.height
    {
      AtInside(us.width, us.height, x, y);
      Canvas()[At(us.width, x, y)] == us.Image()[At(us.width, x, y)]
    }

    ghost predicate Valid(received: set<(int, int)>)
      reads this, us, us.shadowFb
    {
      && us.Valid() && IsImage(blank, us.width, us.height)
      && AllDrawable(updates)
      && (forall i :: 0 <= i < |updates| ==> OnScreen(updates[i].rc, us.width, us.height))
      && Coherent(received)
    }

    constructor (us: USClient, ghost blank: seq<Rgb>)
      requires us.Valid() && IsImage(blank, us.width, us.height)
      ensures Valid({}) && this.us == us && updates == [] && this.blank == blank
    {
      this.us, updates, this.blank := us, [], blank;
    }

    // The local client has sent something.
    method OnData(input: Input, ghost received: set<(int, int)>) returns (r: int)
      requires Valid(received) && Complete(input, us.width, us.height, us.vfbType)
      modifies us, us.shadowFb
      ensures Valid(received + if input.DirtyPixels? then PixelsOf(input.rc) else {})
      ensures updates == old(updates)
    {
      ghost var img, rc := us.Image(), us.rcDirty;
      r := us.OnClientData(input);
      if input.DirtyPixels? {
        MergeSound(rc, input.rc, us.width, us.height);
        forall x, y | (x, y) in received + PixelsOf(input.rc)
          ensures 0 <= x < us.width && 0 <= y < us.height && (In(us.rcDirty, x, y) || Agree(x, y))
        {
          if !In(us.rcDirty, x, y) {
            assert !In(input.rc, x, y) && !In(rc, x, y);
            DrawAt(img, us.width, us.height, input.rc, us.Picture(input.rows, input.rc.right - input.rc.left), x, y);
          }
        }
      }
    }

    // check_dirty_pixels, one turn of its loop. A picture that could not be saved changes
    // nothing; otherwise the viewer has every pixel received so far.
    method CheckOnce(now: TimeVal, later: TimeVal, fault: Fault, ghost received: set<(int, int)>)
      returns (retval: int)
      requires Valid(received)
      modifies this, us
      ensures Valid(received)
      ensures retval == if old(HasPixels(us.rcDirty) && Due(us.lastFlushTime, now)) then Code(fault) else 0
      ensures retval != -1 && retval != -2
      ensures old(updates) <= updates
      ensures if old(HasPixels(us.rcDirty) && Due(us.lastFlushTime, now)) && retval == 0
        then |updates| == |old(updates)| + 1 && us.rcDirty == EMPTY && us.lastFlushTime == later
        else updates == old(updates) && us.rcDirty == old(us.rcDirty) && us.lastFlushTime == old(us.lastFlushTime)
    {
      var check := us.CheckDirtyPixels(now);
      if check == 0 {
        return 0;
      }
      var png;
      retval, png := us.SaveDirtyPixelsToPng(fault);
      if retval != 0 {
        return;
      }
      ghost var canvas, rc, w, h := Canvas(), us.rcDirty, us.width, us.height;
      ghost var img := us.Image();
      var update := Update(us.rcDirty, png);
      updates := updates + [update];
      us.ResetDirtyPixels(later);
      assert updates[..|updates| - 1] == old(updates);
      forall x, y | (x, y) in received
        ensures 0 <= x < w && 0 <= y < h && Agree(x, y)
      {
        CutOutDrawn(canvas, img, w, h, rc, RowsPixels(png), x, y);
      }
    }

    // check_dirty_pixels for one viewer. A picture that could not be saved is tried again at
    // once: the loop leaves the viewer, after n turns, exactly at the first turn that does not
    // spin, and until then nothing is sent and the rectangle stays as it is.
    method CheckDirtyPixels(turns: seq<Turn>, ghost received: set<(int, int)>) returns (n: nat, left: bool)
      requires Valid(received)
      modifies this, us
      ensures Valid(received) && n <= |turns|
      ensures if left then n > 0 && !Spins(old(us.rcDirty), old(us.lastFlushTime), turns[n - 1]) else n == |turns|
      ensures forall k :: 0 <= k < (if left then n - 1 else n) ==>
        Spins(old(us.rcDirty), old(us.lastFlushTime), turns[k])
      ensures if left && old(HasPixels(us.rcDirty)) && Due(old(us.lastFlushTime), turns[n - 1].now)
        then |updates| == |old(updates)| + 1 && us.rcDirty == EMPTY && us.lastFlushTime == turns[n - 1].later
        else updates == old(updates) && us.rcDirty == old(us.rcDirty) && us.lastFlushTime == old(us.lastFlushTime)
      ensures old(updates) <= updates
    {
      n := 0;
      while n < |turns|
        invariant n <= |turns| && Valid(received)
        invariant updates == old(updates)
        invariant us.rcDirty == old(us.rcDirty) && us.lastFlushTime == old(us.lastFlushTime)
        invariant forall k :: 0 <= k < n ==> Spins(old(us.rcDirty), old(us.lastFlushTime), turns[k])
      {
        var turn := turns[n];
        n := n + 1;
        var retval := CheckOnce(turn.now, turn.later, turn.fault, received);
        if retval == 0 {
          return n, true;
        }
      }
      left := false;
    }

    // With nothing waiting, every pixel received so far is on the canvas as it is in the
    // shadow buffer.
    lemma FlushedAgree(received: set<(int, int)>, x: nat, y: nat)
      requires Valid(received) && us.rcDirty == EMPTY && (x, y) in received
      ensures x < us.width && y < us.height && Agree(x, y)
    {
      assert !In(us.rcDirty, x, y);
    }

    // Canvas coherence over every run, from a client that has sent nothing yet. The run stops
    // short of an event only where check_dirty_pixels does not leave the viewer.
    method Run(events: seq<Event>) returns (n: nat)
      requires Valid({})
      requires forall k :: 0 <= k < |events| && events[k].Data? ==>
        Complete(events[k].input, us.width, us.height, us.vfbType)
      modifies this, us, us.shadowFb
      ensures n <= |events| && Valid(Received(events[..n]))
      ensures n < |events| ==> events[n].Tick?
      ensures n < |events| ==>
        forall k :: 0 <= k < |events[n].turns| ==> Spins(us.rcDirty, us.lastFlushTime, events[n].turns[k])
      ensures old(updates) <= updates
    {
      assert events[..0] == [];
      n := 0;
      while n < |events|
        invariant n <= |events| && Valid(Received(events[..n]))
        invariant old(updates) <= updates
        decreases |events| - n
      {
        assert events[..n + 1][..n] == events[..n];
        match events[n] {
          case Data(input) =>
            var r := OnData(input, Received(events[..n]));
          case Tick(turns) =>
            var k, left := CheckDirtyPixels(turns, Received(events[..n]));
            if !left {
              return;
            }
        }
        n := n + 1;
      }
    }
  }
}
