// The shadow frame buffer of src/unixsocket.c and src/pixelencoder.c: pixels copied in row by
// row, the dirty rectangle, and the picture cut out of it.
module ShadowBuffer {
  import opened Bytes
  import opened Pixels

  const MAX_FLUSH_PIXELS_TIME: int := 50000

  datatype TimeVal = TimeVal(sec: int, usec: int)

  predicate Due(last: TimeVal, now: TimeVal)
  {
    now.sec != last.sec || now.usec - last.usec >= MAX_FLUSH_PIXELS_TIME
  }

  // The pixel whose three bytes start at 3 * k.
  function PixelOf(fb: array<byte>, k: nat): Rgb
    reads fb
    requires 3 * k + 2 < fb.Length
  {
    Rgb(fb[3 * k], fb[3 * k + 1], fb[3 * k + 2])
  }

  class USClient {
    const vfbType: nat
    const width: nat
    const height: nat
    const rowPitch: nat
    const bytesPerPixel: nat
    const shadowFb: array<byte>
    var rcDirty: Rect
    var lastFlushTime: TimeVal

    // The geometry, without the dirty rectangle.
    ghost predicate Shape()
    {
      && (vfbType == USVFB_TRUE_RGB565 || vfbType == USVFB_TRUE_RGB0888)
      && bytesPerPixel == 3 && rowPitch == 3 * width && shadowFb.Length == 3 * (width * height)
    }

    // The dirty rectangle never leaves the buffer.
    ghost predicate Valid()
      reads this
    {
      Shape() && InBounds(rcDirty, width, height)
    }

    // us_on_connected, for the two pixel types it accepts.
    constructor (vfbType: nat, width: nat, height: nat, now: TimeVal)
      requires vfbType == USVFB_TRUE_RGB565 || vfbType == USVFB_TRUE_RGB0888
      ensures Valid() && fresh(shadowFb) && rcDirty == EMPTY && lastFlushTime == now
      ensures this.vfbType == vfbType && this.width == width && this.height == height
    {
      this.vfbType, this.width, this.height := vfbType, width, height;
      bytesPerPixel, rowPitch := 3, width * 3;
      PitchTimes(width, height);
      shadowFb := new byte[width * 3 * height];
      rcDirty, lastFlushTime := EMPTY, now;
    }

    // The shadow buffer as an image.
    ghost function Image(): (img: seq<Rgb>)
      reads shadowFb
      requires Shape()
      ensures IsImage(img, width, height)
    {
      seq(width * height, k requires 0 <= k < width * height reads shadowFb => PixelOf(shadowFb, k))
    }

    // Each pixel of the image is three bytes of the buffer: red, green, blue.
    lemma ImageBytes(k: nat)
      requires Shape() && k < width * height
      ensures shadowFb[3 * k..3 * k + 3] == [Image()[k].r, Image()[k].g, Image()[k].b]
    {
    }

    // The pixel at `src` in a row of the client's pixels.
    method ReadPixel(buff: seq<byte>, src: nat, ghost x: nat) returns (c: Rgb)
      requires src == x * BytesOf(vfbType) && src + BytesOf(vfbType) <= |buff|
      ensures (x + 1) * BytesOf(vfbType) <= |buff| && c == Expand(vfbType, buff, x)
    {
      if BytesOf(vfbType) == 4 {
        c := Expand888(Pixel32(buff[src], buff[src + 1], buff[src + 2], buff[src + 3]));
      } else {
        c := Expand565(Pixel16(buff[src], buff[src + 1]));
      }
    }

    method WritePixel(dst: nat, c: Rgb, ghost k: nat)
      requires dst == 3 * k && dst + 2 < shadowFb.Length
      modifies shadowFb
      ensures PixelOf(shadowFb, k) == c
      ensures forall i :: 0 <= i < shadowFb.Length && !(dst <= i < dst + 3) ==> shadowFb[i] == old(shadowFb[i])
    {
      shadowFb[dst + 0] := c.r;
      shadowFb[dst + 1] := c.g;
      shadowFb[dst + 2] := c.b;
    }

    // One row of pixels: n of them, from byte `dst` of the buffer on.
    method BlitRow(dst: nat, n: nat, buff: seq<byte>, ghost k0: nat)
      requires Shape() && dst == 3 * k0 && k0 + n <= width * height
      requires |buff| == n * BytesOf(vfbType)
      modifies shadowFb
      ensures forall x :: 0 <= x < n ==> PixelOf(shadowFb, k0 + x) == Expand(vfbType, buff, x)
      ensures forall i :: 0 <= i < shadowFb.Length && !(dst <= i < dst + 3 * n) ==> shadowFb[i] == old(shadowFb[i])
    {
      var x, src := 0, 0;
      while x < n
        invariant 0 <= x <= n && src == x * BytesOf(vfbType)
        invariant forall j :: 0 <= j < x ==> PixelOf(shadowFb, k0 + j) == Expand(vfbType, buff, j)
        invariant forall i :: 0 <= i < shadowFb.Length && !(dst <= i < dst + 3 * x) ==> shadowFb[i] == old(shadowFb[i])
      {
        var c := ReadPixel(buff, src, x);
        WritePixel(dst + x * 3, c, k0 + x);
        src := src + BytesOf(vfbType);
        x := x + 1;
      }
    }

    // The pixels of rows in the client's format.
    ghost function Picture(rows: seq<seq<byte>>, n: nat): (pic: seq<seq<Rgb>>)
      requires forall i :: 0 <= i < |rows| ==> |rows[i]| == n * BytesOf(vfbType)
      ensures |pic| == |rows| && forall i :: 0 <= i < |pic| ==> |pic[i]| == n
    {
      seq(|rows|, i requires 0 <= i < |rows| => RowOf(rows[i], n))
    }

    ghost function RowOf(row: seq<byte>, n: nat): (px: seq<Rgb>)
      requires |row| == n * BytesOf(vfbType)
      ensures |px| == n
    {
      seq(n, x requires 0 <= x < n => Expand(vfbType, row, x))
    }

    // One turn of the copying loop: row y of the rectangle.
    method BlitLine(rc: Rect, buff: seq<byte>, y: nat, dst: nat, ghost img: seq<Rgb>, ghost pic: seq<seq<Rgb>>)
      requires Shape() && InBounds(rc, width, height) && rc.left <= rc.right && rc.top <= y < rc.bottom
      requires |buff| == (rc.right - rc.left) * BytesOf(vfbType) && dst == 3 * At(width, rc.left, y)
      requires IsImage(img, width, height) && PictureOf(pic, rc)
      requires pic[y - rc.top] == RowOf(buff, rc.right - rc.left)
      requires Image() == Draw(img, width, height, Rect(rc.left, rc.top, rc.right, y), pic)
      modifies shadowFb
      ensures Image() == Draw(img, width, height, Rect(rc.left, rc.top, rc.right, y + 1), pic)
    {
      RowFits(width, height, rc.right, y);
      ghost var before, a, n := Image(), At(width, rc.left, y), rc.right - rc.left;
      BlitRow(dst, rc.right - rc.left, buff, a);
      forall k | 0 <= k < |img|
        ensures Image()[k] == if a <= k < a + n then pic[y - rc.top][k - a] else before[k]
      {
        assert Image()[k] == PixelOf(shadowFb, k);
        if a <= k < a + n {
          assert PixelOf(shadowFb, a + (k - a)) == Expand(vfbType, buff, k - a);
        }
      }
      DrawRow(img, width, height, Rect(rc.left, rc.top, rc.right, y), pic, y, Rect(rc.left, rc.top, rc.right, y + 1),
        Image());
    }

    // The copying part of us_on_client_data.
    method Blit(rc: Rect, rows: seq<seq<byte>>)
      requires Shape() && InBounds(rc, width, height) && rc.left <= rc.right
      requires |rows| == if rc.top < rc.bottom then rc.bottom - rc.top else 0
      requires forall i :: 0 <= i < |rows| ==> |rows[i]| == (rc.right - rc.left) * BytesOf(vfbType)
      modifies shadowFb
      ensures Image() == Draw(old(Image()), width, height, rc, Picture(rows, rc.right - rc.left))
    {
      ghost var img, pic := Image(), Picture(rows, rc.right - rc.left);
      var dst := rowPitch * rc.top + rc.left * bytesPerPixel;
      var dirtyPixels := rc.right - rc.left;
      PitchTimes(width, rc.top);
      DrawNothing(img, width, height, Rect(rc.left, rc.top, rc.right, rc.top), pic);
      var y := rc.top;
      while y < rc.bottom
        invariant if rc.top < rc.bottom then rc.top <= y <= rc.bottom else y == rc.top
        invariant dst == 3 * At(width, rc.left, y)
        invariant Image() == Draw(img, width, height, Rect(rc.left, rc.top, rc.right, y), pic)
      {
        BlitLine(rc, rows[y - rc.top], y, dst, img, pic);
        NextRow(width, y);
        dst := dst + rowPitch;
        y := y + 1;
      }
      if rc.bottom <= rc.top {
        DrawNothing(img, width, height, rc, pic);
      }
    }

    // us_on_client_data. A complete update is copied, and the dirty rectangle grows by it.
    method OnClientData(input: Input) returns (r: int)
      requires Valid() && Complete(input, width, height, vfbType)
      modifies this`rcDirty, shadowFb
      ensures Valid() && r == ResultOf(input)
      ensures (r < 0 <==> input.Hangup?) && (r == 0 <==> input.Pong? || input.DirtyPixels?)
      ensures Image() == Painted(old(Image()), input)
      ensures rcDirty == if input.DirtyPixels? then Merge(old(rcDirty), input.rc) else old(rcDirty)
    {
      match input
      case Hangup => return -1;
      case ShortHeader => return 1;
      case ShortRect => return 2;
      case Pong => return 0;
      case Unknown => return 3;
      case DirtyPixels(rc, rows) =>
        Blit(rc, rows);
        MergeSound(rcDirty, rc, width, height);
        if rcDirty.right - rcDirty.left <= 0 && rcDirty.bottom - rcDirty.top <= 0 {
          rcDirty := rc;
        } else {
          var left := if rcDirty.left < rc.left then rcDirty.left else rc.left;
          var top := if rcDirty.top < rc.top then rcDirty.top else rc.top;
          var right := if rcDirty.right > rc.right then rcDirty.right else rc.right;
          var bottom := if rcDirty.bottom > rc.bottom then rcDirty.bottom else rc.bottom;
          rcDirty := Rect(left, top, right, bottom);
        }
        return 0;
    }

    // The image after an input.
    ghost function Painted(img: seq<Rgb>, input: Input): (out: seq<Rgb>)
      requires IsImage(img, width, height) && Complete(input, width, height, vfbType)
      ensures IsImage(out, width, height)
    {
      if input.DirtyPixels? then
        Draw(img, width, height, input.rc, Picture(input.rows, input.rc.right - input.rc.left))
      else img
    }

    // us_check_dirty_pixels
    method CheckDirtyPixels(now: TimeVal) returns (r: int)
      ensures r == 0 || r == 1
      ensures r == 1 <==> HasPixels(rcDirty) && Due(lastFlushTime, now)
      ensures Due(lastFlushTime, now) <==>
        now.sec != lastFlushTime.sec || now.usec - lastFlushTime.usec >= 50000
    {
      if rcDirty.right - rcDirty.left <= 0 || rcDirty.bottom - rcDirty.top <= 0 {
        return 0;
      }
      if lastFlushTime.sec != now.sec {
        return 1;
      }
      if now.usec - lastFlushTime.usec >= MAX_FLUSH_PIXELS_TIME {
        return 1;
      }
      return 0;
    }

    // us_reset_dirty_pixels
    method ResetDirtyPixels(now: TimeVal)
      requires Shape()
      modifies this`rcDirty, this`lastFlushTime
      ensures Valid() && rcDirty == EMPTY && lastFlushTime == now
    {
      rcDirty := Rect(0, 0, 0, 0);
      lastFlushTime := now;
    }

    // The bytes of row `top + i` of the dirty rectangle, as the picture file gets them.
    method RowSlice(top: nat, i: nat, w: nat) returns (row: seq<byte>)
      requires Valid() && HasPixels(rcDirty) && top == rcDirty.top && w == rcDirty.right - rcDirty.left
      requires top + i < rcDirty.bottom
      ensures RowShows(row, Image(), width, height, rcDirty, top + i)
    {
      var y := top + i;
      PitchTimes(width, y);
      RowFits(width, height, rcDirty.right, y);
      var at := rowPitch * y + rcDirty.left * 3;
      row := shadowFb[at..at + 3 * w];
      forall x | rcDirty.left <= x < rcDirty.right
        ensures RowPixels(row)[x - rcDirty.left] == Image()[At(width, x, y)]
      {
        assert Image()[At(width, x, y)] == PixelOf(shadowFb, At(width, x, y));
      }
    }

    // save_dirty_pixels_to_png. `fault` is what goes wrong with files and libpng.
    method SaveDirtyPixelsToPng(fault: Fault) returns (retval: int, png: seq<seq<byte>>)
      requires Shape()
      ensures retval == -1 <==> !InBounds(rcDirty, width, height)
      ensures retval == -2 <==> InBounds(rcDirty, width, height) && !HasPixels(rcDirty)
      ensures InBounds(rcDirty, width, height) && HasPixels(rcDirty) ==> retval == Code(fault)
      ensures retval == 0 ==>
        InBounds(rcDirty, width, height) && CutOut(RowsPixels(png), Image(), width, height, rcDirty)
    {
      png := [];
      if rcDirty.left < 0 || rcDirty.top < 0 || rcDirty.right > width || rcDirty.bottom > height {
        return -1, [];
      }
      var w := rcDirty.right - rcDirty.left;
      var h := rcDirty.bottom - rcDirty.top;
      if w <= 0 || h <= 0 {
        return -2, [];
      }
      if fault != NoFault {
        return Code(fault), [];
      }
      for i := 0 to h
        invariant |png| == i
        invariant forall j :: 0 <= j < i ==> RowShows(png[j], Image(), width, height, rcDirty, rcDirty.top + j)
      {
        var row := RowSlice(rcDirty.top, i, w);
        png := png + [row];
      }
      RowsCutOut(png, Image(), width, height, rcDirty);
      return 0, png;
    }
  }

  // What can go wrong outside the server while a picture is saved.
  datatype Fault = NoFault | NoFile | NoMemory | NoWriteStruct | NoInfoStruct | LibpngError

  function Code(fault: Fault): int
  {
    match fault
    case NoFault => 0
    case NoFile => -3
    case NoMemory => 1
    case NoWriteStruct => 2
    case NoInfoStruct => 3
    case LibpngError => 4
  }

  // What the local client sends.
  datatype Input = Hangup | ShortHeader | ShortRect | Pong | Unknown | DirtyPixels(rc: Rect, rows: seq<seq<byte>>)

  function ResultOf(input: Input): int
  {
    match input
    case Hangup => -1
    case ShortHeader => 1
    case ShortRect => 2
    case Unknown => 3
    case _ => 0
  }

  // An update with an in-bounds rectangle and complete rows.
  predicate Complete(input: Input, w: nat, h: nat, vfbType: nat)
  {
    input.DirtyPixels? ==>
      && InBounds(input.rc, w, h) && input.rc.left <= input.rc.right
      && |input.rows| == (if input.rc.top < input.rc.bottom then input.rc.bottom - input.rc.top else 0)
      && forall i :: 0 <= i < |input.rows| ==>
           |input.rows[i]| == (input.rc.right - input.rc.left) * BytesOf(vfbType)
  }

  // The row of bytes shows row y of the image, from the left to the right edge of the rectangle.
  ghost predicate RowShows(row: seq<byte>, img: seq<Rgb>, w: nat, h: nat, rc: Rect, y: int)
  {
    && IsImage(img, w, h) && InBounds(rc, w, h) && HasPixels(rc) && rc.top <= y < rc.bottom
    && |row| == 3 * (rc.right - rc.left) && At(w, rc.right, y) <= w * h
    && forall x :: rc.left <= x < rc.right ==> RowPixels(row)[x - rc.left] == img[At(w, x, y)]
  }

  lemma RowsCutOut(png: seq<seq<byte>>, img: seq<Rgb>, w: nat, h: nat, rc: Rect)
    requires IsImage(img, w, h) && InBounds(rc, w, h) && HasPixels(rc) && |png| == rc.bottom - rc.top
    requires forall j :: 0 <= j < |png| ==> RowShows(png[j], img, w, h, rc, rc.top + j)
    ensures CutOut(RowsPixels(png), img, w, h, rc)
  {
    forall x, y | In(rc, x, y)
      ensures ShownAt(RowsPixels(png), img, w, h, rc, x, y)
    {
      assert RowShows(png[y - rc.top], img, w, h, rc, y);
    }
  }

  lemma RowFits(w: nat, h: nat, right: nat, y: nat)
    requires right <= w && y < h
    ensures At(w, right, y) <= w * h
  {
    RowBelow(w, y, h);
  }

  lemma PitchTimes(w: nat, h: nat)
    ensures w * 3 * h == 3 * (w * h) && 3 * w * h == 3 * (w * h)
  {
  }
}
