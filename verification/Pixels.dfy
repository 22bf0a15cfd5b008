// Pixels, rectangles and images: what the shadow frame buffer of src/unixsocket.c is made of.
module Pixels {
  import opened Bytes

  datatype Rgb = Rgb(r: byte, g: byte, b: byte)

  const USVFB_TRUE_RGB565: nat := 3
  const USVFB_TRUE_RGB0888: nat := 5

  // Bpp_vfb
  function BytesOf(vfbType: nat): (n: nat)
    ensures n == 2 || n == 4
  {
    if vfbType == USVFB_TRUE_RGB565 then 2 else 4
  }

  // ---------------------------------------------------------------- pixel formats

  function Wide16(b: byte): bv16 { b as bv16 }
  function Wide32(b: byte): bv32 { b as bv32 }
  function Low16(p: bv16): byte { (p & 0xFF) as byte }
  function Low32(p: bv32): byte { (p & 0xFF) as byte }

  // A pixel in memory, on a little-endian host.
  function Pixel16(lo: byte, hi: byte): bv16 { Wide16(lo) | (Wide16(hi) << 8) }

  function Pixel32(b0: byte, b1: byte, b2: byte, b3: byte): bv32
  {
    Wide32(b0) | (Wide32(b1) << 8) | (Wide32(b2) << 16) | (Wide32(b3) << 24)
  }

  function Expand565(p: bv16): Rgb
  {
    Rgb(Low16(((p & 0xF800) >> 11) << 3), Low16(((p & 0x07E0) >> 5) << 2), Low16((p & 0x001F) << 3))
  }

  function Expand888(p: bv32): Rgb
  {
    Rgb(Low32((p & 0xFF0000) >> 16), Low32((p & 0xFF00) >> 8), Low32(p & 0xFF))
  }

  // The top five, six and five bits of an expanded pixel.
  function Pack565(c: Rgb): bv16
  {
    ((Wide16(c.r) >> 3) << 11) | ((Wide16(c.g) >> 2) << 5) | (Wide16(c.b) >> 3)
  }

  // Nothing of a 16-bit pixel is lost.
  lemma Expand565Lossless(p: bv16)
    ensures Pack565(Expand565(p)) == p
  {
  }

  lemma Expand565Injective(p: bv16, q: bv16)
    ensures Expand565(p) == Expand565(q) <==> p == q
  {
    Expand565Lossless(p);
    Expand565Lossless(q);
  }

  // A 32-bit pixel keeps its channels: blue is the byte at the lowest address.
  lemma Expand888Channels(b0: byte, b1: byte, b2: byte, b3: byte)
    ensures Expand888(Pixel32(b0, b1, b2, b3)) == Rgb(b2, b1, b0)
  {
  }

  // Pixel number x of a row in the client's format.
  function Expand(vfbType: nat, row: seq<byte>, x: nat): Rgb
    requires (x + 1) * BytesOf(vfbType) <= |row|
  {
    if vfbType == USVFB_TRUE_RGB565 then Expand565(Pixel16(row[2 * x], row[2 * x + 1]))
    else Expand888(Pixel32(row[4 * x], row[4 * x + 1], row[4 * x + 2], row[4 * x + 3]))
  }

  // Pixel number x of a row, from its bytes. The two of a 16-bit pixel hold five bits of blue,
  // six of green and five of red, from the lowest bit of the first byte on; the low bits of the
  // expanded channels are zero. The four of a 32-bit pixel are blue, green, red, and one unused.
  lemma ExpandBytes(row: seq<byte>, x: nat)
    ensures 2 * x + 1 < |row| ==>
      Expand(3, row, x) == (var lo, hi := row[2 * x], row[2 * x + 1];
        Rgb(8 * (hi / 8), 32 * (hi % 8) + 4 * (lo / 32), 8 * (lo % 32)))
    ensures 4 * x + 3 < |row| ==>
      Expand(5, row, x) == Rgb(row[4 * x + 2], row[4 * x + 1], row[4 * x])
  {
    if 2 * x + 1 < |row| {
      Channels565(row[2 * x], row[2 * x + 1]);
    }
    if 4 * x + 3 < |row| {
      Expand888Channels(row[4 * x], row[4 * x + 1], row[4 * x + 2], row[4 * x + 3]);
    }
  }

  lemma Channels565(lo: byte, hi: byte)
    ensures Expand565(Pixel16(lo, hi)) == Rgb(8 * (hi / 8), 32 * (hi % 8) + 4 * (lo / 32), 8 * (lo % 32))
  {
  }

  // ---------------------------------------------------------------- rectangles

  datatype Rect = Rect(left: int, top: int, right: int, bottom: int)

  const EMPTY := Rect(0, 0, 0, 0)

  predicate In(rc: Rect, x: int, y: int)
  {
    rc.left <= x < rc.right && rc.top <= y < rc.bottom
  }

  predicate InBounds(rc: Rect, w: nat, h: nat)
  {
    0 <= rc.left && 0 <= rc.top && rc.right <= w && rc.bottom <= h
  }

  predicate HasPixels(rc: Rect)
  {
    rc.left < rc.right && rc.top < rc.bottom
  }

  // The dirty rectangle after one more update.
  function Merge(a: Rect, b: Rect): (rc: Rect)
  {
    if a.right - a.left <= 0 && a.bottom - a.top <= 0 then b
    else
      Rect(if a.left < b.left then a.left else b.left, if a.top < b.top then a.top else b.top,
        if a.right > b.right then a.right else b.right, if a.bottom > b.bottom then a.bottom else b.bottom)
  }

  // No pixel is lost, whatever the rectangles look like, and none outside the buffer is added.
  lemma MergeSound(a: Rect, b: Rect, w: nat, h: nat)
    ensures forall x, y :: In(a, x, y) || In(b, x, y) ==> In(Merge(a, b), x, y)
    ensures InBounds(a, w, h) && InBounds(b, w, h) ==> InBounds(Merge(a, b), w, h)
  {
  }

  // Of two rectangles that have pixels the merge is the smallest rectangle holding both.
  lemma MergeLeast(a: Rect, b: Rect, c: Rect)
    requires HasPixels(a) && HasPixels(b)
    requires forall x, y :: In(a, x, y) || In(b, x, y) ==> In(c, x, y)
    ensures forall x, y :: In(Merge(a, b), x, y) ==> In(c, x, y)
  {
    assert In(a, a.left, a.top) && In(a, a.right - 1, a.bottom - 1);
    assert In(b, b.left, b.top) && In(b, b.right - 1, b.bottom - 1);
  }

  // rc has no pixel that some rectangle holding a and b could do without.
  ghost predicate IsLeast(rc: Rect, a: Rect, b: Rect)
  {
    forall c: Rect :: Holds(c, a) && Holds(c, b) ==> Holds(c, rc)
  }

  // Every pixel of a is one of c.
  ghost predicate Holds(c: Rect, a: Rect)
  {
    forall x, y :: In(a, x, y) ==> In(c, x, y)
  }

  predicate EmptyBothWays(rc: Rect)
  {
    rc.right <= rc.left && rc.bottom <= rc.top
  }

  // The edges of a do not stick out of those of b.
  predicate Within(a: Rect, b: Rect)
  {
    b.left <= a.left && b.top <= a.top && a.right <= b.right && a.bottom <= b.bottom
  }

  // The rectangles alone say that the merge has no pixel too many: the old one is empty in
  // both directions, or both have pixels, or the one that has none does not stick out of the
  // one that has, or there is no room for a pixel between any two of the edges.
  predicate NothingAdded(a: Rect, b: Rect)
  {
    || EmptyBothWays(a)
    || (HasPixels(a) && HasPixels(b))
    || (HasPixels(b) && Within(a, b))
    || (HasPixels(a) && Within(b, a))
    || (a.right <= a.left && a.right <= b.left && b.right <= a.left && b.right <= b.left)
    || (a.bottom <= a.top && a.bottom <= b.top && b.bottom <= a.top && b.bottom <= b.top)
  }

  lemma HoldsIff(c: Rect, a: Rect)
    ensures Holds(c, a) <==> !HasPixels(a) || Within(a, c)
  {
    if HasPixels(a) && Holds(c, a) {
      assert In(a, a.left, a.top) && In(a, a.right - 1, a.bottom - 1);
    }
  }

  // When the merge is least, for all rectangles.
  lemma MergeLeastIff(a: Rect, b: Rect)
    ensures IsLeast(Merge(a, b), a, b) <==> NothingAdded(a, b)
  {
    var m := Merge(a, b);
    if NothingAdded(a, b) {
      forall c: Rect | Holds(c, a) && Holds(c, b)
        ensures Holds(c, m)
      {
        HoldsIff(c, a);
        HoldsIff(c, b);
        HoldsIff(c, m);
      }
    } else {
      var c := if HasPixels(a) then a else if HasPixels(b) then b else EMPTY;
      HoldsIff(c, a);
      HoldsIff(c, b);
      HoldsIff(c, m);
      assert !Holds(c, m);
    }
  }

  // A rectangle empty in one direction only that makes the merge too large: a line of width 5
  // and no height, merged with a square away from it.
  lemma MergeTooLarge()
    ensures var a, b := Rect(0, 0, 5, 0), Rect(10, 10, 20, 20);
      !HasPixels(a) && Merge(a, b) == Rect(0, 0, 20, 20) && !IsLeast(Merge(a, b), a, b)
  {
    MergeLeastIff(Rect(0, 0, 5, 0), Rect(10, 10, 20, 20));
  }

  // ---------------------------------------------------------------- images

  // Pixel (x, y) of an image of width w is pixel number w * y + x.
  predicate IsImage(img: seq<Rgb>, w: nat, h: nat)
  {
    |img| == w * h
  }

  function At(w: nat, x: nat, y: nat): (k: nat)
  {
    w * y + x
  }

  lemma {:induction false} RowBelow(w: nat, y: nat, z: nat)
    requires y < z
    ensures w * y + w <= w * z
  {
    NextRow(w, z - 1);
    if y < z - 1 {
      RowBelow(w, y, z - 1);
    }
  }

  lemma NextRow(w: nat, y: nat)
    ensures w * (y + 1) == w * y + w
  {
  }

  lemma AtInside(w: nat, h: nat, x: nat, y: nat)
    requires x < w && y < h
    ensures At(w, x, y) < w * h
  {
    RowBelow(w, y, h);
  }

  // Every pixel number belongs to one place.
  lemma AtCovers(w: nat, h: nat, k: nat) returns (x: nat, y: nat)
    requires k < w * h
    ensures x < w && y < h && At(w, x, y) == k
  {
    y, x := k / w, k % w;
    assert k == w * y + x;
    if y >= h {
      RowCover(w, h, y);
    }
  }

  lemma RowCover(w: nat, h: nat, y: nat)
    requires y >= h
    ensures w * h <= w * y
  {
    if y > h {
      RowBelow(w, h, y);
    }
  }

  // A stretch of row z, and a pixel of another row.
  lemma RowsApart(w: nat, x: nat, y: nat, left: nat, right: nat, z: nat)
    requires x < w && left <= right <= w && y != z
    ensures At(w, x, y) < At(w, left, z) || At(w, right, z) <= At(w, x, y)
  {
    if y < z {
      RowBelow(w, y, z);
    } else {
      RowBelow(w, z, y);
    }
  }

  lemma AtParts(w: nat, x: nat, y: nat)
    requires x < w
    ensures At(w, x, y) / w == y && At(w, x, y) % w == x
  {
    var k := At(w, x, y);
    assert k == w * (k / w) + k % w;
    if k / w < y {
      RowBelow(w, k / w, y);
    } else if y < k / w {
      RowBelow(w, y, k / w);
    }
  }

  // ---------------------------------------------------------------- drawing

  // A picture with a row for every row of the rectangle, as wide as the rectangle.
  predicate PictureOf(pic: seq<seq<Rgb>>, rc: Rect)
  {
    && |pic| >= rc.bottom - rc.top
    && forall i :: 0 <= i < |pic| && i < rc.bottom - rc.top ==> |pic[i]| >= rc.right - rc.left
  }

  // The image with the picture in the rectangle, and everything else as it was.
  function Draw(img: seq<Rgb>, w: nat, h: nat, rc: Rect, pic: seq<seq<Rgb>>): (out: seq<Rgb>)
    requires IsImage(img, w, h) && PictureOf(pic, rc)
    ensures IsImage(out, w, h)
  {
    seq(|img|, k requires 0 <= k < |img| => Drawn(img, w, h, rc, pic, k))
  }

  function Drawn(img: seq<Rgb>, w: nat, h: nat, rc: Rect, pic: seq<seq<Rgb>>, k: nat): Rgb
    requires IsImage(img, w, h) && PictureOf(pic, rc) && k < |img|
  {
    if w > 0 && In(rc, k % w, k / w) then pic[k / w - rc.top][k % w - rc.left] else img[k]
  }

  lemma DrawAt(img: seq<Rgb>, w: nat, h: nat, rc: Rect, pic: seq<seq<Rgb>>, x: nat, y: nat)
    requires IsImage(img, w, h) && PictureOf(pic, rc) && x < w && y < h
    ensures At(w, x, y) < |img|
    ensures Draw(img, w, h, rc, pic)[At(w, x, y)] ==
      if In(rc, x, y) then pic[y - rc.top][x - rc.left] else img[At(w, x, y)]
  {
    AtInside(w, h, x, y);
    AtParts(w, x, y);
  }

  // A rectangle without pixels draws nothing.
  lemma DrawNothing(img: seq<Rgb>, w: nat, h: nat, rc: Rect, pic: seq<seq<Rgb>>)
    requires IsImage(img, w, h) && PictureOf(pic, rc) && !HasPixels(rc)
    ensures Draw(img, w, h, rc, pic) == img
  {
  }

  // One row more: row y of the rectangle is written as one stretch.
  lemma DrawRow(img: seq<Rgb>, w: nat, h: nat, rc: Rect, pic: seq<seq<Rgb>>, y: nat, next: Rect, out: seq<Rgb>)
    requires IsImage(img, w, h) && IsImage(out, w, h)
    requires InBounds(next, w, h) && 0 <= rc.left <= rc.right && rc.top <= rc.bottom == y && y < h
    requires next == Rect(rc.left, rc.top, rc.right, y + 1) && PictureOf(pic, next)
    requires var a := At(w, rc.left, y);
      forall k :: 0 <= k < |img| ==>
        out[k] == if a <= k < a + (rc.right - rc.left) then pic[y - rc.top][k - a] else Draw(img, w, h, rc, pic)[k]
    ensures out == Draw(img, w, h, next, pic)
  {
    forall k | 0 <= k < |img|
      ensures out[k] == Draw(img, w, h, next, pic)[k]
    {
      var px, py := AtCovers(w, h, k);
      DrawAt(img, w, h, rc, pic, px, py);
      DrawAt(img, w, h, next, pic, px, py);
      if py != y {
        RowsApart(w, px, py, rc.left, rc.right, y);
      }
    }
  }

  // ---------------------------------------------------------------- cutting out

  // The pixels of a row of bytes.
  function RowPixels(row: seq<byte>): (px: seq<Rgb>)
    ensures |px| == |row| / 3
  {
    seq(|row| / 3, j requires 0 <= j < |row| / 3 => Rgb(row[3 * j], row[3 * j + 1], row[3 * j + 2]))
  }

  // Each pixel of a row is three bytes: red, green, blue.
  lemma RowPixelBytes(row: seq<byte>, j: nat)
    requires 3 * j + 2 < |row|
    ensures j < |RowPixels(row)|
    ensures row[3 * j..3 * j + 3] == [RowPixels(row)[j].r, RowPixels(row)[j].g, RowPixels(row)[j].b]
  {
  }

  function RowsPixels(rows: seq<seq<byte>>): (pic: seq<seq<Rgb>>)
    ensures |pic| == |rows|
  {
    seq(|rows|, i requires 0 <= i < |rows| => RowPixels(rows[i]))
  }

  // pic is what the image shows in the rectangle.
  ghost predicate CutOut(pic: seq<seq<Rgb>>, img: seq<Rgb>, w: nat, h: nat, rc: Rect)
    requires IsImage(img, w, h) && InBounds(rc, w, h)
  {
    && PictureOf(pic, rc)
    && forall x, y :: In(rc, x, y) ==> ShownAt(pic, img, w, h, rc, x, y)
  }

  predicate ShownAt(pic: seq<seq<Rgb>>, img: seq<Rgb>, w: nat, h: nat, rc: Rect, x: nat, y: nat)
    requires IsImage(img, w, h) && InBounds(rc, w, h) && PictureOf(pic, rc) && In(rc, x, y)
  {
    AtInside(w, h, x, y);
    pic[y - rc.top][x - rc.left] == img[At(w, x, y)]
  }

  // Drawing a cut-out of an image brings the canvas up to date in the rectangle, and only there.
  lemma CutOutDrawn(canvas: seq<Rgb>, img: seq<Rgb>, w: nat, h: nat, rc: Rect, pic: seq<seq<Rgb>>, x: nat, y: nat)
    requires IsImage(img, w, h) && IsImage(canvas, w, h) && InBounds(rc, w, h) && CutOut(pic, img, w, h, rc)
    requires x < w && y < h
    ensures At(w, x, y) < |img|
    ensures Draw(canvas, w, h, rc, pic)[At(w, x, y)] ==
      if In(rc, x, y) then img[At(w, x, y)] else canvas[At(w, x, y)]
  {
    DrawAt(canvas, w, h, rc, pic, x, y);
    if In(rc, x, y) {
      assert ShownAt(pic, img, w, h, rc, x, y);
    }
  }
}
