/** Rectangles of pixels in a linear framebuffer whose scanlines are pitch pixels apart. */
module Raster {
  import opened Words
  import opened Slices

  type Pixels = seq<u32>
  /** Rows of pixels. */
  type Bitmap = seq<seq<u32>>

  predicate IsBitmap(bm: Bitmap, w: nat, h: nat) { |bm| == h && forall k :: 0 <= k < h ==> |bm[k]| == w }

  /** The index of pixel (x, y). */
  function At(pitch: nat, x: nat, y: nat): nat { y * pitch + x }

  /** Pixel (x, y), if the buffer reaches that far. */
  function Px(s: Pixels, pitch: nat, x: nat, y: nat): u32 {
    if At(pitch, x, y) < |s| then s[At(pitch, x, y)] else 0
  }

  /** Scanlines do not overlap. */
  lemma AtInjective(pitch: nat, x: nat, y: nat, x': nat, y': nat)
    requires x < pitch && x' < pitch
    ensures At(pitch, x, y) == At(pitch, x', y') <==> x == x' && y == y'
  {
    if y < y' { MulMonotone(pitch, y + 1, y'); }
    if y' < y { MulMonotone(pitch, y' + 1, y); }
  }

  lemma AtInside(pitch: nat, x: nat, y: nat, w: nat, height: nat)
    requires x + w <= pitch && y < height
    ensures At(pitch, x, y) + w <= pitch * height
  {
    MulMonotone(pitch, y + 1, height);
    assert y * pitch == pitch * y && pitch * (y + 1) == pitch * y + pitch;
  }

  lemma AtShift(pitch: nat, x: nat, y: nat, n: nat)
    ensures At(pitch, x, y + n) == At(pitch, x, y) + n * pitch
  {
  }

  /** The buffer with the first k rows of bm copied to (x, y). */
  function Blit(s: Pixels, pitch: nat, x: nat, y: nat, bm: Bitmap, k: nat): (r: Pixels)
    requires k <= |bm|
    ensures |r| == |s|
  {
    if k == 0 then s else Overlay(Blit(s, pitch, x, y, bm, k - 1), At(pitch, x, y + k - 1), bm[k - 1])
  }

  lemma RowPx(s: Pixels, pitch: nat, x: nat, y: nat, row: seq<u32>, xx: nat, yy: nat)
    requires x + |row| <= pitch && At(pitch, x, y) + |row| <= |s| && xx < pitch
    ensures Px(Overlay(s, At(pitch, x, y), row), pitch, xx, yy) ==
      if yy == y && x <= xx < x + |row| then row[xx - x] else Px(s, pitch, xx, yy)
  {
    var i, at := At(pitch, xx, yy), At(pitch, x, y);
    OverlayAt(s, at, row);
    if yy == y && x <= xx < x + |row| {
      assert i == at + (xx - x);
    } else if at <= i < at + |row| {
      AtInjective(pitch, xx, yy, x + (i - at), y);
    }
  }

  /** What a copied bitmap does to every pixel. */
  lemma {:induction false} BlitPx(s: Pixels, pitch: nat, height: nat, x: nat, y: nat, w: nat, bm: Bitmap, k: nat,
                                  xx: nat, yy: nat)
    requires k <= |bm| && IsBitmap(bm, w, |bm|) && x + w <= pitch && y + |bm| <= height && pitch * height <= |s|
    requires xx < pitch
    ensures Px(Blit(s, pitch, x, y, bm, k), pitch, xx, yy) ==
      if y <= yy < y + k && x <= xx < x + w then bm[yy - y][xx - x] else Px(s, pitch, xx, yy)
  {
    hide Px, At;
    if k > 0 {
      BlitPx(s, pitch, height, x, y, w, bm, k - 1, xx, yy);
      AtInside(pitch, x, y + k - 1, w, height);
      RowPx(Blit(s, pitch, x, y, bm, k - 1), pitch, x, y + k - 1, bm[k - 1], xx, yy);
    }
  }

  function Line(w: nat, v: u32): (r: seq<u32>)
    ensures |r| == w
  {
    seq(w, _ => v)
  }

  function Solid(w: nat, h: nat, v: u32): (bm: Bitmap)
    ensures IsBitmap(bm, w, h)
  {
    seq(h, _ => Line(w, v))
  }

  lemma SolidAt(w: nat, h: nat, v: u32, x: nat, y: nat)
    requires x < w && y < h
    ensures Solid(w, h, v)[y][x] == v
  {
  }

  /** The buffer in which n pixels from index d on are replaced by those that lie shift further. */
  function Moved(s: Pixels, d: nat, shift: nat, n: nat): (r: Pixels)
    requires d + shift + n <= |s|
    ensures |r| == |s|
  {
    seq(|s|, i requires 0 <= i < |s| => if d <= i < d + n then s[i + shift] else s[i])
  }

  lemma MovedIs(r: Pixels, s: Pixels, d: nat, shift: nat, n: nat)
    requires d + shift + n <= |s| && |r| == |s|
    requires forall j :: d <= j < d + n ==> r[j] == s[j + shift]
    requires forall j :: 0 <= j < |r| && !(d <= j < d + n) ==> r[j] == s[j]
    ensures r == Moved(s, d, shift, n)
  {
  }

  /** Where the pixels of the moved scanlines lie. */
  lemma MovedIndex(pitch: nat, top: nat, rows: nat, x: nat, y: nat)
    requires x < pitch
    ensures pitch * top <= At(pitch, x, y) <==> top <= y
    ensures At(pitch, x, y) < pitch * top + pitch * rows <==> y < top + rows
  {
    if y < top { AtInside(pitch, x, y, 1, top); } else { MulMonotone(pitch, top, y); }
    assert pitch * (top + rows) == pitch * top + pitch * rows;
    if y < top + rows { AtInside(pitch, x, y, 1, top + rows); } else { MulMonotone(pitch, top + rows, y); }
  }

  /** Moving whole scanlines up. */
  lemma MovedPx(s: Pixels, pitch: nat, top: nat, up: nat, rows: nat, xx: nat, yy: nat)
    requires pitch * (top + up + rows) <= |s| && xx < pitch
    ensures pitch * top + pitch * up + pitch * rows == pitch * (top + up + rows)
    ensures Px(Moved(s, pitch * top, pitch * up, pitch * rows), pitch, xx, yy) ==
      if top <= yy < top + rows then Px(s, pitch, xx, yy + up) else Px(s, pitch, xx, yy)
  {
    assert pitch * (top + up + rows) == pitch * top + pitch * up + pitch * rows;
    AtShift(pitch, xx, yy, up);
    MovedIndex(pitch, top, rows, xx, yy);
    hide At;
  }
}
