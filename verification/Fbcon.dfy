/** The framebuffer text console (kernel/graphics/fbcon.c). */
module Fbcon {
  import opened Words
  import opened Slices
  import opened Raster
  import opened TextGrid

  const GLYPH: nat := 8
  const SCALE: nat := 2
  const CELL: nat := GLYPH * SCALE
  const MARGIN: nat := 8
  const XRGB8888: u32 := 1
  const XBGR8888: u32 := 2

  /** 128 glyphs of eight rows, the lowest bit leftmost. */
  type Font = seq<seq<u8>>

  predicate FontOk(font: Font) { |font| == 128 && forall k :: 0 <= k < 128 ==> |font[k]| == GLYPH }

  function ToNative(format: u32, rgb: u32): u32 {
    if format == XBGR8888 then rgb / 256 % 256 * 256 + rgb / 0x1_0000 % 256 + rgb % 256 * 0x1_0000 else rgb
  }

  lemma ThreeBytes(r: u8, g: u8, b: u8)
    ensures (r + 256 * g + 0x1_0000 * b) % 256 == r && (r + 256 * g + 0x1_0000 * b) / 256 % 256 == g
    ensures (r + 256 * g + 0x1_0000 * b) / 0x1_0000 == b
  {
  }

  /** Swapping red and blue twice gives the colour back, without the unused byte. */
  lemma SwizzleTwice(rgb: u32)
    ensures ToNative(XBGR8888, ToNative(XBGR8888, rgb)) == rgb % 0x100_0000
  {
    ThreeBytes(rgb / 0x1_0000 % 256, rgb / 256 % 256, rgb % 256);
    LowBytes(rgb);
  }

  lemma LowBytes(rgb: nat)
    ensures rgb % 0x100_0000 == rgb % 256 + 256 * (rgb / 256 % 256) + 0x1_0000 * (rgb / 0x1_0000 % 256)
  {
    var h := rgb / 256;
    assert rgb == 256 * h + rgb % 256 && h == 256 * (h / 256) + h % 256 && h / 256 == rgb / 0x1_0000;
    var t := rgb / 0x1_0000;
    assert t == 256 * (t / 256) + t % 256 && t / 256 == rgb / 0x100_0000;
  }

  // ---- rendering ------------------------------------------------------------------------------

  /** (b >> k) & 1 */
  function BitOf(b: nat, k: nat): bool
    decreases k
  {
    if k == 0 then b % 2 == 1 else BitOf(b / 2, k - 1)
  }

  function GlyphRow(bits: u8, nfg: u32, nbg: u32): (r: seq<u32>)
    ensures |r| == CELL
  {
    seq(CELL, px requires 0 <= px < CELL => if BitOf(bits, px / SCALE) then nfg else nbg)
  }

  function GlyphBitmap(rows: seq<u8>, nfg: u32, nbg: u32): (bm: Bitmap)
    requires |rows| == GLYPH
    ensures IsBitmap(bm, CELL, CELL)
  {
    seq(CELL, py requires 0 <= py < CELL => GlyphRow(rows[py / SCALE], nfg, nbg))
  }

  /** The 16 x 16 pixels of a cell. */
  function Rendering(font: Font, format: u32, cell: Cell): (bm: Bitmap)
    requires FontOk(font)
    ensures IsBitmap(bm, CELL, CELL)
  {
    match cell
    case Blank(bg) => Solid(CELL, CELL, ToNative(format, bg))
    case Glyph(ch, fg, bg) => GlyphBitmap(font[ch % 128], ToNative(format, fg), ToNative(format, bg))
  }

  /** The geometry of the screen; pitch is in pixels. */
  datatype Geo = Geo(pitch: nat, width: nat, height: nat, cols: nat, rows: nat)

  predicate GeoOk(g: Geo, size: nat) {
    g.pitch >= g.width >= 320 && g.height >= 200 && g.pitch * g.height <= size &&
    g.cols == (g.width - 2 * MARGIN) / CELL && g.rows == (g.height - 2 * MARGIN) / CELL
  }

  function CellPx(s: Pixels, pitch: nat, r: nat, c: nat, px: nat, py: nat): u32 {
    Px(s, pitch, MARGIN + c * CELL + px, MARGIN + r * CELL + py)
  }

  /** Cell (r, c) of the screen shows bm. */
  ghost predicate ShowsCell(s: Pixels, pitch: nat, r: nat, c: nat, bm: Bitmap)
    requires IsBitmap(bm, CELL, CELL)
  {
    forall px: nat, py: nat :: px < CELL && py < CELL ==> CellPx(s, pitch, r, c, px, py) == bm[py][px]
  }

  /** Every cell of the screen shows the cell of the grid. */
  ghost predicate Shows(s: Pixels, g: Geo, font: Font, format: u32, lines: seq<seq<Cell>>)
    requires FontOk(font) && IsGrid(lines, g.cols, g.rows)
  {
    forall r: nat, c: nat :: r < g.rows && c < g.cols ==>
      ShowsCell(s, g.pitch, r, c, Rendering(font, format, lines[r][c]))
  }

  /** Every cell lies inside the screen. */
  lemma CellInside(g: Geo, size: nat, r: nat, c: nat)
    requires GeoOk(g, size) && r < g.rows && c < g.cols
    ensures MARGIN + c * CELL + CELL <= g.width && MARGIN + r * CELL + CELL <= g.height
  {
  }

  /** Drawing a bitmap into one cell shows it there and leaves the other cells as they were. */
  lemma BlitCell(s: Pixels, g: Geo, r: nat, c: nat, bm: Bitmap, rr: nat, cc: nat, was: Bitmap)
    requires GeoOk(g, |s|) && r < g.rows && c < g.cols && rr < g.rows && cc < g.cols
    requires IsBitmap(bm, CELL, CELL) && IsBitmap(was, CELL, CELL) && ShowsCell(s, g.pitch, rr, cc, was)
    ensures ShowsCell(Blit(s, g.pitch, MARGIN + c * CELL, MARGIN + r * CELL, bm, CELL), g.pitch, rr, cc,
      if rr == r && cc == c then bm else was)
  {
    hide Px, Blit;
    var x, y := MARGIN + c * CELL, MARGIN + r * CELL;
    CellInside(g, |s|, r, c);
    CellInside(g, |s|, rr, cc);
    forall px: nat, py: nat | px < CELL && py < CELL
      ensures CellPx(Blit(s, g.pitch, x, y, bm, CELL), g.pitch, rr, cc, px, py) ==
        if rr == r && cc == c then bm[py][px] else was[py][px]
    {
      assert CellPx(s, g.pitch, rr, cc, px, py) == was[py][px];
      BlitPx(s, g.pitch, g.height, x, y, CELL, bm, CELL, MARGIN + cc * CELL + px, MARGIN + rr * CELL + py);
    }
  }

  /** Drawing a glyph is setting a cell of the grid. */
  lemma DrawShows(s: Pixels, g: Geo, font: Font, format: u32, lines: seq<seq<Cell>>, r: nat, c: nat, cell: Cell)
    requires FontOk(font) && IsGrid(lines, g.cols, g.rows) && GeoOk(g, |s|) && r < g.rows && c < g.cols
    requires Shows(s, g, font, format, lines)
    ensures IsGrid(lines[r := lines[r][c := cell]], g.cols, g.rows)
    ensures Shows(Blit(s, g.pitch, MARGIN + c * CELL, MARGIN + r * CELL, Rendering(font, format, cell), CELL),
      g, font, format, lines[r := lines[r][c := cell]])
  {
    hide Blit, Rendering, ShowsCell, GeoOk;
    var next := lines[r := lines[r][c := cell]];
    var t := Blit(s, g.pitch, MARGIN + c * CELL, MARGIN + r * CELL, Rendering(font, format, cell), CELL);
    forall rr: nat, cc: nat | rr < g.rows && cc < g.cols
      ensures ShowsCell(t, g.pitch, rr, cc, Rendering(font, format, next[rr][cc]))
    {
      BlitCell(s, g, r, c, Rendering(font, format, cell), rr, cc, Rendering(font, format, lines[rr][cc]));
    }
  }

  /** The pixels after the copy of a scroll. */
  function Copied(s: Pixels, g: Geo): (t: Pixels)
    requires GeoOk(g, |s|)
    ensures |t| == |s|
  {
    CopyFits(g, |s|);
    Moved(s, g.pitch * MARGIN, g.pitch * CELL, g.pitch * (CELL * (g.rows - 1)))
  }

  lemma CopyFits(g: Geo, size: nat)
    requires GeoOk(g, size)
    ensures g.rows >= 1 && MARGIN + CELL + CELL * (g.rows - 1) <= g.height
    ensures g.pitch * MARGIN + g.pitch * CELL + g.pitch * (CELL * (g.rows - 1)) <= size
  {
    var n := CELL * (g.rows - 1);
    assert g.pitch * MARGIN + g.pitch * CELL + g.pitch * n == g.pitch * (MARGIN + CELL + n);
    MulMonotone(g.pitch, MARGIN + CELL + n, g.height);
  }

  /** The pixels after a scroll. */
  function Scrolled(s: Pixels, g: Geo, nbg: u32): (t: Pixels)
    requires GeoOk(g, |s|)
    ensures |t| == |s|
  {
    CopyFits(g, |s|);
    Blit(Copied(s, g), g.pitch, 0, MARGIN + (g.rows - 1) * CELL, Solid(g.width, CELL, nbg), CELL)
  }

  lemma ScrolledPx(s: Pixels, g: Geo, nbg: u32, x: nat, y: nat)
    requires GeoOk(g, |s|) && x < g.width
    ensures MARGIN <= y < MARGIN + (g.rows - 1) * CELL ==> Px(Scrolled(s, g, nbg), g.pitch, x, y) == Px(s, g.pitch, x, y + CELL)
    ensures MARGIN + (g.rows - 1) * CELL <= y < MARGIN + g.rows * CELL ==> Px(Scrolled(s, g, nbg), g.pitch, x, y) == nbg
  {
    hide Px, Blit, Copied, Solid;
    CopyFits(g, |s|);
    CopiedPx(s, g, x, y);
    BandPx(Copied(s, g), g, MARGIN + (g.rows - 1) * CELL, nbg, x, y);
  }

  /** Filling a band of scanlines over the width of the screen. */
  lemma BandPx(s: Pixels, g: Geo, top: nat, nbg: u32, x: nat, y: nat)
    requires x < g.width <= g.pitch && top + CELL <= g.height && g.pitch * g.height <= |s|
    ensures Px(Blit(s, g.pitch, 0, top, Solid(g.width, CELL, nbg), CELL), g.pitch, x, y) ==
      if top <= y < top + CELL then nbg else Px(s, g.pitch, x, y)
  {
    hide Px, Blit, Solid;
    BlitPx(s, g.pitch, g.height, 0, top, g.width, Solid(g.width, CELL, nbg), CELL, x, y);
    if top <= y < top + CELL { SolidAt(g.width, CELL, nbg, x, y - top); }
  }

  lemma CopiedPx(s: Pixels, g: Geo, x: nat, y: nat)
    requires GeoOk(g, |s|) && x < g.width
    ensures MARGIN <= y < MARGIN + (g.rows - 1) * CELL ==> Px(Copied(s, g), g.pitch, x, y) == Px(s, g.pitch, x, y + CELL)
  {
    CopyFits(g, |s|);
    hide Px, Moved;
    assert g.pitch * (MARGIN + CELL + CELL * (g.rows - 1)) <= |s| by {
      MulMonotone(g.pitch, MARGIN + CELL + CELL * (g.rows - 1), g.height);
    }
    MovedPx(s, g.pitch, MARGIN, CELL, CELL * (g.rows - 1), x, y);
  }

  /** A scrolled cell shows what the cell below it showed, and the last row is blank. */
  lemma ScrolledCell(s: Pixels, g: Geo, nbg: u32, r: nat, c: nat, bm: Bitmap)
    requires GeoOk(g, |s|) && r < g.rows && c < g.cols && IsBitmap(bm, CELL, CELL)
    requires if r < g.rows - 1 then ShowsCell(s, g.pitch, r + 1, c, bm) else bm == Solid(CELL, CELL, nbg)
    ensures ShowsCell(Scrolled(s, g, nbg), g.pitch, r, c, bm)
  {
    var t := Scrolled(s, g, nbg);
    CellInside(g, |s|, r, c);
    hide Px, Scrolled;
    forall px: nat, py: nat | px < CELL && py < CELL ensures CellPx(t, g.pitch, r, c, px, py) == bm[py][px] {
      ScrolledPx(s, g, nbg, MARGIN + c * CELL + px, MARGIN + r * CELL + py);
      if r < g.rows - 1 {
        assert CellPx(s, g.pitch, r + 1, c, px, py) == bm[py][px];
      }
    }
  }

  /** The copy and the fill of a scroll show the scrolled grid. */
  lemma ScrollShows(s: Pixels, g: Geo, font: Font, format: u32, lines: seq<seq<Cell>>, bg: u32)
    requires FontOk(font) && IsGrid(lines, g.cols, g.rows) && GeoOk(g, |s|) && Shows(s, g, font, format, lines)
    ensures lines != [] && IsGrid(ScrollUp(lines, bg, g.cols), g.cols, g.rows)
    ensures Shows(Scrolled(s, g, ToNative(format, bg)), g, font, format, ScrollUp(lines, bg, g.cols))
  {
    CopyFits(g, |s|);
    hide Scrolled, ToNative, GlyphBitmap, ShowsCell, GeoOk, Solid;
    var t, next := Scrolled(s, g, ToNative(format, bg)), ScrollUp(lines, bg, g.cols);
    forall r: nat, c: nat | r < g.rows && c < g.cols
      ensures ShowsCell(t, g.pitch, r, c, Rendering(font, format, next[r][c]))
    {
      if r < g.rows - 1 {
        assert next[r] == lines[r + 1];
        assert ShowsCell(s, g.pitch, r + 1, c, Rendering(font, format, lines[r + 1][c]));
      } else {
        assert next[r] == BlankLine(bg, g.cols);
      }
      ScrolledCell(s, g, ToNative(format, bg), r, c, Rendering(font, format, next[r][c]));
    }
  }

  /** The pixels of a cleared screen. */
  function Wiped(s: Pixels, g: Geo, nbg: u32): (t: Pixels)
    ensures |t| == |s|
  {
    Blit(s, g.pitch, 0, 0, Solid(g.width, g.height, nbg), g.height)
  }

  lemma WipedPx(s: Pixels, g: Geo, nbg: u32, x: nat, y: nat)
    requires GeoOk(g, |s|) && x < g.width && y < g.height
    ensures Px(Wiped(s, g, nbg), g.pitch, x, y) == nbg
  {
    hide Px, Blit, Solid;
    BlitPx(s, g.pitch, g.height, 0, 0, g.width, Solid(g.width, g.height, nbg), g.height, x, y);
    SolidAt(g.width, g.height, nbg, x, y);
  }

  lemma WipedCell(s: Pixels, g: Geo, nbg: u32, r: nat, c: nat)
    requires GeoOk(g, |s|) && r < g.rows && c < g.cols
    ensures ShowsCell(Wiped(s, g, nbg), g.pitch, r, c, Solid(CELL, CELL, nbg))
  {
    var t := Wiped(s, g, nbg);
    CellInside(g, |s|, r, c);
    hide Px, Wiped, GeoOk, Solid;
    forall px: nat, py: nat | px < CELL && py < CELL
      ensures CellPx(t, g.pitch, r, c, px, py) == Solid(CELL, CELL, nbg)[py][px]
    {
      SolidAt(CELL, CELL, nbg, px, py);
      WipedPx(s, g, nbg, MARGIN + c * CELL + px, MARGIN + r * CELL + py);
    }
  }

  /** A screen filled with the background shows a cleared grid. */
  lemma ClearShows(s: Pixels, g: Geo, font: Font, format: u32, bg: u32)
    requires FontOk(font) && GeoOk(g, |s|)
    ensures Shows(Wiped(s, g, ToNative(format, bg)), g, font, format, Cleared(bg, g.cols, g.rows).lines)
  {
    hide Wiped, ToNative, ShowsCell, Solid, GeoOk;
    var t, lines := Wiped(s, g, ToNative(format, bg)), Cleared(bg, g.cols, g.rows).lines;
    forall r: nat, c: nat | r < g.rows && c < g.cols
      ensures ShowsCell(t, g.pitch, r, c, Rendering(font, format, lines[r][c]))
    {
      WipedCell(s, g, ToNative(format, bg), r, c);
      assert lines[r][c] == Blank(bg);
    }
  }

  // ---- the code ------------------------------------------------------------------------------------

  method FillLine(fb: array<u32>, at: nat, w: nat, v: u32)
    requires at + w <= fb.Length
    modifies fb
    ensures Wrote(fb[..], old(fb[..]), at, Line(w, v))
  {
    for dx := 0 to w
      invariant forall i :: 0 <= i < fb.Length ==> fb[i] == if at <= i < at + dx then v else old(fb[i])
    {
      fb[at + dx] := v;
    }
    OverlayAt(old(fb[..]), at, Line(w, v));
  }

  /** The first k rows of bm have been drawn at (x, y). */
  ghost predicate Drawn(now: Pixels, was: Pixels, pitch: nat, x: nat, y: nat, bm: Bitmap, k: nat) {
    k <= |bm| && now == Blit(was, pitch, x, y, bm, k)
  }

  lemma DrawnNone(s: Pixels, pitch: nat, x: nat, y: nat, bm: Bitmap)
    ensures Drawn(s, s, pitch, x, y, bm, 0)
  {
  }

  /** One more row of a bitmap. */
  lemma DrawnNext(next: Pixels, now: Pixels, was: Pixels, pitch: nat, x: nat, y: nat, bm: Bitmap, k: nat)
    requires k < |bm| && Drawn(now, was, pitch, x, y, bm, k) && Wrote(next, now, At(pitch, x, y + k), bm[k])
    ensures Drawn(next, was, pitch, x, y, bm, k + 1)
  {
    hide Overlay, At;
  }

  lemma DrawnAll(now: Pixels, was: Pixels, pitch: nat, x: nat, y: nat, bm: Bitmap)
    requires Drawn(now, was, pitch, x, y, bm, |bm|)
    ensures now == Blit(was, pitch, x, y, bm, |bm|)
  {
  }

  method FillRect(fb: array<u32>, pitch: nat, x: nat, y: nat, w: nat, h: nat, native: u32, ghost height: nat)
    requires x + w <= pitch && y + h <= height && pitch * height <= fb.Length
    modifies fb
    ensures fb[..] == Blit(old(fb[..]), pitch, x, y, Solid(w, h, native), h)
  {
    ghost var was, bm := fb[..], Solid(w, h, native);
    DrawnNone(was, pitch, x, y, bm);
    hide Drawn, Wrote, At, Line;
    for dy := 0 to h
      invariant Drawn(fb[..], was, pitch, x, y, bm, dy)
    {
      ghost var now := fb[..];
      AtInside(pitch, x, y + dy, w, height);
      FillLine(fb, At(pitch, x, y + dy), w, native);
      DrawnNext(fb[..], now, was, pitch, x, y, bm, dy);
    }
    DrawnAll(fb[..], was, pitch, x, y, bm);
  }

  /** One scanline of a glyph: every bit is two pixels wide. */
  method DrawLine(fb: array<u32>, at: nat, bits: u8, nfg: u32, nbg: u32)
    requires at + CELL <= fb.Length
    modifies fb
    ensures Wrote(fb[..], old(fb[..]), at, GlyphRow(bits, nfg, nbg))
  {
    ghost var row := GlyphRow(bits, nfg, nbg);
    for gx := 0 to GLYPH
      invariant forall i :: 0 <= i < fb.Length ==> fb[i] == if at <= i < at + gx * SCALE then row[i - at] else old(fb[i])
    {
      var c := if BitOf(bits, gx) then nfg else nbg;
      for sx := 0 to SCALE
        invariant forall i :: 0 <= i < fb.Length ==> fb[i] == if at <= i < at + gx * SCALE + sx then row[i - at] else old(fb[i])
      {
        assert (gx * SCALE + sx) / SCALE == gx;
        fb[at + gx * SCALE + sx] := c;
      }
    }
    OverlayAt(old(fb[..]), at, row);
  }

  lemma BitmapRow(rows: seq<u8>, nfg: u32, nbg: u32, gy: nat, sy: nat)
    requires |rows| == GLYPH && gy < GLYPH && sy < SCALE
    ensures GlyphBitmap(rows, nfg, nbg)[gy * SCALE + sy] == GlyphRow(rows[gy], nfg, nbg)
  {
    assert (gy * SCALE + sy) / SCALE == gy;
  }

  /** Scanline sy of the two of row gy of a glyph. */
  method DrawScanline(fb: array<u32>, g: Geo, x0: nat, y0: nat, gy: nat, sy: nat, rows: seq<u8>, nfg: u32, nbg: u32,
                      ghost was: Pixels)
    requires |rows| == GLYPH && gy < GLYPH && sy < SCALE
    requires x0 + CELL <= g.pitch && y0 + CELL <= g.height && g.pitch * g.height <= fb.Length
    requires Drawn(fb[..], was, g.pitch, x0, y0, GlyphBitmap(rows, nfg, nbg), gy * SCALE + sy)
    modifies fb
    ensures Drawn(fb[..], was, g.pitch, x0, y0, GlyphBitmap(rows, nfg, nbg), gy * SCALE + sy + 1)
  {
    hide Drawn, Wrote, At, GlyphRow, GlyphBitmap;
    ghost var now := fb[..];
    AtInside(g.pitch, x0, y0 + gy * SCALE + sy, CELL, g.height);
    BitmapRow(rows, nfg, nbg, gy, sy);
    DrawLine(fb, At(g.pitch, x0, y0 + gy * SCALE + sy), rows[gy], nfg, nbg);
    DrawnNext(fb[..], now, was, g.pitch, x0, y0, GlyphBitmap(rows, nfg, nbg), gy * SCALE + sy);
  }

  /** The two scanlines of row gy of a glyph. */
  method DrawTwice(fb: array<u32>, g: Geo, x0: nat, y0: nat, gy: nat, rows: seq<u8>, nfg: u32, nbg: u32, ghost was: Pixels)
    requires |rows| == GLYPH && gy < GLYPH
    requires x0 + CELL <= g.pitch && y0 + CELL <= g.height && g.pitch * g.height <= fb.Length
    requires Drawn(fb[..], was, g.pitch, x0, y0, GlyphBitmap(rows, nfg, nbg), gy * SCALE)
    modifies fb
    ensures Drawn(fb[..], was, g.pitch, x0, y0, GlyphBitmap(rows, nfg, nbg), gy * SCALE + SCALE)
  {
    hide Drawn, GlyphBitmap;
    for sy := 0 to SCALE
      invariant Drawn(fb[..], was, g.pitch, x0, y0, GlyphBitmap(rows, nfg, nbg), gy * SCALE + sy)
    {
      DrawScanline(fb, g, x0, y0, gy, sy, rows, nfg, nbg, was);
    }
  }

  /** Every row of a glyph is two scanlines high. */
  method DrawGlyph(fb: array<u32>, g: Geo, col: nat, row: nat, bits: seq<u8>, nfg: u32, nbg: u32)
    requires |bits| == GLYPH && GeoOk(g, fb.Length) && col < g.cols && row < g.rows
    modifies fb
    ensures fb[..] == Blit(old(fb[..]), g.pitch, MARGIN + col * CELL, MARGIN + row * CELL, GlyphBitmap(bits, nfg, nbg), CELL)
  {
    CellInside(g, fb.Length, row, col);
    var x0, y0 := MARGIN + col * CELL, MARGIN + row * CELL;
    ghost var was, bm := fb[..], GlyphBitmap(bits, nfg, nbg);
    hide Drawn, Blit, GlyphBitmap;
    DrawnNone(was, g.pitch, x0, y0, bm);
    for gy := 0 to GLYPH
      invariant Drawn(fb[..], was, g.pitch, x0, y0, bm, gy * SCALE)
    {
      DrawTwice(fb, g, x0, y0, gy, bits, nfg, nbg, was);
    }
    DrawnAll(fb[..], was, g.pitch, x0, y0, bm);
  }

  /** The ascending copy reads every pixel before it is overwritten. */
  method MoveUp(fb: array<u32>, d: nat, shift: nat, n: nat)
    requires d + shift + n <= fb.Length
    modifies fb
    ensures fb[..] == Moved(old(fb[..]), d, shift, n)
  {
    ghost var s := fb[..];
    for i := 0 to n
      invariant forall j :: d <= j < d + i ==> fb[j] == s[j + shift]
      invariant forall j :: 0 <= j < fb.Length && !(d <= j < d + i) ==> fb[j] == s[j]
    {
      fb[d + i] := fb[d + shift + i];
    }
    MovedIs(fb[..], s, d, shift, n);
  }

  method Scroll(fb: array<u32>, g: Geo, nbg: u32)
    requires GeoOk(g, fb.Length)
    modifies fb
    ensures fb[..] == Scrolled(old(fb[..]), g, nbg)
  {
    hide Moved, Blit, Solid;
    CopyFits(g, fb.Length);
    MoveUp(fb, g.pitch * MARGIN, g.pitch * CELL, g.pitch * (CELL * (g.rows - 1)));
    FillRect(fb, g.pitch, 0, MARGIN + (g.rows - 1) * CELL, g.width, CELL, nbg, g.height);
  }

  /** The framebuffer part of the boot information; pitch is in bytes. */
  datatype FbInfo = FbInfo(base: u64, width: u32, height: u32, pitch: u32, format: u32)

  /** The framebuffers that the console accepts. */
  predicate Usable(bi: FbInfo) {
    (bi.format == 1 || bi.format == 2) && bi.base != 0 && bi.width >= 320 && bi.height >= 200
  }

  class Console {
    const font: Font
    var fb: array<u32>
    var geo: Geo
    var format: u32
    var curCol: nat
    var curRow: nat
    var fg: u32
    var bg: u32
    var ready: bool
    ghost var lines: seq<seq<Cell>>

    /** A console that is ready has its cursor inside the screen, and the screen shows the grid. */
    ghost predicate Valid()
      reads this, fb
    {
      FontOk(font) &&
      (ready ==>
        GeoOk(geo, fb.Length) && InGrid(TextNow(), geo.cols, geo.rows) && Shows(fb[..], geo, font, format, lines))
    }

    ghost function TextNow(): Text
      reads this
    {
      Text(lines, curCol, curRow)
    }

    ghost function Now(): Screen
      reads this
    {
      Screen(TextNow(), fg, bg)
    }

    constructor (font: Font)
      requires FontOk(font)
      ensures Valid() && !ready && this.font == font && fg == 0x00E8E3D5 && bg == 0x000B0E14
    {
      this.font := font;
      fb := new u32[0];
      geo := Geo(0, 0, 0, 0, 0);
      format, curCol, curRow, lines, ready := 0, 0, 0, [], false;
      fg, bg := 0x00E8E3D5, 0x000B0E14;
    }

    /**
     * fbcon_init: memory is what lies at bi.base. A usable framebuffer has scanlines at least as long
     * as its width and is as large as its height says; the firmware guarantees both.
     */
    method Init(bi: FbInfo, memory: array<u32>) returns (ok: bool)
      requires Valid()
      requires Usable(bi) ==> bi.pitch / 4 >= bi.width && bi.pitch / 4 * bi.height <= memory.Length
      modifies this, memory
      ensures Valid() && (ok <==> Usable(bi))
      ensures ok ==> ready && fb == memory && format == bi.format && fg == old(fg) && bg == old(bg)
      ensures ok ==> geo.pitch == bi.pitch / 4 && geo.width == bi.width && geo.height == bi.height
      ensures ok ==> TextNow() == Cleared(bg, geo.cols, geo.rows)
      ensures !ok ==> Now() == old(Now()) && ready == old(ready) && fb == old(fb) && fb[..] == old(fb[..])
    {
      if bi.format != XRGB8888 && bi.format != XBGR8888 { return false; }
      if bi.base == 0 || bi.width < 320 || bi.height < 200 { return false; }
      fb, format := memory, bi.format;
      geo := Geo(bi.pitch / 4, bi.width, bi.height, (bi.width - 2 * MARGIN) / CELL, (bi.height - 2 * MARGIN) / CELL);
      curCol, curRow := 0, 0;
      lines := Cleared(bg, geo.cols, geo.rows).lines;
      hide Shows, Blit, Solid, ToNative;
      ClearShows(fb[..], geo, font, format, bg);
      FillRect(fb, geo.pitch, 0, 0, geo.width, geo.height, ToNative(format, bg), geo.height);
      ready := true;
      ok := true;
    }

    method SetColors(fg: u32, bg: u32)
      requires Valid()
      modifies `fg, `bg
      ensures Valid() && Now() == Screen(old(TextNow()), fg, bg)
    {
      this.fg, this.bg := fg, bg;
    }

    /** fbcon_putc: the grid changes as the text says, and the pixels follow. c is a signed char. */
    method PutChar(c: int)
      requires Valid() && -128 <= c < 128
      modifies this, fb
      ensures Valid() && ready == old(ready) && fb == old(fb) && geo == old(geo) && fg == old(fg) && bg == old(bg)
      ensures !ready ==> Now() == old(Now()) && fb[..] == old(fb[..])
      ensures ready ==> TextNow() == Put(old(TextNow()), c, fg, bg, geo.cols, geo.rows)
    {
      if !ready { return; }
      TypeChar(c);
      if curRow >= geo.rows {
        hide Shows, Scrolled, ToNative;
        ScrollShows(fb[..], geo, font, format, lines, bg);
        Scroll(fb, geo, ToNative(format, bg));
        lines := ScrollUp(lines, bg, geo.cols);
        curRow := geo.rows - 1;
      }
    }

    /** The first half of fbcon_putc; the cursor may be left just below the screen. */
    method TypeChar(c: int)
      requires Valid() && ready && -128 <= c < 128
      modifies `curCol, `curRow, `lines, fb
      ensures GeoOk(geo, fb.Length) && IsGrid(lines, geo.cols, geo.rows) && Shows(fb[..], geo, font, format, lines)
      ensures TextNow() == Type(old(TextNow()), c, fg, bg, geo.cols, geo.rows)
    {
      hide Shows;
      if c == '\n' as int {
        curCol, curRow := 0, curRow + 1;
      } else if c == '\r' as int {
        curCol := 0;
      } else if c >= 0x20 {
        DrawChar(c);
        curCol := curCol + 1;
        if curCol >= geo.cols {
          curCol, curRow := 0, curRow + 1;
        }
      }
    }

    /** Draws a printable character at the cursor. */
    method DrawChar(c: int)
      requires Valid() && ready && 0x20 <= c < 128
      modifies `lines, fb
      ensures lines == old(lines)[curRow := old(lines)[curRow][curCol := Glyph(c, fg, bg)]]
      ensures IsGrid(lines, geo.cols, geo.rows) && Shows(fb[..], geo, font, format, lines)
    {
      ghost var cell := Glyph(c, fg, bg);
      hide Shows, Blit, ToNative, GlyphBitmap;
      DrawShows(fb[..], geo, font, format, lines, curRow, curCol, cell);
      lines := lines[curRow := lines[curRow][curCol := cell]];
      DrawGlyph(fb, geo, curCol, curRow, font[c % 128], ToNative(format, fg), ToNative(format, bg));
    }

    /** Any run of characters and colour changes leaves the screen showing the text of that run. */
    method Play(es: seq<Event>)
      requires Valid() && ready && forall e <- es :: e.Char? ==> -128 <= e.c < 128
      modifies this, fb
      ensures Valid() && ready && fb == old(fb) && geo == old(geo)
      ensures Now() == Run(old(Now()), es, geo.cols, geo.rows)
    {
      ghost var rest := es;
      for i := 0 to |es|
        invariant Valid() && ready && fb == old(fb) && geo == old(geo) && rest == es[i..]
        invariant Run(Now(), rest, geo.cols, geo.rows) == Run(old(Now()), es, geo.cols, geo.rows)
      {
        assert rest[0] == es[i] && rest[1..] == es[i + 1..];
        match es[i] {
          case Char(c) => PutChar(c);
          case Colors(f, b) => SetColors(f, b);
        }
        rest := es[i + 1..];
      }
    }
  }
}
