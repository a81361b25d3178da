/** The screen pixel by pixel: where a character's pixels lie and which colour each of them has. */
module ScreenPixels {
  import opened Words
  import opened Raster
  import opened TextGrid
  import opened Fbcon

  /** Red, green, blue and unused byte of a colour 0x00RRGGBB. */
  function Red(rgb: u32): nat { rgb / 0x1_0000 % 256 }
  function Green(rgb: u32): nat { rgb / 256 % 256 }
  function Blue(rgb: u32): nat { rgb % 256 }

  /** v is how a pixel of the format stores the colour: 2 keeps red in the lowest byte, 1 blue. */
  predicate Stores(format: u32, rgb: u32, v: u32) {
    if format == 2 then v % 256 == Red(rgb) && v / 256 % 256 == Green(rgb) && v / 0x1_0000 == Blue(rgb)
    else v == rgb
  }

  lemma NativeStores(format: u32, rgb: u32)
    ensures Stores(format, rgb, ToNative(format, rgb))
  {
    ThreeBytes(Red(rgb), Green(rgb), Blue(rgb));
  }

  /** Bit k of a byte, for k = 0 the lowest. */
  function BitValue(k: nat): nat {
    match k
    case 0 => 1
    case 1 => 2
    case 2 => 4
    case 3 => 8
    case 4 => 16
    case 5 => 32
    case 6 => 64
    case _ => 128
  }

  predicate Ink(bits: u8, k: nat) { bits / BitValue(k) % 2 == 1 }

  lemma Halved(b: nat, k: nat)
    requires 0 < k < 8
    ensures b / 2 / BitValue(k - 1) == b / BitValue(k)
  {
  }

  lemma {:induction false} BitIsInk(bits: u8, k: nat)
    requires k < 8
    ensures BitOf(bits, k) <==> Ink(bits, k)
    decreases k
  {
    if k > 0 {
      BitIsInk(bits / 2, k - 1);
      Halved(bits, k);
      hide BitValue;
    }
  }

  /**
   * Pixel (px, py) of a cell: a glyph has a bit for every two by two pixels, foreground where it is set
   * and background where not; the leftmost is the lowest bit.
   */
  predicate PixelOf(font: Font, format: u32, cell: Cell, px: nat, py: nat, v: u32)
    requires FontOk(font) && py < 16
  {
    match cell
    case Blank(bg) => Stores(format, bg, v)
    case Glyph(ch, fg, bg) => Stores(format, if Ink(font[ch % 128][py / 2], px / 2) then fg else bg, v)
  }

  lemma RenderedPixel(font: Font, format: u32, cell: Cell, px: nat, py: nat)
    requires FontOk(font) && px < 16 && py < 16
    ensures PixelOf(font, format, cell, px, py, Rendering(font, format, cell)[py][px])
  {
    hide Stores, ToNative, BitOf, Ink;
    match cell
    case Blank(bg) => NativeStores(format, bg);
    case Glyph(ch, fg, bg) =>
      NativeStores(format, fg);
      NativeStores(format, bg);
      BitIsInk(font[ch % 128][py / 2], px / 2);
  }

  /**
   * The screen shows the grid: cell (r, c) begins 8 pixels from the edges plus 16 for every cell before
   * it, in scanlines of pitch pixels.
   */
  ghost predicate PlainScreen(s: Pixels, pitch: nat, width: nat, height: nat, font: Font, format: u32,
                              lines: seq<seq<Cell>>)
    requires FontOk(font)
  {
    width >= 16 && height >= 16 &&
    |lines| == (height - 16) / 16 && (forall r :: 0 <= r < |lines| ==> |lines[r]| == (width - 16) / 16) &&
    forall r: nat, c: nat, px: nat, py: nat ::
      r < |lines| && c < |lines[r]| && px < 16 && py < 16 ==> PlainPixel(s, pitch, font, format, lines[r][c], r, c, px, py)
  }

  predicate PlainPixel(s: Pixels, pitch: nat, font: Font, format: u32, cell: Cell, r: nat, c: nat, px: nat, py: nat)
    requires FontOk(font) && py < 16
  {
    var i := (8 + 16 * r + py) * pitch + 8 + 16 * c + px;
    i < |s| && PixelOf(font, format, cell, px, py, s[i])
  }

  lemma ShownPlainly(s: Pixels, g: Geo, font: Font, format: u32, lines: seq<seq<Cell>>)
    requires FontOk(font) && GeoOk(g, |s|) && IsGrid(lines, g.cols, g.rows) && Shows(s, g, font, format, lines)
    ensures PlainScreen(s, g.pitch, g.width, g.height, font, format, lines)
  {
    hide Rendering, PlainPixel, ShowsCell;
    forall r: nat, c: nat, px: nat, py: nat | r < |lines| && c < |lines[r]| && px < 16 && py < 16
      ensures PlainPixel(s, g.pitch, font, format, lines[r][c], r, c, px, py)
    {
      ShownPixel(s, g, font, format, lines[r][c], r, c, px, py);
    }
  }

  lemma ShownPixel(s: Pixels, g: Geo, font: Font, format: u32, cell: Cell, r: nat, c: nat, px: nat, py: nat)
    requires FontOk(font) && GeoOk(g, |s|) && r < g.rows && c < g.cols && px < 16 && py < 16
    requires ShowsCell(s, g.pitch, r, c, Rendering(font, format, cell))
    ensures PlainPixel(s, g.pitch, font, format, cell, r, c, px, py)
  {
    hide Rendering, PixelOf, CellPx, GeoOk, FontOk;
    var i := (8 + 16 * r + py) * g.pitch + 8 + 16 * c + px;
    CellPixel(s, g.pitch, r, c, px, py, Rendering(font, format, cell));
    RenderedPixel(font, format, cell, px, py);
    PixelPlace(s, g, r, c, px, py, i);
    PlainAt(s, g.pitch, font, format, cell, r, c, px, py, i);
  }

  lemma CellPixel(s: Pixels, pitch: nat, r: nat, c: nat, px: nat, py: nat, bm: Bitmap)
    requires IsBitmap(bm, CELL, CELL) && ShowsCell(s, pitch, r, c, bm) && px < 16 && py < 16
    ensures CellPx(s, pitch, r, c, px, py) == bm[py][px]
  {
  }

  lemma PlainAt(s: Pixels, pitch: nat, font: Font, format: u32, cell: Cell, r: nat, c: nat, px: nat, py: nat, i: nat)
    requires FontOk(font) && py < 16 && i == (8 + 16 * r + py) * pitch + 8 + 16 * c + px < |s|
    requires PixelOf(font, format, cell, px, py, s[i])
    ensures PlainPixel(s, pitch, font, format, cell, r, c, px, py)
  {
    hide PixelOf;
  }

  lemma PixelPlace(s: Pixels, g: Geo, r: nat, c: nat, px: nat, py: nat, i: nat)
    requires GeoOk(g, |s|) && r < g.rows && c < g.cols && px < 16 && py < 16
    requires i == (8 + 16 * r + py) * g.pitch + 8 + 16 * c + px
    ensures i < |s| && CellPx(s, g.pitch, r, c, px, py) == s[i]
  {
    CellInside(g, |s|, r, c);
    AtInside(g.pitch, 8 + 16 * c + px, 8 + 16 * r + py, 1, g.height);
  }

  /** What a console that is ready shows, pixel by pixel. */
  lemma ConsoleShows(con: Console)
    requires con.Valid() && con.ready
    ensures PlainScreen(con.fb[..], con.geo.pitch, con.geo.width, con.geo.height, con.font, con.format, con.TextNow().lines)
  {
    ShownPlainly(con.fb[..], con.geo, con.font, con.format, con.lines);
  }
}
