/** The text renderer of src/Graphics/font.c: a glyph cache that pre-renders
    every character at both depths, and the character and string drawers,
    one painting straight from the font's pixel test with given colours and
    one copying pre-rendered rows out of the cache.  The font data itself
    (`font_get_width`, `font_get_height`, `font_get_pixel`) is not part of
    this model and comes in as a `FontFace`. */
module Font {
  import opened Memory
  import opened FramebufferDefs
  import opened Framebuffer
  import opened Raster
  import opened CStrings

  const MaxChars: nat := 256

  /** Palette indices of the 8-bit glyph cache: 2 for ink, 1 for background. */
  const InkIndex: bv8 := 2
  const PaperIndex: bv8 := 1

  /** A font: the width and height of every glyph and its pixel test. */
  datatype FontFace = FontFace(width: Uint32, height: Uint32, pixel: (bv8, nat, nat) -> bool)

  /** `glyph_size_8`: the pixels of one glyph, and the bytes of one 8-bit tile. */
  function GlyphSize(face: FontFace): nat
  {
    face.width * face.height
  }

  /** The cache memory: 256 tiles of 32-bit words followed by 256 tiles of bytes. */
  function CacheLength(face: FontFace): nat
  {
    MaxChars * 4 * GlyphSize(face) + MaxChars * GlyphSize(face)
  }

  /** Where the 8-bit tiles start, in bytes from the start of the cache. */
  function Tiles8Start(face: FontFace): nat
  {
    MaxChars * 4 * GlyphSize(face)
  }

  /** The cell `idx = y * width + x` of character `c`, counted from the start
      of its tile array (in words for the 32-bit tiles, in bytes for the
      8-bit tiles). */
  function CellIndex(face: FontFace, c: bv8, y: nat, x: nat): nat
  {
    var code: nat := c as nat;
    MulMono(0, code, GlyphSize(face));
    MulMono(0, y, face.width);
    code * GlyphSize(face) + y * face.width + x
  }

  /** The colour a glyph pixel gets: `on` where the font sets it, `off` elsewhere. */
  function PixelValue<T>(face: FontFace, c: bv8, x: nat, y: nat, on: T, off: T): T
  {
    if face.pixel(c, x, y) then on else off
  }

  /** A word of the cache, read as zero outside it. */
  function CacheWord(ms: seq<bv8>, i: nat): bv32
  {
    if 4 * i + 4 <= |ms| then WordAt(ms, i) else 0
  }

  /** A byte of the cache, read as zero outside it. */
  function CacheByte(ms: seq<bv8>, i: nat): bv8
  {
    if i < |ms| then ms[i] else 0
  }

  /** One cell of one glyph is pre-rendered at both depths. */
  ghost predicate CellCached(ms: seq<bv8>, face: FontFace, c: bv8, y: nat, x: nat)
  {
    && CacheWord(ms, CellIndex(face, c, y, x)) == PixelValue(face, c, x, y, TextColor, BackColor)
    && CacheByte(ms, Tiles8Start(face) + CellIndex(face, c, y, x)) == PixelValue(face, c, x, y, InkIndex, PaperIndex)
  }

  /** Every cell of every glyph is pre-rendered. */
  ghost predicate CacheHolds(ms: seq<bv8>, face: FontFace)
  {
    forall c: bv8, y: nat, x: nat :: y < face.height && x < face.width ==> CellCached(ms, face, c, y, x)
  }

  /** `(c', y', x')` comes before `(c, y, x)` in the order init_glyph_cache
      visits the cells. */
  predicate LexBefore(c': nat, y': nat, x': nat, c: nat, y: nat, x: nat)
  {
    c' < c || (c' == c && (y' < y || (y' == y && x' < x)))
  }

  /** Every cell visited before `(c, y, x)` is pre-rendered. */
  ghost predicate CachedBefore(ms: seq<bv8>, face: FontFace, c: nat, y: nat, x: nat)
  {
    forall c': bv8, y': nat, x': nat ::
      y' < face.height && x' < face.width && LexBefore(c' as nat, y', x', c, y, x) ==> CellCached(ms, face, c', y', x')
  }

  /** Row-major order: with both low parts below `n`, a lower high part
      gives a lower index. */
  lemma RowMajorLess(hi': nat, lo': nat, hi: nat, lo: nat, n: nat)
    requires lo' < n && hi' < hi
    ensures hi' * n + lo' < hi * n + lo
  {
    MulStep(hi', n);
    MulMono(hi' + 1, hi, n);
  }

  /** A cell of a glyph lies inside the glyph: `y * width + x < width * height`. */
  lemma CellInsideGlyph(face: FontFace, y: nat, x: nat)
    requires y < face.height && x < face.width
    ensures y * face.width + x < GlyphSize(face)
  {
    RowMajorLess(y, x, face.height, 0, face.width);
  }

  /** Cells visited earlier have smaller indices. */
  lemma CellIndexOrder(face: FontFace, c': bv8, y': nat, x': nat, c: bv8, y: nat, x: nat)
    requires y' < face.height && x' < face.width && y < face.height && x < face.width
    requires LexBefore(c' as nat, y', x', c as nat, y, x)
    ensures CellIndex(face, c', y', x') < CellIndex(face, c, y, x)
  {
    var hi', hi := c' as nat, c as nat;
    if hi' < hi {
      CellInsideGlyph(face, y', x');
      IndexOrder(hi', y' * face.width + x', hi, y * face.width + x, GlyphSize(face));
    } else {
      IndexOrder(y', x', y, x, face.width);
    }
  }

  /** The same order, one level of row-major indexing at a time. */
  lemma IndexOrder(hi': nat, lo': nat, hi: nat, lo: nat, n: nat)
    requires lo' < n && LexBefore(0, hi', lo', 0, hi, lo)
    ensures hi' * n + lo' < hi * n + lo
  {
    if hi' < hi {
      RowMajorLess(hi', lo', hi, lo, n);
    }
  }

  /** Every cell index lies inside the 256 tiles. */
  lemma CellIndexBound(face: FontFace, c: bv8, y: nat, x: nat)
    requires y < face.height && x < face.width
    ensures CellIndex(face, c, y, x) < MaxChars * GlyphSize(face)
  {
    CellInsideGlyph(face, y, x);
    RowMajorLess(c as nat, y * face.width + x, MaxChars, 0, GlyphSize(face));
  }

  /** The two stores init_glyph_cache makes for one cell. */
  function StoreCell(ms: seq<bv8>, face: FontFace, c: bv8, y: nat, x: nat): (t: seq<bv8>)
    requires |ms| == CacheLength(face) && y < face.height && x < face.width
    ensures |t| == |ms|
  {
    var i := CellIndex(face, c, y, x);
    CellIndexBound(face, c, y, x);
    PutWord(ms, i, PixelValue(face, c, x, y, TextColor, BackColor))[Tiles8Start(face) + i := PixelValue(face, c, x, y, InkIndex, PaperIndex)]
  }

  /** Two different cells of the tile arrays have different indices. */
  lemma CellIndexDistinct(face: FontFace, c: bv8, y: nat, x: nat, c': bv8, y': nat, x': nat)
    requires y < face.height && x < face.width && y' < face.height && x' < face.width
    requires (c', y', x') != (c, y, x)
    ensures CellIndex(face, c', y', x') != CellIndex(face, c, y, x)
  {
    if LexBefore(c' as nat, y', x', c as nat, y, x) {
      CellIndexOrder(face, c', y', x', c, y, x);
    } else {
      CellIndexOrder(face, c, y, x, c', y', x');
    }
  }

  /** The 32-bit tiles end where the 8-bit tiles begin. */
  lemma WordTilesBeforeByteTiles(face: FontFace, i: nat)
    requires i < MaxChars * GlyphSize(face)
    ensures 4 * i + 4 <= Tiles8Start(face) && Tiles8Start(face) + i < CacheLength(face)
  {
  }

  /** Storing a cell leaves the word and the byte of every other cell as they were. */
  lemma StoreCellKeeps(ms: seq<bv8>, face: FontFace, c: bv8, y: nat, x: nat, j: nat)
    requires |ms| == CacheLength(face) && y < face.height && x < face.width
    requires j < MaxChars * GlyphSize(face) && j != CellIndex(face, c, y, x)
    ensures CacheWord(StoreCell(ms, face, c, y, x), j) == CacheWord(ms, j)
    ensures CacheByte(StoreCell(ms, face, c, y, x), Tiles8Start(face) + j) == CacheByte(ms, Tiles8Start(face) + j)
  {
    var t := StoreCell(ms, face, c, y, x);
    var i := CellIndex(face, c, y, x);
    CellIndexBound(face, c, y, x);
    WordTilesBeforeByteTiles(face, i);
    WordTilesBeforeByteTiles(face, j);
    var v := PixelValue(face, c, x, y, TextColor, BackColor);
    var u := PutWord(ms, i, v);
    assert t == u[Tiles8Start(face) + i := PixelValue(face, c, x, y, InkIndex, PaperIndex)];
    PutWordSpec(ms, i, v);
    PutWordKeepsOtherWords(ms, i, v);
    assert WordAt(u, j) == WordAt(ms, j);
    WordOfEqualBytes(u, t, j);
    assert t[Tiles8Start(face) + j] == u[Tiles8Start(face) + j];
  }

  /** Storing a cell pre-renders it. */
  lemma StoreCellWrites(ms: seq<bv8>, face: FontFace, c: bv8, y: nat, x: nat)
    requires |ms| == CacheLength(face) && y < face.height && x < face.width
    ensures CellCached(StoreCell(ms, face, c, y, x), face, c, y, x)
  {
    var t := StoreCell(ms, face, c, y, x);
    var i := CellIndex(face, c, y, x);
    CellIndexBound(face, c, y, x);
    WordTilesBeforeByteTiles(face, i);
    var v := PixelValue(face, c, x, y, TextColor, BackColor);
    var u := PutWord(ms, i, v);
    assert t == u[Tiles8Start(face) + i := PixelValue(face, c, x, y, InkIndex, PaperIndex)];
    PutWordSpec(ms, i, v);
    WordOfEqualBytes(u, t, i);
  }

  /** Storing a cell pre-renders it and keeps every other cell as it was. */
  lemma StoreCellStep(ms: seq<bv8>, face: FontFace, c: bv8, y: nat, x: nat, c': bv8, y': nat, x': nat)
    requires |ms| == CacheLength(face) && y < face.height && x < face.width
    requires y' < face.height && x' < face.width
    requires CellCached(ms, face, c', y', x') || (c', y', x') == (c, y, x)
    ensures CellCached(StoreCell(ms, face, c, y, x), face, c', y', x')
  {
    if (c', y', x') == (c, y, x) {
      StoreCellWrites(ms, face, c, y, x);
    } else {
      CellIndexDistinct(face, c, y, x, c', y', x');
      CellIndexBound(face, c', y', x');
      StoreCellKeeps(ms, face, c, y, x, CellIndex(face, c', y', x'));
    }
  }

  /** Storing the cell at `(c, y, x)` extends the cached prefix past it. */
  lemma CachedBeforeStep(ms: seq<bv8>, face: FontFace, c: bv8, y: nat, x: nat)
    requires |ms| == CacheLength(face) && y < face.height && x < face.width
    requires CachedBefore(ms, face, c as nat, y, x)
    ensures CachedBefore(StoreCell(ms, face, c, y, x), face, c as nat, y, x + 1)
  {
    forall c': bv8, y': nat, x': nat |
      y' < face.height && x' < face.width && LexBefore(c' as nat, y', x', c as nat, y, x + 1)
      ensures CellCached(StoreCell(ms, face, c, y, x), face, c', y', x')
    {
      if c' != c || y' != y || x' != x {
        assert LexBefore(c' as nat, y', x', c as nat, y, x);
        assert CellCached(ms, face, c', y', x');
      }
      StoreCellStep(ms, face, c, y, x, c', y', x');
    }
  }

  /** Nothing is visited before the first cell. */
  lemma CachedBeforeStart(ms: seq<bv8>, face: FontFace)
    ensures CachedBefore(ms, face, 0, 0, 0)
  {
  }

  /** Past the last column the next row begins; past the last row the next
      character begins; past the last character every glyph is cached. */
  lemma CachedBeforeNextRow(ms: seq<bv8>, face: FontFace, c: nat, y: nat)
    requires CachedBefore(ms, face, c, y, face.width)
    ensures CachedBefore(ms, face, c, y + 1, 0)
  {
  }

  lemma CachedBeforeNextChar(ms: seq<bv8>, face: FontFace, c: nat)
    requires CachedBefore(ms, face, c, face.height, 0)
    ensures CachedBefore(ms, face, c + 1, 0, 0)
  {
  }

  lemma CachedBeforeAll(ms: seq<bv8>, face: FontFace)
    requires CachedBefore(ms, face, MaxChars, 0, 0)
    ensures CacheHolds(ms, face)
  {
    forall c: bv8, y: nat, x: nat | y < face.height && x < face.width
      ensures CellCached(ms, face, c, y, x)
    {
      assert LexBefore(c as nat, y, x, MaxChars, 0, 0);
    }
  }

  /** The tile of glyph `c` with `on` for set pixels and `off` for the
      others, row by row: what draw_char_colored paints. */
  function GlyphTile<T>(face: FontFace, c: bv8, on: T, off: T): (tile: seq<seq<T>>)
    ensures TileCovers(tile, face.width, face.height) && |tile| == face.height
  {
    seq(face.height, y requires 0 <= y => seq(face.width, x requires 0 <= x => PixelValue(face, c, x, y, on, off)))
  }

  /** `n` consecutive words of the cache from word `base`: one source line. */
  function CacheLine32(ms: seq<bv8>, base: nat, n: nat): (line: seq<bv32>)
    ensures |line| == n
  {
    seq(n, i requires 0 <= i => CacheWord(ms, base + i))
  }

  function CacheLine8(ms: seq<bv8>, base: nat, n: nat): (line: seq<bv8>)
    ensures |line| == n
  {
    seq(n, i requires 0 <= i => CacheByte(ms, base + i))
  }

  /** The tile draw_char copies for `c`: row `y` is the line at
      `glyph_cache_32bpp[c] + y * width` (and the same for 8 bits). */
  function CacheTile32(ms: seq<bv8>, face: FontFace, c: bv8): (tile: seq<seq<bv32>>)
    ensures TileCovers(tile, face.width, face.height) && |tile| == face.height
  {
    seq(face.height, y requires 0 <= y => CacheLine32(ms, CellIndex(face, c, y, 0), face.width))
  }

  function CacheTile8(ms: seq<bv8>, face: FontFace, c: bv8): (tile: seq<seq<bv8>>)
    ensures TileCovers(tile, face.width, face.height) && |tile| == face.height
  {
    seq(face.height, y requires 0 <= y => CacheLine8(ms, Tiles8Start(face) + CellIndex(face, c, y, 0), face.width))
  }

  /** Once the cache holds, the tiles copied out of it are the glyphs painted
      in TEXT_COLOR on BACK_COLOR, and in palette index 2 on index 1. */
  lemma {:induction false} CachedTilesAreGlyphs(ms: seq<bv8>, face: FontFace, c: bv8)
    requires CacheHolds(ms, face)
    ensures CacheTile32(ms, face, c) == GlyphTile(face, c, TextColor, BackColor)
    ensures CacheTile8(ms, face, c) == GlyphTile(face, c, InkIndex, PaperIndex)
  {
    var a32, b32 := CacheTile32(ms, face, c), GlyphTile(face, c, TextColor, BackColor);
    var a8, b8 := CacheTile8(ms, face, c), GlyphTile(face, c, InkIndex, PaperIndex);
    forall y | 0 <= y < face.height
      ensures a32[y] == b32[y] && a8[y] == b8[y]
    {
      forall x | 0 <= x < face.width
        ensures a32[y][x] == b32[y][x] && a8[y][x] == b8[y][x]
      {
        assert CellCached(ms, face, c, y, x);
        assert CellIndex(face, c, y, 0) + x == CellIndex(face, c, y, x);
      }
    }
  }

  /** How a character is painted: copied out of the glyph cache, or painted
      from the pixel test in two colours. */
  datatype Pen = Cached(ms: seq<bv8>) | Colors(text: bv32, bg: bv32)

  /** The 32-bit tile a pen paints for `c`. */
  function PenTile32(pen: Pen, face: FontFace, c: bv8): (tile: seq<seq<bv32>>)
    ensures TileCovers(tile, face.width, face.height)
  {
    match pen
    case Cached(ms) => CacheTile32(ms, face, c)
    case Colors(text, bg) => GlyphTile(face, c, text, bg)
  }

  /** The 8-bit tile a pen paints for `c`: the colours' low bytes. */
  function PenTile8(pen: Pen, face: FontFace, c: bv8): (tile: seq<seq<bv8>>)
    ensures TileCovers(tile, face.width, face.height)
  {
    match pen
    case Cached(ms) => CacheTile8(ms, face, c)
    case Colors(text, bg) => GlyphTile(face, c, (text & 0xFF) as bv8, (bg & 0xFF) as bv8)
  }

  /** The bounds check of both character drawers, with the sums taken as
      plain numbers: a cell that does not fit the resolution is skipped. */
  predicate CellRejected(r: FbRequest, face: FontFace, x: Uint32, y: Uint32)
  {
    x + face.width > r.res.xres || y + face.height > r.res.yres
  }

  /** The same check as font.c:60-61 and 108-109 write it, with the sums
      taken in `u32` and so wrapping modulo 2^32. */
  predicate CellRejectedAsWritten(r: FbRequest, face: FontFace, x: Uint32, y: Uint32)
  {
    Add32(x, face.width) > r.res.xres || Add32(y, face.height) > r.res.yres
  }

  /** The two checks agree whenever neither sum wraps. */
  lemma RejectionAgreesWithoutWrap(r: FbRequest, face: FontFace, x: Uint32, y: Uint32)
    requires x + face.width < U32Limit && y + face.height < U32Limit
    ensures CellRejectedAsWritten(r, face, x, y) <==> CellRejected(r, face, x, y)
  {
  }

  /** The check as written lets an 8x16 glyph at x = 0xFFFFFFFF through on a
      640x480 screen: the sum wraps to 7.  The first store then goes to word
      0xFFFFFFFF of the draw buffer, far beyond its 4 MB. */
  lemma AsWrittenCheckLetsWrappedCellThrough()
    ensures var face := FontFace(8, 16, (c: bv8, x: nat, y: nat) => true);
            var r := FbRequest(FbSize(NoTagValue, 640, 480), FbSize(NoTagValue, 640, 480),
                               FbDepth(NoTagValue, 32), FbBuffer(NoTagValue, 0, 640 * 480 * 4),
                               FbPitch(NoTagValue, 640 * 4));
            && ModeFits(r)
            && !CellRejectedAsWritten(r, face, 0xFFFF_FFFF, 0)
            && CellRejected(r, face, 0xFFFF_FFFF, 0)
            && 4 * BoxWord(0xFFFF_FFFF, 0, r.pitch.pitch / 4, 0, 0) + 4 > VbSize
  {
  }

  /** A cell that passes the check lies inside the mode's screen: every
      element the depth addresses is inside a buffer of `len >= screen_size`
      bytes, and rows are no wider than the pitch. */
  lemma CellInside(r: FbRequest, face: FontFace, x: Uint32, y: Uint32, len: nat)
    requires ModeFits(r) && r.buff.screenSize <= len && !CellRejected(r, face, x, y)
    ensures r.depth.bpp == 32 ==>
      BoxFits(x, y, face.width, face.height, r.pitch.pitch / 4, len) && face.width <= r.pitch.pitch / 4
    ensures r.depth.bpp == 8 ==>
      CellFits8(x, y, face.width, face.height, r.pitch.pitch, len) && face.width <= r.pitch.pitch
  {
    var pitch := r.pitch.pitch;
    if r.depth.bpp == 32 {
      forall row, col | 0 <= row < face.height && 0 <= col < face.width
        ensures 4 * BoxWord(x, y, pitch / 4, row, col) + 4 <= len
      {
        RowMajorInside(4, pitch / 4, pitch, x + col, y + row, r.res.yres);
      }
    } else if r.depth.bpp == 8 {
      forall row, col | 0 <= row < face.height && 0 <= col < face.width
        ensures BoxWord(x, y, pitch, row, col) < len
      {
        RowMajorInside(1, pitch, pitch, x + col, y + row, r.res.yres);
      }
    }
  }

  /** One character drawn into `s` with the mode `r`: nothing before the
      cache is initialised, nothing for a cell that fails the bounds check,
      the 32-bit tile at 32 bpp, the 8-bit tile at 8 bpp and nothing at any
      other depth. */
  function CharEffect(s: seq<bv8>, r: FbRequest, face: FontFace, ready: bool, x: Uint32, y: Uint32,
                      tile32: seq<seq<bv32>>, tile8: seq<seq<bv8>>): (t: seq<bv8>)
    requires ModeFits(r) && r.buff.screenSize <= |s|
    requires TileCovers(tile32, face.width, face.height) && TileCovers(tile8, face.width, face.height)
    ensures |t| == |s|
  {
    if !ready || CellRejected(r, face, x, y) then s
    else
      CellInside(r, face, x, y, |s|);
      if r.depth.bpp == 32 then CellPaint32(s, x, y, r.pitch.pitch / 4, face.width, face.height, tile32)
      else if r.depth.bpp == 8 then CellPaint8(s, x, y, r.pitch.pitch, face.width, face.height, tile8)
      else s
  }

  /** A skipped character changes nothing: before the cache is initialised,
      when the cell fails the bounds check, and at a depth other than 32 or 8. */
  lemma CharEffectSkips(s: seq<bv8>, r: FbRequest, face: FontFace, ready: bool, x: Uint32, y: Uint32,
                        tile32: seq<seq<bv32>>, tile8: seq<seq<bv8>>)
    requires ModeFits(r) && r.buff.screenSize <= |s|
    requires TileCovers(tile32, face.width, face.height) && TileCovers(tile8, face.width, face.height)
    requires !ready || CellRejected(r, face, x, y) || (r.depth.bpp != 32 && r.depth.bpp != 8)
    ensures CharEffect(s, r, face, ready, x, y, tile32, tile8) == s
  {
  }

  /** A character drawn at 32 bpp holds its tile in every word of its cell. */
  lemma CharEffectPaints32(s: seq<bv8>, r: FbRequest, face: FontFace, ready: bool, x: Uint32, y: Uint32,
                           tile32: seq<seq<bv32>>, tile8: seq<seq<bv8>>, row: nat, col: nat)
    requires ModeFits(r) && r.buff.screenSize <= |s|
    requires TileCovers(tile32, face.width, face.height) && TileCovers(tile8, face.width, face.height)
    requires ready && !CellRejected(r, face, x, y) && r.depth.bpp == 32
    requires row < face.height && col < face.width
    ensures 4 * BoxWord(x, y, r.pitch.pitch / 4, row, col) + 4 <= |s|
    ensures WordAt(CharEffect(s, r, face, ready, x, y, tile32, tile8), BoxWord(x, y, r.pitch.pitch / 4, row, col))
            == tile32[row][col]
  {
    CellInside(r, face, x, y, |s|);
    CellPaint32Value(s, x, y, r.pitch.pitch / 4, face.width, face.height, tile32, row, col);
  }

  /** A character drawn at 8 bpp holds its tile in every byte of its cell. */
  lemma CharEffectPaints8(s: seq<bv8>, r: FbRequest, face: FontFace, ready: bool, x: Uint32, y: Uint32,
                          tile32: seq<seq<bv32>>, tile8: seq<seq<bv8>>, row: nat, col: nat)
    requires ModeFits(r) && r.buff.screenSize <= |s|
    requires TileCovers(tile32, face.width, face.height) && TileCovers(tile8, face.width, face.height)
    requires ready && !CellRejected(r, face, x, y) && r.depth.bpp == 8
    requires row < face.height && col < face.width
    ensures BoxWord(x, y, r.pitch.pitch, row, col) < |s|
    ensures CharEffect(s, r, face, ready, x, y, tile32, tile8)[BoxWord(x, y, r.pitch.pitch, row, col)] == tile8[row][col]
  {
    CellInside(r, face, x, y, |s|);
    CellPaint8Value(s, x, y, r.pitch.pitch, face.width, face.height, tile8, row, col);
  }

  /** A drawn character changes nothing outside its cell. */
  lemma CharEffectFrame(s: seq<bv8>, r: FbRequest, face: FontFace, ready: bool, x: Uint32, y: Uint32,
                        tile32: seq<seq<bv32>>, tile8: seq<seq<bv8>>)
    requires ModeFits(r) && r.buff.screenSize <= |s|
    requires TileCovers(tile32, face.width, face.height) && TileCovers(tile8, face.width, face.height)
    ensures var t := CharEffect(s, r, face, ready, x, y, tile32, tile8);
      && (r.depth.bpp == 32 ==> forall k: nat :: 4 * k + 4 <= |s| && !InBox(k, x, y, face.width, face.height, r.pitch.pitch / 4) ==>
            WordAt(t, k) == WordAt(s, k))
      && (r.depth.bpp != 32 ==> forall k :: 0 <= k < |s| && !InBox(k, x, y, face.width, face.height, r.pitch.pitch) ==>
            t[k] == s[k])
  {
    if ready && !CellRejected(r, face, x, y) {
      CellInside(r, face, x, y, |s|);
      if r.depth.bpp == 32 {
        CellPaint32Frame(s, x, y, r.pitch.pitch / 4, face.width, face.height, tile32);
      } else if r.depth.bpp == 8 {
        CellPaint8Frame(s, x, y, r.pitch.pitch, face.width, face.height, tile8);
      }
    }
  }

  /** With the cache filled, draw_char paints what draw_char_colored paints
      with TEXT_COLOR on BACK_COLOR, except at 8 bpp, where it paints palette
      indices 2 and 1 (draw_char_colored would store the colours' low bytes). */
  lemma {:induction false} CachedCharMatchesColoredChar(s: seq<bv8>, r: FbRequest, face: FontFace, ready: bool,
                                                        ms: seq<bv8>, c: bv8, x: Uint32, y: Uint32)
    requires ModeFits(r) && r.buff.screenSize <= |s| && CacheHolds(ms, face)
    ensures CharEffect(s, r, face, ready, x, y, PenTile32(Cached(ms), face, c), PenTile8(Cached(ms), face, c))
         == CharEffect(s, r, face, ready, x, y, PenTile32(CachePen(r), face, c), PenTile8(CachePen(r), face, c))
  {
    CachedTilesAreGlyphs(ms, face, c);
    assert (InkIndex as bv32 & 0xFF) as bv8 == InkIndex && (PaperIndex as bv32 & 0xFF) as bv8 == PaperIndex;
    if r.depth.bpp == 8 {
      assert PenTile8(CachePen(r), face, c) == GlyphTile(face, c, InkIndex, PaperIndex);
    }
  }

  /** The colours the cache was filled with, as draw_char_colored arguments. */
  function CachePen(r: FbRequest): (pen: Pen)
    ensures pen.Colors?
  {
    if r.depth.bpp == 8 then Colors(InkIndex as bv32, PaperIndex as bv32) else Colors(TextColor, BackColor)
  }

  /** One character of a string and the place it is drawn. */
  datatype Cell = Cell(c: bv8, x: Uint32, y: Uint32)

  /** The pen position after a character: `x += width + 2`, and when the
      next glyph would reach the right edge (`x + width >= xres`) back to
      the start column one line (`height + 2`) down; all in `u32`. */
  function NextPosition(x: Uint32, y: Uint32, posX: Uint32, face: FontFace, xres: Uint32): (p: (Uint32, Uint32))
  {
    var nx := Add32(x, Add32(face.width, 2));
    if Add32(nx, face.width) >= xres then (posX, Add32(y, Add32(face.height, 2))) else (nx, y)
  }

  /** The cells of a string drawn from `(x, y)`, wrapping back to `posX`. */
  function Layout(text: seq<bv8>, x: Uint32, y: Uint32, posX: Uint32, face: FontFace, xres: Uint32): (cells: seq<Cell>)
    ensures |cells| == |text|
    ensures forall i :: 0 <= i < |text| ==> cells[i].c == text[i]
    ensures |text| > 0 ==> cells[0].x == x && cells[0].y == y
    decreases |text|
  {
    if |text| == 0 then []
    else
      var p := NextPosition(x, y, posX, face, xres);
      [Cell(text[0], x, y)] + Layout(text[1..], p.0, p.1, posX, face, xres)
  }

  /** Each cell after the first either follows its predecessor on the same
      line, `width + 2` further right and clear of the right edge, or starts
      a new line at `posX`, `height + 2` lower, exactly when the advanced
      position would have reached the edge. */
  lemma {:induction false} LayoutStep(text: seq<bv8>, x: Uint32, y: Uint32, posX: Uint32, face: FontFace,
                                      xres: Uint32, i: nat)
    requires 0 < i < |text|
    ensures var cells := Layout(text, x, y, posX, face, xres);
      var nx := Add32(cells[i - 1].x, Add32(face.width, 2));
      && (Add32(nx, face.width) < xres ==> cells[i].x == nx && cells[i].y == cells[i - 1].y)
      && (Add32(nx, face.width) >= xres ==>
            cells[i].x == posX && cells[i].y == Add32(cells[i - 1].y, Add32(face.height, 2)))
    decreases i
  {
    var p := NextPosition(x, y, posX, face, xres);
    var cells := Layout(text, x, y, posX, face, xres);
    var rest := Layout(text[1..], p.0, p.1, posX, face, xres);
    assert cells == [Cell(text[0], x, y)] + rest;
    assert cells[i] == rest[i - 1];
    if i > 1 {
      assert cells[i - 1] == rest[i - 2];
      LayoutStep(text[1..], p.0, p.1, posX, face, xres, i - 1);
    }
  }

  /** The draws of a sequence of cells, one after the other. */
  function CellsEffect(s: seq<bv8>, r: FbRequest, face: FontFace, ready: bool, cells: seq<Cell>, pen: Pen): (t: seq<bv8>)
    requires ModeFits(r) && r.buff.screenSize <= |s|
    ensures |t| == |s|
    decreases |cells|
  {
    if |cells| == 0 then s
    else
      var last := cells[|cells| - 1];
      CharEffect(CellsEffect(s, r, face, ready, cells[..|cells| - 1], pen), r, face, ready, last.x, last.y,
                 PenTile32(pen, face, last.c), PenTile8(pen, face, last.c))
  }

  /** Walking the text: the cell of character `i` sits at the pen, and the
      rest of the text is laid out from the next pen position. */
  lemma LayoutNext(text: seq<bv8>, i: nat, n: nat, x: Uint32, y: Uint32, posX: Uint32, face: FontFace, xres: Uint32,
                   cells: seq<Cell>)
    requires i < n <= |text| && |cells| == n && Layout(text[i..n], x, y, posX, face, xres) == cells[i..]
    ensures cells[i] == Cell(text[i], x, y)
    ensures var p := NextPosition(x, y, posX, face, xres);
      Layout(text[i + 1..n], p.0, p.1, posX, face, xres) == cells[i + 1..]
  {
    assert text[i..n][1..] == text[i + 1..n];
    assert cells[i..][1..] == cells[i + 1..];
  }

  /** Drawing one more cell draws it over what the earlier cells drew. */
  lemma CellsEffectNext(s: seq<bv8>, r: FbRequest, face: FontFace, ready: bool, cells: seq<Cell>, i: nat, pen: Pen,
                        prev: seq<bv8>)
    requires ModeFits(r) && r.buff.screenSize <= |s| && i < |cells|
    requires prev == CellsEffect(s, r, face, ready, cells[..i], pen)
    ensures CellsEffect(s, r, face, ready, cells[..i + 1], pen)
         == CharEffect(prev, r, face, ready, cells[i].x, cells[i].y, PenTile32(pen, face, cells[i].c),
                       PenTile8(pen, face, cells[i].c))
  {
    assert cells[..i + 1][..i] == cells[..i];
  }

  /** With the cache filled, draw_string paints what draw_string_colored
      paints with the cache's own colours. */
  lemma {:induction false} CachedStringMatchesColoredString(s: seq<bv8>, r: FbRequest, face: FontFace, ready: bool,
                                                            ms: seq<bv8>, cells: seq<Cell>)
    requires ModeFits(r) && r.buff.screenSize <= |s| && CacheHolds(ms, face)
    ensures CellsEffect(s, r, face, ready, cells, Cached(ms)) == CellsEffect(s, r, face, ready, cells, CachePen(r))
    decreases |cells|
  {
    if |cells| > 0 {
      var last := cells[|cells| - 1];
      CachedStringMatchesColoredString(s, r, face, ready, ms, cells[..|cells| - 1]);
      CachedCharMatchesColoredChar(CellsEffect(s, r, face, ready, cells[..|cells| - 1], Cached(ms)),
                                   r, face, ready, ms, last.c, last.x, last.y);
    }
  }
}
