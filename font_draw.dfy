/** The drawing code of src/Graphics/font.c: the loops of the character
    drawers, which paint a glyph from the font's pixel test or copy it row by
    row out of the glyph cache, and the glyph cache object itself, with the
    pass that fills it and the string drawers. */
module FontDraw {
  import opened Memory
  import opened FramebufferDefs
  import opened Framebuffer
  import opened Raster
  import opened CStrings
  import opened Font

  /** The tile of a glyph holds the pixel test's colour at every cell. */
  lemma GlyphTileValue<T>(face: FontFace, c: bv8, on: T, off: T, row: nat, col: nat)
    requires row < face.height && col < face.width
    ensures GlyphTile(face, c, on, off)[row][col] == PixelValue(face, c, col, row, on, off)
  {
  }

  /** One pixel of draw_char_colored at 32 bpp: `on` where the font sets
      the pixel, `off` elsewhere. */
  method PaintPixel32(dst: array<bv8>, base: nat, face: FontFace, c: bv8, row: nat, col: nat, on: bv32, off: bv32,
                      ghost s0: seq<bv8>)
    requires row < face.height && col < face.width && 4 * (base + face.width) <= dst.Length && |s0| == dst.Length
    requires dst[..] == RowPaint32(s0, base, col, GlyphTile(face, c, on, off)[row])
    modifies dst
    ensures dst[..] == RowPaint32(s0, base, col + 1, GlyphTile(face, c, on, off)[row])
  {
    var v := if face.pixel(c, col, row) then on else off;
    GlyphTileValue(face, c, on, off, row, col);
    RowPaint32Next(s0, base, col, GlyphTile(face, c, on, off)[row], v, dst[..]);
    StoreWord(dst, base + col, v);
  }

  /** One row of the 32-bpp branch of draw_char_colored. */
  method PaintRow32(dst: array<bv8>, base: nat, face: FontFace, c: bv8, row: nat, on: bv32, off: bv32)
    requires row < face.height && (face.width > 0 ==> 4 * (base + face.width) <= dst.Length)
    modifies dst
    ensures dst[..] == RowPaint32(old(dst[..]), base, face.width, GlyphTile(face, c, on, off)[row])
  {
    ghost var s0 := dst[..];
    ghost var line := GlyphTile(face, c, on, off)[row];
    var col: nat := 0;
    while col < face.width
      invariant col <= face.width
      invariant dst[..] == RowPaint32(s0, base, col, line)
    {
      PaintPixel32(dst, base, face, c, row, col, on, off, s0);
      col := col + 1;
    }
  }

  /** Row `row` of the 32-bpp branch of draw_char_colored. */
  method PaintCellRow32(dst: array<bv8>, x: nat, y: nat, pitchWords: nat, face: FontFace, c: bv8, on: bv32, off: bv32,
                        row: nat, ghost s0: seq<bv8>)
    requires row < face.height && |s0| == dst.Length && BoxFits(x, y, face.width, row + 1, pitchWords, dst.Length)
    requires dst[..] == CellPaint32(s0, x, y, pitchWords, face.width, row, GlyphTile(face, c, on, off))
    modifies dst
    ensures dst[..] == CellPaint32(s0, x, y, pitchWords, face.width, row + 1, GlyphTile(face, c, on, off))
  {
    CellPaint32Step(s0, x, y, pitchWords, face.width, row, GlyphTile(face, c, on, off));
    MulMono(0, y + row, pitchWords);
    PaintRow32(dst, BoxWord(x, y, pitchWords, row, 0), face, c, row, on, off);
  }

  /** The 32-bpp branch of draw_char_colored: every row of the glyph, each
      pixel painted `on` or `off` by the font's pixel test. */
  method PaintCell32(dst: array<bv8>, x: nat, y: nat, pitchWords: nat, face: FontFace, c: bv8, on: bv32, off: bv32)
    requires BoxFits(x, y, face.width, face.height, pitchWords, dst.Length)
    modifies dst
    ensures dst[..] == CellPaint32(old(dst[..]), x, y, pitchWords, face.width, face.height, GlyphTile(face, c, on, off))
  {
    ghost var s0 := dst[..];
    ghost var tile := GlyphTile(face, c, on, off);
    var row: nat := 0;
    while row < face.height
      invariant row <= face.height && BoxFits(x, y, face.width, row, pitchWords, dst.Length)
      invariant dst[..] == CellPaint32(s0, x, y, pitchWords, face.width, row, tile)
    {
      BoxFitsFewerRows(x, y, face.width, row + 1, face.height, pitchWords, dst.Length);
      PaintCellRow32(dst, x, y, pitchWords, face, c, on, off, row, s0);
      row := row + 1;
    }
  }

  /** One row of the 8-bpp branch of draw_char_colored. */
  method PaintRow8(dst: array<bv8>, base: nat, face: FontFace, c: bv8, row: nat, on: bv8, off: bv8)
    requires row < face.height && (face.width > 0 ==> base + face.width <= dst.Length)
    modifies dst
    ensures dst[..] == RowPaint8(old(dst[..]), base, face.width, GlyphTile(face, c, on, off)[row])
  {
    ghost var s0 := dst[..];
    ghost var line := GlyphTile(face, c, on, off)[row];
    var col: nat := 0;
    while col < face.width
      invariant col <= face.width
      invariant dst[..] == RowPaint8(s0, base, col, line)
    {
      GlyphTileValue(face, c, on, off, row, col);
      dst[base + col] := if face.pixel(c, col, row) then on else off;
      col := col + 1;
    }
  }

  /** The 8-bpp branch of draw_char_colored. */
  method PaintCell8(dst: array<bv8>, x: nat, y: nat, pitch: nat, face: FontFace, c: bv8, on: bv8, off: bv8)
    requires CellFits8(x, y, face.width, face.height, pitch, dst.Length)
    modifies dst
    ensures dst[..] == CellPaint8(old(dst[..]), x, y, pitch, face.width, face.height, GlyphTile(face, c, on, off))
  {
    ghost var s0 := dst[..];
    ghost var tile := GlyphTile(face, c, on, off);
    var row: nat := 0;
    while row < face.height
      invariant row <= face.height && CellFits8(x, y, face.width, row, pitch, dst.Length)
      invariant dst[..] == CellPaint8(s0, x, y, pitch, face.width, row, tile)
    {
      CellFits8FewerRows(x, y, face.width, row + 1, face.height, pitch, dst.Length);
      CellPaint8Step(s0, x, y, pitch, face.width, row, tile);
      MulMono(0, y + row, pitch);
      PaintRow8(dst, BoxWord(x, y, pitch, row, 0), face, c, row, on, off);
      row := row + 1;
    }
  }

  /** Inside the cache, a line of the cache holds the cache's words. */
  lemma CacheLineWord(ms: seq<bv8>, base: nat, n: nat, k: nat)
    requires k < n && 4 * (base + n) <= |ms|
    ensures CacheLine32(ms, base, n)[k] == WordAt(ms, base + k)
  {
    assert CacheLine32(ms, base, n)[k] == CacheWord(ms, base + k);
  }

  lemma CacheLineByte(ms: seq<bv8>, base: nat, n: nat, k: nat)
    requires k < n && base + n <= |ms|
    ensures CacheLine8(ms, base, n)[k] == ms[base + k]
  {
    assert CacheLine8(ms, base, n)[k] == CacheByte(ms, base + k);
  }

  /** The words `base .. base + n - 1` of `src`, in order, are `line`. */
  predicate LineOfWords(line: seq<bv32>, src: seq<bv8>, base: nat, n: nat)
  {
    && |line| == n && 4 * (base + n) <= |src|
    && forall w: nat {:trigger WordAt(src, w)} :: base <= w < base + n ==> line[w - base] == WordAt(src, w)
  }

  /** `dest[k] = src_line[k]` for 32-bit words. */
  method CopyWord32(dst: array<bv8>, dBase: nat, src: seq<bv8>, sBase: nat, k: nat, ghost line: seq<bv32>,
                    ghost s0: seq<bv8>)
    requires LineOfWords(line, src, sBase, |line|) && k < |line|
    requires |s0| == dst.Length && 4 * (dBase + |line|) <= dst.Length
    requires dst[..] == RowPaint32(s0, dBase, k, line)
    modifies dst
    ensures dst[..] == RowPaint32(s0, dBase, k + 1, line)
  {
    var v := WordAt(src, sBase + k);
    StoreLineWord(dst, dBase, k, v, line, s0);
  }

  /** The store of one word of a row copy. */
  method StoreLineWord(dst: array<bv8>, dBase: nat, k: nat, v: bv32, ghost line: seq<bv32>, ghost s0: seq<bv8>)
    requires k < |line| && |s0| == dst.Length && 4 * (dBase + k + 1) <= dst.Length
    requires line[k] == v && dst[..] == RowPaint32(s0, dBase, k, line)
    modifies dst
    ensures dst[..] == RowPaint32(s0, dBase, k + 1, line)
  {
    RowPaint32Next(s0, dBase, k, line, v, dst[..]);
    StoreWord(dst, dBase + k, v);
  }

  /** The four word copies of one turn of the unrolled loop. */
  method CopyFourWords32(dst: array<bv8>, dBase: nat, src: seq<bv8>, sBase: nat, k: nat, ghost line: seq<bv32>,
                         ghost s0: seq<bv8>)
    requires LineOfWords(line, src, sBase, |line|) && k + 4 <= |line|
    requires |s0| == dst.Length && 4 * (dBase + |line|) <= dst.Length
    requires dst[..] == RowPaint32(s0, dBase, k, line)
    modifies dst
    ensures dst[..] == RowPaint32(s0, dBase, k + 4, line)
  {
    CopyWord32(dst, dBase, src, sBase, k, line, s0);
    CopyWord32(dst, dBase, src, sBase, k + 1, line, s0);
    CopyWord32(dst, dBase, src, sBase, k + 2, line, s0);
    CopyWord32(dst, dBase, src, sBase, k + 3, line, s0);
  }

  /** The unrolled loop of draw_char's 32-bpp row copy: four words a turn
      while at least four remain; returns how many it copied. */
  method CopyQuads32(dst: array<bv8>, dBase: nat, src: seq<bv8>, sBase: nat, n: nat, ghost line: seq<bv32>)
    returns (done: nat)
    requires LineOfWords(line, src, sBase, n) && 4 * (dBase + n) <= dst.Length
    modifies dst
    ensures done <= n < done + 4
    ensures dst[..] == RowPaint32(old(dst[..]), dBase, done, line)
  {
    ghost var s0 := dst[..];
    done := 0;
    var width: nat := n;
    while width >= 4
      invariant done + width == n
      invariant dst[..] == RowPaint32(s0, dBase, done, line)
    {
      CopyFourWords32(dst, dBase, src, sBase, done, line, s0);
      done := done + 4;
      width := width - 4;
    }
  }

  /** The loop that copies the words left over after the unrolled loop,
      one at a time. */
  method CopyTail32(dst: array<bv8>, dBase: nat, src: seq<bv8>, sBase: nat, n: nat, start: nat,
                    ghost line: seq<bv32>, ghost s0: seq<bv8>)
    requires LineOfWords(line, src, sBase, n) && start <= n
    requires |s0| == dst.Length && 4 * (dBase + n) <= dst.Length
    requires dst[..] == RowPaint32(s0, dBase, start, line)
    modifies dst
    ensures dst[..] == RowPaint32(s0, dBase, n, line)
  {
    var done := start;
    var width: nat := n - start;
    while width > 0
      invariant done + width == n
      invariant dst[..] == RowPaint32(s0, dBase, done, line)
    {
      CopyWord32(dst, dBase, src, sBase, done, line, s0);
      done := done + 1;
      width := width - 1;
    }
  }

  /** The row copy of draw_char at 32 bpp: the unrolled loop, then the
      remaining words one at a time. */
  method CopyRow32(dst: array<bv8>, dBase: nat, src: seq<bv8>, sBase: nat, n: nat, ghost line: seq<bv32>)
    requires n > 0 ==> 4 * (dBase + n) <= dst.Length && LineOfWords(line, src, sBase, n)
    requires n == 0 ==> line == []
    modifies dst
    ensures dst[..] == RowPaint32(old(dst[..]), dBase, n, line)
  {
    if n == 0 {
      return;
    }
    ghost var s0 := dst[..];
    var done := CopyQuads32(dst, dBase, src, sBase, n, line);
    CopyTail32(dst, dBase, src, sBase, n, done, line, s0);
  }

  /** A line of the cache inside the cache is the cache's words there. */
  lemma CacheLineIsWords(ms: seq<bv8>, base: nat, n: nat)
    requires 4 * (base + n) <= |ms|
    ensures LineOfWords(CacheLine32(ms, base, n), ms, base, n)
  {
    forall w: nat | base <= w < base + n
      ensures CacheLine32(ms, base, n)[w - base] == WordAt(ms, w)
    {
      CacheLineWord(ms, base, n, w - base);
    }
  }

  /** Row `row` of a 32-bit cache tile is the cache's words from the row's
      first cell on. */
  lemma CacheTileRowIsWords(ms: seq<bv8>, face: FontFace, c: bv8, row: nat)
    requires |ms| == CacheLength(face) && row < face.height
    ensures var line := CacheTile32(ms, face, c)[row];
      && (face.width > 0 ==> LineOfWords(line, ms, CellIndex(face, c, row, 0), face.width))
      && (face.width == 0 ==> line == [])
  {
    var base := CellIndex(face, c, row, 0);
    assert CacheTile32(ms, face, c)[row] == CacheLine32(ms, base, face.width);
    if face.width > 0 {
      CellIndexBound(face, c, row, face.width - 1);
      CacheLineIsWords(ms, base, face.width);
    }
  }

  /** Row `row` of the 32-bpp branch of draw_char. */
  method CopyCellRow32(dst: array<bv8>, x: nat, y: nat, pitchWords: nat, src: seq<bv8>, face: FontFace, c: bv8,
                       row: nat, ghost s0: seq<bv8>, ghost tile: seq<seq<bv32>>)
    requires |src| == CacheLength(face) && row < face.height && |s0| == dst.Length
    requires tile == CacheTile32(src, face, c) && BoxFits(x, y, face.width, row + 1, pitchWords, dst.Length)
    requires dst[..] == CellPaint32(s0, x, y, pitchWords, face.width, row, tile)
    modifies dst
    ensures dst[..] == CellPaint32(s0, x, y, pitchWords, face.width, row + 1, tile)
  {
    CellPaint32Step(s0, x, y, pitchWords, face.width, row, tile);
    CacheTileRowIsWords(src, face, c, row);
    MulMono(0, y + row, pitchWords);
    CopyRow32(dst, BoxWord(x, y, pitchWords, row, 0), src, CellIndex(face, c, row, 0), face.width, tile[row]);
  }

  /** The 32-bpp branch of draw_char: row `y` of the glyph copied from
      `glyph_cache_32bpp[c] + y * width`. */
  method CopyCell32(dst: array<bv8>, x: nat, y: nat, pitchWords: nat, src: seq<bv8>, face: FontFace, c: bv8)
    requires |src| == CacheLength(face)
    requires BoxFits(x, y, face.width, face.height, pitchWords, dst.Length)
    modifies dst
    ensures dst[..] == CellPaint32(old(dst[..]), x, y, pitchWords, face.width, face.height, CacheTile32(src, face, c))
  {
    ghost var s0 := dst[..];
    ghost var tile := CacheTile32(src, face, c);
    var row: nat := 0;
    while row < face.height
      invariant row <= face.height && BoxFits(x, y, face.width, row, pitchWords, dst.Length)
      invariant dst[..] == CellPaint32(s0, x, y, pitchWords, face.width, row, tile)
    {
      BoxFitsFewerRows(x, y, face.width, row + 1, face.height, pitchWords, dst.Length);
      CopyCellRow32(dst, x, y, pitchWords, src, face, c, row, s0, tile);
      row := row + 1;
    }
  }

  /** `dest[k] = src_line[k]` for bytes. */
  method CopyByte8(dst: array<bv8>, dBase: nat, src: seq<bv8>, sBase: nat, k: nat, n: nat, ghost s0: seq<bv8>)
    requires k < n && |s0| == dst.Length
    requires dBase + n <= dst.Length && sBase + n <= |src|
    requires dst[..] == RowPaint8(s0, dBase, k, CacheLine8(src, sBase, n))
    modifies dst
    ensures dst[..] == RowPaint8(s0, dBase, k + 1, CacheLine8(src, sBase, n))
  {
    CacheLineByte(src, sBase, n, k);
    dst[dBase + k] := src[sBase + k];
  }

  /** The unrolled loop of draw_char's 8-bpp row copy: four bytes a turn
      while at least four remain; returns how many it copied. */
  method CopyQuads8(dst: array<bv8>, dBase: nat, src: seq<bv8>, sBase: nat, n: nat) returns (done: nat)
    requires dBase + n <= dst.Length && sBase + n <= |src|
    modifies dst
    ensures done <= n < done + 4
    ensures dst[..] == RowPaint8(old(dst[..]), dBase, done, CacheLine8(src, sBase, n))
  {
    ghost var s0 := dst[..];
    done := 0;
    var width: nat := n;
    while width >= 4
      invariant done + width == n
      invariant dst[..] == RowPaint8(s0, dBase, done, CacheLine8(src, sBase, n))
    {
      CopyByte8(dst, dBase, src, sBase, done, n, s0);
      CopyByte8(dst, dBase, src, sBase, done + 1, n, s0);
      CopyByte8(dst, dBase, src, sBase, done + 2, n, s0);
      CopyByte8(dst, dBase, src, sBase, done + 3, n, s0);
      done := done + 4;
      width := width - 4;
    }
  }

  /** The bytes left over after the unrolled loop, one at a time. */
  method CopyTail8(dst: array<bv8>, dBase: nat, src: seq<bv8>, sBase: nat, n: nat, start: nat, ghost s0: seq<bv8>)
    requires dBase + n <= dst.Length && sBase + n <= |src| && start <= n && |s0| == dst.Length
    requires dst[..] == RowPaint8(s0, dBase, start, CacheLine8(src, sBase, n))
    modifies dst
    ensures dst[..] == RowPaint8(s0, dBase, n, CacheLine8(src, sBase, n))
  {
    var done := start;
    var width: nat := n - start;
    while width > 0
      invariant done + width == n
      invariant dst[..] == RowPaint8(s0, dBase, done, CacheLine8(src, sBase, n))
    {
      CopyByte8(dst, dBase, src, sBase, done, n, s0);
      done := done + 1;
      width := width - 1;
    }
  }

  /** The row copy of draw_char at 8 bpp: the unrolled loop, then the
      remaining bytes one at a time. */
  method CopyRow8(dst: array<bv8>, dBase: nat, src: seq<bv8>, sBase: nat, n: nat)
    requires (n > 0 ==> dBase + n <= dst.Length && sBase + n <= |src|)
    modifies dst
    ensures dst[..] == RowPaint8(old(dst[..]), dBase, n, CacheLine8(src, sBase, n))
  {
    if n == 0 {
      return;
    }
    ghost var s0 := dst[..];
    var done := CopyQuads8(dst, dBase, src, sBase, n);
    CopyTail8(dst, dBase, src, sBase, n, done, s0);
  }

  /** Row `row` of the 8-bpp branch of draw_char. */
  method CopyCellRow8(dst: array<bv8>, x: nat, y: nat, pitch: nat, src: seq<bv8>, face: FontFace, c: bv8,
                      row: nat, ghost s0: seq<bv8>, ghost tile: seq<seq<bv8>>)
    requires |src| == CacheLength(face) && row < face.height && |s0| == dst.Length
    requires tile == CacheTile8(src, face, c) && CellFits8(x, y, face.width, row + 1, pitch, dst.Length)
    requires dst[..] == CellPaint8(s0, x, y, pitch, face.width, row, tile)
    modifies dst
    ensures dst[..] == CellPaint8(s0, x, y, pitch, face.width, row + 1, tile)
  {
    CellPaint8Step(s0, x, y, pitch, face.width, row, tile);
    var srcBase := Tiles8Start(face) + CellIndex(face, c, row, 0);
    if face.width > 0 {
      CellIndexBound(face, c, row, face.width - 1);
    }
    assert tile[row] == CacheLine8(src, srcBase, face.width);
    MulMono(0, y + row, pitch);
    CopyRow8(dst, BoxWord(x, y, pitch, row, 0), src, srcBase, face.width);
  }

  /** The 8-bpp branch of draw_char. */
  method CopyCell8(dst: array<bv8>, x: nat, y: nat, pitch: nat, src: seq<bv8>, face: FontFace, c: bv8)
    requires |src| == CacheLength(face)
    requires CellFits8(x, y, face.width, face.height, pitch, dst.Length)
    modifies dst
    ensures dst[..] == CellPaint8(old(dst[..]), x, y, pitch, face.width, face.height, CacheTile8(src, face, c))
  {
    ghost var s0 := dst[..];
    ghost var tile := CacheTile8(src, face, c);
    var row: nat := 0;
    while row < face.height
      invariant row <= face.height && CellFits8(x, y, face.width, row, pitch, dst.Length)
      invariant dst[..] == CellPaint8(s0, x, y, pitch, face.width, row, tile)
    {
      CellFits8FewerRows(x, y, face.width, row + 1, face.height, pitch, dst.Length);
      CopyCellRow8(dst, x, y, pitch, src, face, c, row, s0, tile);
      row := row + 1;
    }
  }

  /** The glyph cache of font.c: the memory after the draw buffer, the flag
      `cache_initialized`, and the font whose glyphs it holds. */
  class GlyphCache {
    const face: FontFace
    const mem: array<bv8>
    var initialized: bool
    /** The display globals of framebuffer.c the drawers read and draw into. */
    const screen: FrameStore

    /** The cache memory has its size and, once initialised, holds every glyph. */
    ghost predicate CacheReady()
      reads this, mem
    {
      mem.Length == CacheLength(face) && (initialized ==> CacheHolds(mem[..], face))
    }

    ghost predicate Valid()
      reads this, mem, screen
    {
      && CacheReady()
      && screen.Valid()
      && mem != screen.vid && mem != screen.hw && mem != screen.bg32 && mem != screen.bg8
    }

    /** The boot state: nothing cached. */
    constructor (f: FontFace, display: FrameStore)
      requires display.Valid()
      ensures Valid() && face == f && screen == display && !initialized && fresh(mem)
    {
      face := f;
      mem := new bv8[CacheLength(f)];
      initialized := false;
      screen := display;
    }

    /** `video_draw_char_colored`: paints glyph `c` from the font's pixel
        test, `text` on `bg` (their low bytes at 8 bpp), when the cache is
        initialised and the cell fits the resolution. */
    method DrawCharColored(c: bv8, x: Uint32, y: Uint32, text: bv32, bg: bv32)
      requires Valid()
      modifies screen.DrawBuffer()
      ensures Valid()
      ensures screen.DrawBuffer()[..] == CharEffect(old(screen.DrawBuffer()[..]), screen.req, face, initialized, x, y,
                                                    PenTile32(Colors(text, bg), face, c), PenTile8(Colors(text, bg), face, c))
    {
      if !initialized {
        return;
      }
      var r := screen.req;
      if x + face.width > r.res.xres || y + face.height > r.res.yres {
        return;
      }
      var buff := screen.DrawBuffer();
      CellInside(r, face, x, y, buff.Length);
      if r.depth.bpp == 32 {
        PaintCell32(buff, x, y, r.pitch.pitch / 4, face, c, text, bg);
      } else if r.depth.bpp == 8 {
        PaintCell8(buff, x, y, r.pitch.pitch, face, c, (text & 0xFF) as bv8, (bg & 0xFF) as bv8);
      }
    }

    /** `video_draw_char`: copies the pre-rendered rows of glyph `c` out of
        the cache, when the cache is initialised and the cell fits. */
    method DrawChar(c: bv8, x: Uint32, y: Uint32)
      requires Valid()
      modifies screen.DrawBuffer()
      ensures Valid()
      ensures screen.DrawBuffer()[..] == CharEffect(old(screen.DrawBuffer()[..]), screen.req, face, initialized, x, y,
                                                    PenTile32(Cached(mem[..]), face, c), PenTile8(Cached(mem[..]), face, c))
    {
      if !initialized {
        return;
      }
      var r := screen.req;
      if x + face.width > r.res.xres || y + face.height > r.res.yres {
        return;
      }
      var buff := screen.DrawBuffer();
      CellInside(r, face, x, y, buff.Length);
      if r.depth.bpp == 32 {
        CopyCell32(buff, x, y, r.pitch.pitch / 4, mem[..], face, c);
      } else if r.depth.bpp == 8 {
        CopyCell8(buff, x, y, r.pitch.pitch, mem[..], face, c);
      }
    }

    /** `video_draw_string_colored`: measures the C string, then draws each
        character with draw_char_colored and advances the pen as `Layout`
        says. */
    method DrawStringColored(text: seq<bv8>, posX: Uint32, posY: Uint32, textColor: bv32, bgColor: bv32)
      requires Valid() && Terminated(text)
      modifies screen.DrawBuffer()
      ensures Valid()
      ensures screen.DrawBuffer()[..] ==
                CellsEffect(old(screen.DrawBuffer()[..]), screen.req, face, initialized,
                            Layout(CString(text), posX, posY, posX, face, screen.req.res.xres), Colors(textColor, bgColor))
    {
      var len := 0;
      while text[len] != 0
        invariant len <= CStrLen(text)
        decreases CStrLen(text) - len
      {
        len := len + 1;
      }
      assert CString(text) == text[..len];
      DrawCellsColored(text, len, posX, posY, textColor, bgColor);
    }

    /** The drawing loop of draw_string_colored over the first `len`
        characters of `text`. */
    method DrawCellsColored(text: seq<bv8>, len: nat, posX: Uint32, posY: Uint32, textColor: bv32, bgColor: bv32)
      requires Valid() && len <= |text|
      modifies screen.DrawBuffer()
      ensures Valid()
      ensures screen.DrawBuffer()[..] ==
                CellsEffect(old(screen.DrawBuffer()[..]), screen.req, face, initialized,
                            Layout(text[..len], posX, posY, posX, face, screen.req.res.xres), Colors(textColor, bgColor))
    {
      var xres := screen.req.res.xres;
      ghost var buff := screen.DrawBuffer();
      ghost var s0 := buff[..];
      ghost var cells := Layout(text[..len], posX, posY, posX, face, xres);
      var x, y := posX, posY;
      var i := 0;
      while i < len
        invariant i <= len && Valid() && screen.DrawBuffer() == buff
        invariant Layout(text[i..len], x, y, posX, face, xres) == cells[i..]
        invariant buff[..] == CellsEffect(s0, screen.req, face, initialized, cells[..i], Colors(textColor, bgColor))
      {
        x, y := DrawNextColored(text, i, len, x, y, posX, textColor, bgColor, cells, s0);
        i := i + 1;
      }
      assert cells[..len] == cells;
    }

    /** One turn of the loop of draw_string_colored: draws character `i` at the
        pen and returns the pen's next position. */
    method DrawNextColored(text: seq<bv8>, i: nat, len: nat, x: Uint32, y: Uint32, posX: Uint32,
                           textColor: bv32, bgColor: bv32, ghost cells: seq<Cell>, ghost s0: seq<bv8>)
        returns (nx: Uint32, ny: Uint32)
      requires Valid() && i < len <= |text| && |cells| == len
      requires Layout(text[i..len], x, y, posX, face, screen.req.res.xres) == cells[i..]
      requires |s0| == screen.DrawBuffer().Length
      requires screen.DrawBuffer()[..] == CellsEffect(s0, screen.req, face, initialized, cells[..i], Colors(textColor, bgColor))
      modifies screen.DrawBuffer()
      ensures Valid()
      ensures Layout(text[i + 1..len], nx, ny, posX, face, screen.req.res.xres) == cells[i + 1..]
      ensures screen.DrawBuffer()[..] == CellsEffect(s0, screen.req, face, initialized, cells[..i + 1], Colors(textColor, bgColor))
    {
      var xres := screen.req.res.xres;
      LayoutNext(text, i, len, x, y, posX, face, xres, cells);
      CellsEffectNext(s0, screen.req, face, initialized, cells, i, Colors(textColor, bgColor), screen.DrawBuffer()[..]);
      DrawCharColored(text[i], x, y, textColor, bgColor);
      nx, ny := Add32(x, Add32(face.width, 2)), y;
      if Add32(nx, face.width) >= xres {
        nx := posX;
        ny := Add32(y, Add32(face.height, 2));
      }
    }

    /** `video_draw_string`: the same walk as draw_string_colored, drawing
        each character from the cache with draw_char. */
    method DrawString(text: seq<bv8>, posX: Uint32, posY: Uint32)
      requires Valid() && Terminated(text)
      modifies screen.DrawBuffer()
      ensures Valid()
      ensures screen.DrawBuffer()[..] ==
                CellsEffect(old(screen.DrawBuffer()[..]), screen.req, face, initialized,
                            Layout(CString(text), posX, posY, posX, face, screen.req.res.xres), Cached(mem[..]))
    {
      var len := 0;
      while text[len] != 0
        invariant len <= CStrLen(text)
        decreases CStrLen(text) - len
      {
        len := len + 1;
      }
      assert CString(text) == text[..len];
      DrawCells(text, len, posX, posY);
    }

    /** The drawing loop of draw_string over the first `len` characters of
        `text`. */
    method DrawCells(text: seq<bv8>, len: nat, posX: Uint32, posY: Uint32)
      requires Valid() && len <= |text|
      modifies screen.DrawBuffer()
      ensures Valid()
      ensures screen.DrawBuffer()[..] ==
                CellsEffect(old(screen.DrawBuffer()[..]), screen.req, face, initialized,
                            Layout(text[..len], posX, posY, posX, face, screen.req.res.xres), Cached(mem[..]))
    {
      var xres := screen.req.res.xres;
      ghost var buff := screen.DrawBuffer();
      ghost var s0 := buff[..];
      ghost var cells := Layout(text[..len], posX, posY, posX, face, xres);
      var x, y := posX, posY;
      var i := 0;
      while i < len
        invariant i <= len && Valid() && screen.DrawBuffer() == buff
        invariant Layout(text[i..len], x, y, posX, face, xres) == cells[i..]
        invariant buff[..] == CellsEffect(s0, screen.req, face, initialized, cells[..i], Cached(mem[..]))
      {
        x, y := DrawNext(text, i, len, x, y, posX, cells, s0);
        i := i + 1;
      }
      assert cells[..len] == cells;
    }

    /** One turn of the loop of draw_string: draws character `i` at the pen and
        returns the pen's next position. */
    method DrawNext(text: seq<bv8>, i: nat, len: nat, x: Uint32, y: Uint32, posX: Uint32,
                    ghost cells: seq<Cell>, ghost s0: seq<bv8>)
        returns (nx: Uint32, ny: Uint32)
      requires Valid() && i < len <= |text| && |cells| == len
      requires Layout(text[i..len], x, y, posX, face, screen.req.res.xres) == cells[i..]
      requires |s0| == screen.DrawBuffer().Length
      requires screen.DrawBuffer()[..] == CellsEffect(s0, screen.req, face, initialized, cells[..i], Cached(mem[..]))
      modifies screen.DrawBuffer()
      ensures Valid()
      ensures Layout(text[i + 1..len], nx, ny, posX, face, screen.req.res.xres) == cells[i + 1..]
      ensures screen.DrawBuffer()[..] == CellsEffect(s0, screen.req, face, initialized, cells[..i + 1], Cached(mem[..]))
    {
      var xres := screen.req.res.xres;
      LayoutNext(text, i, len, x, y, posX, face, xres, cells);
      CellsEffectNext(s0, screen.req, face, initialized, cells, i, Cached(mem[..]), screen.DrawBuffer()[..]);
      DrawChar(text[i], x, y);
      nx, ny := Add32(x, Add32(face.width, 2)), y;
      if Add32(nx, face.width) >= xres {
        nx := posX;
        ny := Add32(y, Add32(face.height, 2));
      }
    }

    /** `init_glyph_cache`: the first call renders every glyph cell at both
        depths, in character, row, column order, and sets the flag; later
        calls change nothing. */
    method Init()
      requires Valid()
      modifies this`initialized, mem
      ensures Valid() && initialized && CacheHolds(mem[..], face)
      ensures old(initialized) ==> unchanged(mem)
    {
      if initialized {
        return;
      }
      CacheAll();
      initialized := true;
    }

    /** The loops of init_glyph_cache: every cell of every glyph, in
        character, row, column order. */
    method CacheAll()
      requires mem.Length == CacheLength(face)
      modifies mem
      ensures CacheHolds(mem[..], face)
    {
      var c: bv16 := 0;
      CachedBeforeStart(mem[..], face);
      while c < 256
        invariant c as nat <= MaxChars
        invariant CachedBefore(mem[..], face, c as nat, 0, 0)
        decreases 256 - c as int
      {
        CacheChar(c);
        c := c + 1;
      }
      CachedBeforeAll(mem[..], face);
    }

    /** One pass of the outer loop of init_glyph_cache: glyph `c`, counted
        in a wider type so that the loop can reach 256. */
    method CacheChar(c: bv16)
      requires mem.Length == CacheLength(face) && c < 256
      requires CachedBefore(mem[..], face, c as nat, 0, 0)
      modifies mem
      ensures CachedBefore(mem[..], face, (c + 1) as nat, 0, 0)
    {
      assert (c as bv8) as nat == c as nat;
      CacheGlyph(c as bv8);
      CachedBeforeNextChar(mem[..], face, c as nat);
      assert (c + 1) as nat == c as nat + 1;
    }

    /** The rows of glyph `c`. */
    method CacheGlyph(c: bv8)
      requires mem.Length == CacheLength(face)
      requires CachedBefore(mem[..], face, c as nat, 0, 0)
      modifies mem
      ensures CachedBefore(mem[..], face, c as nat, face.height, 0)
    {
      var y: nat := 0;
      while y < face.height
        invariant y <= face.height && mem.Length == CacheLength(face)
        invariant CachedBefore(mem[..], face, c as nat, y, 0)
      {
        CacheRow(c, y);
        CachedBeforeNextRow(mem[..], face, c as nat, y);
        y := y + 1;
      }
    }

    /** One pass of the middle loop of init_glyph_cache: row `y` of `c`. */
    method CacheRow(c: bv8, y: nat)
      requires mem.Length == CacheLength(face) && y < face.height
      requires CachedBefore(mem[..], face, c as nat, y, 0)
      modifies mem
      ensures CachedBefore(mem[..], face, c as nat, y, face.width)
    {
      var x: nat := 0;
      while x < face.width
        invariant x <= face.width && mem.Length == CacheLength(face)
        invariant CachedBefore(mem[..], face, c as nat, y, x)
      {
        ghost var before := mem[..];
        CacheCell(c, y, x);
        CachedBeforeStep(before, face, c, y, x);
        x := x + 1;
      }
    }

    /** The body of the innermost loop of init_glyph_cache: one cell. */
    method CacheCell(c: bv8, y: nat, x: nat)
      requires mem.Length == CacheLength(face) && y < face.height && x < face.width
      modifies mem
      ensures mem[..] == StoreCell(old(mem[..]), face, c, y, x)
    {
      var i := CellIndex(face, c, y, x);
      CellIndexBound(face, c, y, x);
      var pixel := face.pixel(c, x, y);
      StoreWord(mem, i, if pixel then TextColor else BackColor);
      mem[Tiles8Start(face) + i] := if pixel then InkIndex else PaperIndex;
    }
  }
}
