/** The frame store of src/Graphics/framebuffer.c: the firmware-negotiated
    mode, the draw buffer and the two background buffers, the routing of draws
    (DMA buffer or firmware framebuffer), the chunked DMA copy, the one-time
    screen clear and the pixel and box primitives.

    Memory is modelled as byte arrays (see module Memory).  The firmware call
    `mailbox_process` is a parameter: the record the firmware leaves behind.
    The DMA engine (`dma_setup_mem_copy`, `dma_start`, `dma_wait`) is one byte
    copy per chunk; the chunks issued are recorded in the ghost `dmaLog`. */
module Framebuffer {
  import opened Memory
  import opened FramebufferDefs

  /** `max_chunk` of `do_dma`: one DMA descriptor moves at most this many bytes. */
  const MaxDmaChunk: nat := 0x3F_FFFF

  /** One DMA transfer: `size` bytes at byte offset `offset` of both buffers. */
  datatype Chunk = Chunk(offset: nat, size: nat)

  /** The firmware requests recorded in the order they are sent. */
  datatype MailboxMessage =
    | FramebufferRequest(request: FbRequest)
    | PaletteRequest(palette: SetPalette)

  function TotalSize(plan: seq<Chunk>): nat
  {
    if plan == [] then 0 else plan[0].size + TotalSize(plan[1..])
  }

  /** The transfers `do_dma` issues for `total` bytes starting at `start`. */
  function DmaPlan(start: nat, total: nat): seq<Chunk>
    decreases total
  {
    if total == 0 then []
    else
      var n := if total > MaxDmaChunk then MaxDmaChunk else total;
      [Chunk(start, n)] + DmaPlan(start + n, total - n)
  }

  /** Chunk sizes of `do_dma`: no chunk for zero bytes, every chunk non-empty
      and at most `max_chunk`, and all of them full-sized except the last. */
  lemma {:induction false} DmaPlanSizes(start: nat, total: nat)
    ensures var plan := DmaPlan(start, total);
      && (total == 0 <==> plan == [])
      && (forall k :: 0 <= k < |plan| ==> 0 < plan[k].size <= MaxDmaChunk)
      && (forall k :: 0 <= k < |plan| - 1 ==> plan[k].size == MaxDmaChunk)
    decreases total
  {
    if total > 0 {
      var n := if total > MaxDmaChunk then MaxDmaChunk else total;
      var plan := DmaPlan(start, total);
      var rest := DmaPlan(start + n, total - n);
      DmaPlanSizes(start + n, total - n);
      assert plan == [Chunk(start, n)] + rest;
      forall k | 0 <= k < |plan| - 1
        ensures plan[k].size == MaxDmaChunk
      {
        if k > 0 {
          assert plan[k] == rest[k - 1];
        }
      }
    }
  }

  /** Chunk placement of `do_dma`: the chunks are contiguous, starting at
      `start` and ending at `start + total`. */
  lemma {:induction false} DmaPlanContiguous(start: nat, total: nat)
    ensures var plan := DmaPlan(start, total);
      && (plan != [] ==> plan[0].offset == start)
      && (forall k :: 0 <= k < |plan| - 1 ==> plan[k + 1].offset == plan[k].offset + plan[k].size)
      && (plan != [] ==> plan[|plan| - 1].offset + plan[|plan| - 1].size == start + total)
    decreases total
  {
    if total > 0 {
      var n := if total > MaxDmaChunk then MaxDmaChunk else total;
      var plan := DmaPlan(start, total);
      var rest := DmaPlan(start + n, total - n);
      DmaPlanContiguous(start + n, total - n);
      DmaPlanSizes(start + n, total - n);
      assert plan == [Chunk(start, n)] + rest;
      forall k | 0 <= k < |plan| - 1
        ensures plan[k + 1].offset == plan[k].offset + plan[k].size
      {
        if k > 0 {
          assert plan[k] == rest[k - 1] && plan[k + 1] == rest[k];
        }
      }
      if rest != [] {
        assert plan[|plan| - 1] == rest[|rest| - 1];
      }
    }
  }

  /** The chunks of `do_dma` move exactly `total` bytes together. */
  lemma {:induction false} DmaPlanTotal(start: nat, total: nat)
    ensures TotalSize(DmaPlan(start, total)) == total
    decreases total
  {
    if total > 0 {
      var n := if total > MaxDmaChunk then MaxDmaChunk else total;
      var plan := DmaPlan(start, total);
      DmaPlanTotal(start + n, total - n);
      assert plan[1..] == DmaPlan(start + n, total - n);
    }
  }

  /** The number of transfers is the number of chunks of `max_chunk` bytes
      needed to cover `total`, rounded up. */
  lemma {:induction false} DmaPlanCount(start: nat, total: nat)
    ensures |DmaPlan(start, total)| == (total + MaxDmaChunk - 1) / MaxDmaChunk
    decreases total
  {
    if total > 0 {
      var n := if total > MaxDmaChunk then MaxDmaChunk else total;
      DmaPlanCount(start + n, total - n);
    }
  }

  /** One chunk of DMA work, `dma_setup_mem_copy` + `dma_start` + `dma_wait`:
      the bytes of the chunk are copied and nothing else changes. */
  method DmaTransfer(dest: array<bv8>, src: array<bv8>, offset: nat, size: nat)
    requires dest != src
    requires offset + size <= dest.Length && offset + size <= src.Length
    modifies dest
    ensures dest[offset..offset + size] == src[offset..offset + size]
    ensures forall b :: 0 <= b < dest.Length && !(offset <= b < offset + size) ==> dest[b] == old(dest[b])
  {
    forall b | offset <= b < offset + size {
      dest[b] := src[b];
    }
  }

  /** `s` after storing `v` into the words `base .. base + count - 1` in turn. */
  function Filled(s: seq<bv8>, base: nat, count: nat, v: bv32): (r: seq<bv8>)
    requires count > 0 ==> 4 * (base + count) <= |s|
    ensures |r| == |s|
    ensures forall k :: base <= k < base + count ==> WordAt(r, k) == v
    ensures forall b :: 0 <= b < |s| && (b < 4 * base || 4 * (base + count) <= b) ==> r[b] == s[b]
    ensures forall k: nat :: 4 * k + 4 <= |s| && (k < base || base + count <= k) ==> WordAt(r, k) == WordAt(s, k)
    decreases count
  {
    if count == 0 then s
    else
      var t := Filled(s, base, count - 1, v);
      PutWordSpec(t, base + count - 1, v);
      PutWordKeepsOtherWords(t, base + count - 1, v);
      PutWord(t, base + count - 1, v)
  }

  /** The word-fill loop used by video_init, clear_screen_once and
      video_draw_box: `for (i = 0; i < count; i++) buff[base + i] = v;`. */
  method FillWords(a: array<bv8>, base: nat, count: nat, v: bv32)
    requires count > 0 ==> 4 * (base + count) <= a.Length
    modifies a
    ensures a[..] == Filled(old(a[..]), base, count, v)
  {
    var i := 0;
    while i < count
      invariant 0 <= i <= count
      invariant a[..] == Filled(old(a[..]), base, i, v)
    {
      StoreWord(a, base + i, v);
      i := i + 1;
    }
  }

  /** The pixel width in bytes that each branch of video_draw_pixel addresses:
      words at 32 bpp, halfwords at 16 bpp, bytes at any other depth. */
  function BytesPerPixel(bpp: nat): nat
  {
    if bpp == 32 then 4 else if bpp == 16 then 2 else 1
  }

  /** What the firmware's answer must satisfy for the model's buffers: the
      screen fits the 4 MB before the glyph cache, every row fits the pitch
      and every row lies inside the screen. */
  predicate ModeFits(r: FbRequest)
  {
    && r.buff.screenSize <= VbSize
    && r.res.yres * r.pitch.pitch <= r.buff.screenSize
    && BytesPerPixel(r.depth.bpp) * r.res.xres <= r.pitch.pitch
  }

  /** The request video_set_resolution sends: physical and virtual resolution
      both (xres, yres), depth bpp, a buffer allocation with alignment 16 and
      an empty pitch query. */
  function ResolutionRequest(xres: Uint32, yres: Uint32, bpp: Uint32): (r: FbRequest)
    ensures r.res.xres == r.vres.xres == xres && r.res.yres == r.vres.yres == yres
    ensures r.depth.bpp == bpp && r.buff.base == 16
    ensures r.buff.screenSize == 0 && r.pitch.pitch == 0
  {
    FbRequest(FbSize(Tag(SetPhysicalWidthHeight, 8, 8), xres, yres),
              FbSize(Tag(SetVirtualWidthHeight, 8, 8), xres, yres),
              FbDepth(Tag(SetDepth, 4, 4), bpp),
              FbBuffer(Tag(AllocateBuffer, 8, 4), 16, 0),
              FbPitch(Tag(GetPitch, 4, 4), 0))
  }

  /** The eight-entry palette installed for 8-bpp modes; index 1 is the
      background and index 2 the text colour of the 8-bit glyph tiles. */
  const DefaultPalette: SetPalette :=
    SetPalette(Tag(SetPaletteTag, 40, 0), 0, 8,
               [0, 0xFFBB_5500, 0xFFFF_FFFF, 0xFFFF_0000, 0xFF00_FF00, 0xFF00_00FF,
                0x5555_5555, 0xCCCC_CCCC])

  /** The draw buffer after the clear of clear_screen_once for mode `r`. */
  function ClearPattern(s: seq<bv8>, r: FbRequest): (t: seq<bv8>)
    requires r.buff.screenSize <= |s|
    ensures |t| == |s|
  {
    if r.depth.bpp == 32 then Filled(s, 0, r.buff.screenSize / 4, BackColor)
    else if r.depth.bpp == 8 then Filled(s, 0, r.buff.screenSize / 4, 0x0101_0101)
    else s
  }

  /** Row-major addressing with `p` elements of `unit` bytes per row stays
      inside `rows` rows of `pitch` bytes. */
  lemma RowMajorInside(unit: nat, p: nat, pitch: nat, x: nat, y: nat, rows: nat)
    requires unit * p <= pitch && x < p && y < rows
    ensures unit * (y * p + x) + unit <= rows * pitch
  {
    MulStep(y, p);
    assert y * p + x + 1 <= (y + 1) * p;
    calc {
      unit * (y * p + x) + unit;
      == unit * (y * p + x + 1);
      <= { MulMonoRight(unit, y * p + x + 1, (y + 1) * p); }
      unit * ((y + 1) * p);
      == (y + 1) * (unit * p);
      <= { MulMonoRight(y + 1, unit * p, pitch); }
      (y + 1) * pitch;
      <= { MulMono(y + 1, rows, pitch); }
      rows * pitch;
    }
  }

  /** The index of pixel `(x, y)` counted in elements of `size` bytes:
      `y * (pitch / size) + x`. */
  function PixelIndex(r: FbRequest, x: nat, y: nat, size: nat): nat
    requires size > 0
  {
    y * (r.pitch.pitch / size) + x
  }

  /** Every in-range pixel lies inside the screen, at each depth. */
  lemma PixelInside(r: FbRequest, x: nat, y: nat)
    requires ModeFits(r)
    requires x < r.res.xres && y < r.res.yres
    ensures r.depth.bpp == 32 ==> 4 * PixelIndex(r, x, y, 4) + 4 <= r.buff.screenSize
    ensures r.depth.bpp == 16 ==> 2 * PixelIndex(r, x, y, 2) + 2 <= r.buff.screenSize
    ensures PixelIndex(r, x, y, 1) + 1 <= r.buff.screenSize
  {
    var pitch := r.pitch.pitch;
    if r.depth.bpp == 32 {
      RowMajorInside(4, pitch / 4, pitch, x, y, r.res.yres);
    } else if r.depth.bpp == 16 {
      RowMajorInside(2, pitch / 2, pitch, x, y, r.res.yres);
    }
    RowMajorInside(1, pitch, pitch, x, y, r.res.yres);
    assert pitch / 1 == pitch;
  }

  lemma MulMonoRight(k: nat, a: nat, b: nat)
    requires a <= b
    ensures k * a <= k * b
  {
    MulMono(a, b, k);
  }

  /** The store of video_draw_pixel into the draw buffer `s`, by depth: a word
      at 32 bpp, the low halfword at 16 bpp, the low byte otherwise. */
  function PixelStore(s: seq<bv8>, r: FbRequest, x: nat, y: nat, color: bv32): (t: seq<bv8>)
    requires ModeFits(r) && r.buff.screenSize <= |s|
    requires x < r.res.xres && y < r.res.yres
    ensures |t| == |s|
  {
    PixelInside(r, x, y);
    if r.depth.bpp == 32 then PutWord(s, PixelIndex(r, x, y, 4), color)
    else if r.depth.bpp == 16 then PutHalf(s, PixelIndex(r, x, y, 2), (color & 0xFFFF) as bv16)
    else s[PixelIndex(r, x, y, 1) := (color & 0xFF) as bv8]
  }

  /** A pixel store writes one element of the depth's width, at the pixel's
      address and with the colour cut to that width, and no other byte. */
  lemma PixelStoreWritesOneElement(s: seq<bv8>, r: FbRequest, x: nat, y: nat, color: bv32)
    requires ModeFits(r) && r.buff.screenSize <= |s|
    requires x < r.res.xres && y < r.res.yres
    ensures var t := PixelStore(s, r, x, y, color);
      var i := PixelIndex(r, x, y, 4);
      r.depth.bpp == 32 ==>
        && 4 * i + 4 <= r.buff.screenSize && WordAt(t, i) == color
        && (forall b :: 0 <= b < |s| && !(4 * i <= b < 4 * i + 4) ==> t[b] == s[b])
    ensures var t := PixelStore(s, r, x, y, color);
      var i := PixelIndex(r, x, y, 2);
      r.depth.bpp == 16 ==>
        && 2 * i + 2 <= r.buff.screenSize && HalfAt(t, i) == (color & 0xFFFF) as bv16
        && (forall b :: 0 <= b < |s| && !(2 * i <= b < 2 * i + 2) ==> t[b] == s[b])
    ensures var t := PixelStore(s, r, x, y, color);
      var i := PixelIndex(r, x, y, 1);
      r.depth.bpp != 32 && r.depth.bpp != 16 ==>
        && i < r.buff.screenSize && t[i] == (color & 0xFF) as bv8
        && (forall b :: 0 <= b < |s| && b != i ==> t[b] == s[b])
  {
    PixelInside(r, x, y);
    if r.depth.bpp == 32 {
      PutWordSpec(s, PixelIndex(r, x, y, 4), color);
    }
  }

  /** The depth switch of video_draw_pixel, for a pixel already known to be
      in range. */
  method StorePixel(buff: array<bv8>, r: FbRequest, x: Uint32, y: Uint32, color: bv32)
    requires ModeFits(r) && r.buff.screenSize <= buff.Length
    requires x < r.res.xres && y < r.res.yres
    modifies buff
    ensures buff[..] == PixelStore(old(buff[..]), r, x, y, color)
  {
    PixelInside(r, x, y);
    if r.depth.bpp == 32 {
      StoreWord(buff, PixelIndex(r, x, y, 4), color);
    } else if r.depth.bpp == 16 {
      StoreHalf(buff, PixelIndex(r, x, y, 2), (color & 0xFFFF) as bv16);
    } else {
      buff[PixelIndex(r, x, y, 1)] := (color & 0xFF) as bv8;
    }
  }

  /** The word of a box at `row`, `col`: `(y + row) * pitch + x + col`. */
  function BoxWord(x: nat, y: nat, pitchWords: nat, row: nat, col: nat): nat
  {
    MulMono(0, y + row, pitchWords);
    (y + row) * pitchWords + x + col
  }

  /** Every word of the box lies inside a buffer of `len` bytes; video_draw_box
      does no clipping, so its callers must ensure this. */
  predicate BoxFits(x: nat, y: nat, w: nat, h: nat, pitchWords: nat, len: nat)
  {
    forall row, col :: 0 <= row < h && 0 <= col < w ==> 4 * BoxWord(x, y, pitchWords, row, col) + 4 <= len
  }

  ghost predicate InBox(k: nat, x: nat, y: nat, w: nat, h: nat, pitchWords: nat)
  {
    exists row, col :: 0 <= row < h && 0 <= col < w && k == BoxWord(x, y, pitchWords, row, col)
  }

  /** `s` after video_draw_box: the rows `0 .. h - 1` filled in turn. */
  function BoxFill(s: seq<bv8>, x: nat, y: nat, w: nat, h: nat, pitchWords: nat, color: bv32): (t: seq<bv8>)
    requires BoxFits(x, y, w, h, pitchWords, |s|)
    ensures |t| == |s|
    decreases h
  {
    if h == 0 || w == 0 then s
    else
      assert 4 * BoxWord(x, y, pitchWords, h - 1, w - 1) + 4 <= |s|;
      Filled(BoxFill(s, x, y, w, h - 1, pitchWords, color), BoxWord(x, y, pitchWords, h - 1, 0), w, color)
  }

  /** video_draw_box sets every word of the box to the colour. */
  lemma {:induction false} BoxFillColors(s: seq<bv8>, x: nat, y: nat, w: nat, h: nat, pitchWords: nat, color: bv32)
    requires BoxFits(x, y, w, h, pitchWords, |s|)
    ensures forall row, col :: 0 <= row < h && 0 <= col < w ==>
      WordAt(BoxFill(s, x, y, w, h, pitchWords, color), BoxWord(x, y, pitchWords, row, col)) == color
    decreases h
  {
    if h > 0 && w > 0 {
      var prev := BoxFill(s, x, y, w, h - 1, pitchWords, color);
      var base := BoxWord(x, y, pitchWords, h - 1, 0);
      var t := BoxFill(s, x, y, w, h, pitchWords, color);
      assert 4 * BoxWord(x, y, pitchWords, h - 1, w - 1) + 4 <= |s|;
      assert t == Filled(prev, base, w, color);
      BoxFillColors(s, x, y, w, h - 1, pitchWords, color);
      forall row, col | 0 <= row < h && 0 <= col < w
        ensures WordAt(t, BoxWord(x, y, pitchWords, row, col)) == color
      {
        FilledKeepsColor(prev, base, w, color, BoxWord(x, y, pitchWords, row, col));
      }
    }
  }

  /** After a fill with `v`, a word holds `v` if it was filled or already held it. */
  lemma FilledKeepsColor(s: seq<bv8>, base: nat, count: nat, v: bv32, k: nat)
    requires count > 0 ==> 4 * (base + count) <= |s|
    requires 4 * k + 4 <= |s|
    requires (base <= k < base + count) || WordAt(s, k) == v
    ensures WordAt(Filled(s, base, count, v), k) == v
  {
  }

  /** video_draw_box leaves every word outside the box as it was. */
  lemma {:induction false} BoxFillFrame(s: seq<bv8>, x: nat, y: nat, w: nat, h: nat, pitchWords: nat, color: bv32)
    requires BoxFits(x, y, w, h, pitchWords, |s|)
    ensures forall k: nat :: 4 * k + 4 <= |s| && !InBox(k, x, y, w, h, pitchWords) ==>
      WordAt(BoxFill(s, x, y, w, h, pitchWords, color), k) == WordAt(s, k)
    decreases h
  {
    if h > 0 && w > 0 {
      var prev := BoxFill(s, x, y, w, h - 1, pitchWords, color);
      var base := BoxWord(x, y, pitchWords, h - 1, 0);
      var t := BoxFill(s, x, y, w, h, pitchWords, color);
      assert 4 * BoxWord(x, y, pitchWords, h - 1, w - 1) + 4 <= |s|;
      assert t == Filled(prev, base, w, color);
      BoxFillFrame(s, x, y, w, h - 1, pitchWords, color);
      forall k: nat | 4 * k + 4 <= |s| && !InBox(k, x, y, w, h, pitchWords)
        ensures WordAt(t, k) == WordAt(s, k)
      {
        BoxRows(k, x, y, w, h, pitchWords);
      }
    }
  }

  /** A word in the first `h - 1` rows of a box, or in its last row, is in
      the box. */
  lemma BoxRows(k: nat, x: nat, y: nat, w: nat, h: nat, pitchWords: nat)
    requires h > 0
    ensures InBox(k, x, y, w, h - 1, pitchWords) ==> InBox(k, x, y, w, h, pitchWords)
    ensures BoxWord(x, y, pitchWords, h - 1, 0) <= k < BoxWord(x, y, pitchWords, h - 1, 0) + w ==> InBox(k, x, y, w, h, pitchWords)
  {
    var base := BoxWord(x, y, pitchWords, h - 1, 0);
    if base <= k < base + w {
      assert k == BoxWord(x, y, pitchWords, h - 1, k - base);
    }
    if InBox(k, x, y, w, h - 1, pitchWords) {
      var row, col :| 0 <= row < h - 1 && 0 <= col < w && k == BoxWord(x, y, pitchWords, row, col);
      assert 0 <= row < h;
    }
  }

  lemma BoxFitsFewerRows(x: nat, y: nat, w: nat, r: nat, h: nat, pitchWords: nat, len: nat)
    requires r <= h && BoxFits(x, y, w, h, pitchWords, len)
    ensures BoxFits(x, y, w, r, pitchWords, len)
  {
  }

  /** One more row of a box is one more fill of `w` words at the row's start. */
  lemma BoxFillStep(s: seq<bv8>, x: nat, y: nat, w: nat, row: nat, pitchWords: nat, color: bv32)
    requires BoxFits(x, y, w, row + 1, pitchWords, |s|)
    ensures BoxFits(x, y, w, row, pitchWords, |s|)
    ensures w > 0 ==> 4 * (BoxWord(x, y, pitchWords, row, 0) + w) <= |s|
    ensures BoxFill(s, x, y, w, row + 1, pitchWords, color)
         == Filled(BoxFill(s, x, y, w, row, pitchWords, color), BoxWord(x, y, pitchWords, row, 0), w, color)
  {
    if w > 0 {
      assert 4 * BoxWord(x, y, pitchWords, row, w - 1) + 4 <= |s|;
    }
  }

  /** The row loop of video_draw_box on buffer `buff`. */
  method FillBox(buff: array<bv8>, x: nat, y: nat, w: nat, h: nat, pitchWords: nat, color: bv32)
    requires BoxFits(x, y, w, h, pitchWords, buff.Length)
    modifies buff
    ensures buff[..] == BoxFill(old(buff[..]), x, y, w, h, pitchWords, color)
  {
    ghost var s0 := buff[..];
    var row := 0;
    while row < h
      invariant 0 <= row <= h
      invariant BoxFits(x, y, w, row, pitchWords, |s0|)
      invariant buff[..] == BoxFill(s0, x, y, w, row, pitchWords, color)
    {
      var offset := BoxWord(x, y, pitchWords, row, 0);
      BoxFitsFewerRows(x, y, w, row + 1, h, pitchWords, |s0|);
      BoxFillStep(s0, x, y, w, row, pitchWords, color);
      FillWords(buff, offset, w, color);
      row := row + 1;
    }
  }

  /** A box of video_draw_box, given by its origin and size. */
  datatype Box = Box(x: nat, y: nat, w: nat, h: nat)

  ghost predicate InAnyBox(k: nat, boxes: seq<Box>, pitchWords: nat)
  {
    exists i :: 0 <= i < |boxes| && InBox(k, boxes[i].x, boxes[i].y, boxes[i].w, boxes[i].h, pitchWords)
  }

  predicate BoxesFit(boxes: seq<Box>, pitchWords: nat, len: nat)
  {
    forall i :: 0 <= i < |boxes| ==> BoxFits(boxes[i].x, boxes[i].y, boxes[i].w, boxes[i].h, pitchWords, len)
  }

  /** The top, bottom, left and right strips of video_draw_rect_outline, with
      the origins computed in u32 arithmetic. */
  function OutlineBoxes(x: Uint32, y: Uint32, w: Uint32, h: Uint32, thickness: Uint32): (boxes: seq<Box>)
    requires thickness <= w && thickness <= h
    ensures |boxes| == 4
  {
    [Box(x, y, w, thickness),
     Box(x, (y + h - thickness) % U32Limit, w, thickness),
     Box(x, y, thickness, h),
     Box((x + w - thickness) % U32Limit, y, thickness, h)]
  }

  /** The bottom strip lies inside the outline's box. */
  lemma BottomStripFits(x: Uint32, y: Uint32, w: Uint32, h: Uint32, thickness: Uint32, pitchWords: nat, len: nat)
    requires thickness <= w && thickness <= h
    requires BoxFits(x, y, w, h, pitchWords, len)
    ensures BoxFits(x, (y + h - thickness) % U32Limit, w, thickness, pitchWords, len)
  {
    var y' := (y + h - thickness) % U32Limit;
    forall row, col | 0 <= row < thickness && 0 <= col < w
      ensures 4 * BoxWord(x, y', pitchWords, row, col) + 4 <= len
    {
      MulMono(y' + row, y + h - 1, pitchWords);
      assert BoxWord(x, y', pitchWords, row, col) <= BoxWord(x, y, pitchWords, h - 1, col);
    }
  }

  /** The right strip lies inside the outline's box. */
  lemma RightStripFits(x: Uint32, y: Uint32, w: Uint32, h: Uint32, thickness: Uint32, pitchWords: nat, len: nat)
    requires thickness <= w && thickness <= h
    requires BoxFits(x, y, w, h, pitchWords, len)
    ensures BoxFits((x + w - thickness) % U32Limit, y, thickness, h, pitchWords, len)
  {
    var x' := (x + w - thickness) % U32Limit;
    forall row, col | 0 <= row < h && 0 <= col < thickness
      ensures 4 * BoxWord(x', y, pitchWords, row, col) + 4 <= len
    {
      assert BoxWord(x', y, pitchWords, row, col) <= BoxWord(x, y, pitchWords, row, w - thickness + col);
    }
  }

  /** With `thickness <= w` and `thickness <= h`, all four strips of an
      outline lie inside the outline's own box. */
  lemma {:induction false} OutlineBoxesFit(x: Uint32, y: Uint32, w: Uint32, h: Uint32, thickness: Uint32,
                                           pitchWords: nat, len: nat)
    requires thickness <= w && thickness <= h
    requires BoxFits(x, y, w, h, pitchWords, len)
    ensures BoxesFit(OutlineBoxes(x, y, w, h, thickness), pitchWords, len)
  {
    BottomStripFits(x, y, w, h, thickness, pitchWords, len);
    RightStripFits(x, y, w, h, thickness, pitchWords, len);
  }

  /** The buffer after the boxes are drawn, in order. */
  function OutlineFill(s: seq<bv8>, boxes: seq<Box>, pitchWords: nat, color: bv32): (t: seq<bv8>)
    requires BoxesFit(boxes, pitchWords, |s|)
    ensures |t| == |s|
    decreases |boxes|
  {
    if boxes == [] then s
    else
      var b := boxes[0];
      OutlineFill(BoxFill(s, b.x, b.y, b.w, b.h, pitchWords, color), boxes[1..], pitchWords, color)
  }

  /** Four boxes drawn one after the other give the outline fill. */
  lemma OutlineFillOfFour(s0: seq<bv8>, s1: seq<bv8>, s2: seq<bv8>, s3: seq<bv8>, s4: seq<bv8>,
                          boxes: seq<Box>, pitchWords: nat, color: bv32)
    requires |boxes| == 4 && BoxesFit(boxes, pitchWords, |s0|)
    requires s1 == BoxFill(s0, boxes[0].x, boxes[0].y, boxes[0].w, boxes[0].h, pitchWords, color)
    requires s2 == BoxFill(s1, boxes[1].x, boxes[1].y, boxes[1].w, boxes[1].h, pitchWords, color)
    requires s3 == BoxFill(s2, boxes[2].x, boxes[2].y, boxes[2].w, boxes[2].h, pitchWords, color)
    requires s4 == BoxFill(s3, boxes[3].x, boxes[3].y, boxes[3].w, boxes[3].h, pitchWords, color)
    ensures s4 == OutlineFill(s0, boxes, pitchWords, color)
  {
    var b1 := boxes[1..];
    var b2 := b1[1..];
    var b3 := b2[1..];
    assert b3[1..] == [];
    assert OutlineFill(s3, b3, pitchWords, color) == s4;
    assert OutlineFill(s2, b2, pitchWords, color) == s4;
    assert OutlineFill(s1, b1, pitchWords, color) == s4;
  }

  /** After the boxes are drawn, every word of every box has the colour. */
  lemma {:induction false} OutlineFillColors(s: seq<bv8>, boxes: seq<Box>, pitchWords: nat, color: bv32)
    requires BoxesFit(boxes, pitchWords, |s|)
    ensures forall k: nat :: 4 * k + 4 <= |s| && InAnyBox(k, boxes, pitchWords) ==>
      WordAt(OutlineFill(s, boxes, pitchWords, color), k) == color
    decreases |boxes|
  {
    if boxes != [] {
      var b := boxes[0];
      var rest := boxes[1..];
      var s1 := BoxFill(s, b.x, b.y, b.w, b.h, pitchWords, color);
      var t := OutlineFill(s, boxes, pitchWords, color);
      assert BoxesFit(rest, pitchWords, |s1|) by {
        forall i | 0 <= i < |rest| ensures BoxFits(rest[i].x, rest[i].y, rest[i].w, rest[i].h, pitchWords, |s1|) {
          assert rest[i] == boxes[i + 1];
        }
      }
      assert t == OutlineFill(s1, rest, pitchWords, color);
      OutlineFillColors(s1, rest, pitchWords, color);
      OutlineFillFrame(s1, rest, pitchWords, color);
      BoxFillColors(s, b.x, b.y, b.w, b.h, pitchWords, color);
      forall k: nat | 4 * k + 4 <= |s| && InAnyBox(k, boxes, pitchWords)
        ensures WordAt(t, k) == color
      {
        if !InAnyBox(k, rest, pitchWords) {
          var i :| 0 <= i < |boxes| && InBox(k, boxes[i].x, boxes[i].y, boxes[i].w, boxes[i].h, pitchWords);
          var row, col :| 0 <= row < b.h && 0 <= col < b.w && k == BoxWord(b.x, b.y, pitchWords, row, col);
          assert WordAt(s1, k) == color;
        }
      }
    }
  }

  /** Drawing the boxes leaves every word outside all of them as it was. */
  lemma {:induction false} OutlineFillFrame(s: seq<bv8>, boxes: seq<Box>, pitchWords: nat, color: bv32)
    requires BoxesFit(boxes, pitchWords, |s|)
    ensures forall k: nat :: 4 * k + 4 <= |s| && !InAnyBox(k, boxes, pitchWords) ==>
      WordAt(OutlineFill(s, boxes, pitchWords, color), k) == WordAt(s, k)
    decreases |boxes|
  {
    if boxes != [] {
      var b := boxes[0];
      var rest := boxes[1..];
      var s1 := BoxFill(s, b.x, b.y, b.w, b.h, pitchWords, color);
      var t := OutlineFill(s, boxes, pitchWords, color);
      assert BoxesFit(rest, pitchWords, |s1|) by {
        forall i | 0 <= i < |rest| ensures BoxFits(rest[i].x, rest[i].y, rest[i].w, rest[i].h, pitchWords, |s1|) {
          assert rest[i] == boxes[i + 1];
        }
      }
      assert t == OutlineFill(s1, rest, pitchWords, color);
      OutlineFillFrame(s1, rest, pitchWords, color);
      BoxFillFrame(s, b.x, b.y, b.w, b.h, pitchWords, color);
      forall k: nat | 4 * k + 4 <= |s| && !InAnyBox(k, boxes, pitchWords)
        ensures WordAt(t, k) == WordAt(s, k)
      {
        assert !InBox(k, boxes[0].x, boxes[0].y, boxes[0].w, boxes[0].h, pitchWords);
      }
    }
  }

  /** The global state of framebuffer.c, plus `frame_dirty`, which
      compositor.c declares and every primitive here sets. */
  class FrameStore {
    /** `fb_req`: after video_set_resolution, the firmware's answer. */
    var req: FbRequest
    /** `vid_buffer`: the draw buffer at VB_MEM_LOCATION (4 MB). */
    const vid: array<bv8>
    /** The firmware framebuffer at `BUS_ADDR(fb_req.buff.base)`. */
    const hw: array<bv8>
    /** `bg32_buffer` and `bg8_buffer`: the background patterns. */
    const bg32: array<bv8>
    const bg8: array<bv8>
    var useDma: bool
    var screenInitialized: bool
    var frameDirty: bool
    /** The DMA transfers issued so far. */
    ghost var dmaLog: seq<Chunk>
    /** The firmware messages sent so far. */
    ghost var mailbox: seq<MailboxMessage>

    ghost predicate Valid()
      reads this
    {
      && vid.Length == VbSize && bg32.Length == Bg32Size && bg8.Length == Bg8Size
      && vid != hw && vid != bg32 && vid != bg8 && hw != bg32 && hw != bg8 && bg32 != bg8
      && ModeFits(req) && req.buff.screenSize <= hw.Length
    }

    /** `DRAWBUFFER`. */
    function DrawBuffer(): (a: array<bv8>)
      reads this
      ensures a == vid || a == hw
    {
      DrawBufferOf(useDma, vid, hw)
    }

    /** The one of the two screen buffers that draws do not target. */
    function IdleBuffer(): (a: array<bv8>)
      reads this
      ensures a == vid || a == hw
    {
      DrawBufferOf(useDma, hw, vid)
    }

    /** The globals at boot: a zeroed `fb_req`, DMA presentation on, nothing
        cleared and nothing dirty; `framebuffer` is the firmware's memory. */
    constructor (framebuffer: array<bv8>)
      ensures Valid()
      ensures hw == framebuffer && fresh(vid) && fresh(bg32) && fresh(bg8)
      ensures req == ZeroRequest && useDma && !screenInitialized && !frameDirty
      ensures dmaLog == [] && mailbox == []
    {
      req := ZeroRequest;
      vid := new bv8[VbSize];
      hw := framebuffer;
      bg32 := new bv8[Bg32Size];
      bg8 := new bv8[Bg8Size];
      useDma := true;
      screenInitialized := false;
      frameDirty := false;
      dmaLog := [];
      mailbox := [];
    }

    /** The two background fills of video_init: 10 MB of BACK_COLOR words and
        4 MB of palette-index-1 bytes. */
    method InitBackgrounds()
      requires Valid()
      modifies bg32, bg8
      ensures Valid()
      ensures bg32[..] == Filled(old(bg32[..]), 0, Bg32Size / 4, BackColor)
      ensures bg8[..] == Filled(old(bg8[..]), 0, Bg8Size / 4, 0x0101_0101)
    {
      FillWords(bg32, 0, Bg32Size / 4, BackColor);
      FillWords(bg8, 0, Bg8Size / 4, 0x0101_0101);
    }

    /** `video_set_dma`. */
    method SetDma(enabled: bool)
      modifies this`useDma
      ensures useDma == enabled
    {
      useDma := enabled;
    }

    /** `do_dma`: copies `total` bytes from `src` to `dest` in chunks of at
        most `max_chunk` bytes, one transfer at a time. */
    method DoDma(dest: array<bv8>, src: array<bv8>, total: Uint32)
      requires dest != src
      requires total <= dest.Length && total <= src.Length
      modifies this`dmaLog, dest
      ensures dest[..total] == src[..total]
      ensures dest[total..] == old(dest[total..])
      ensures dmaLog == old(dmaLog) + DmaPlan(0, total)
    {
      var start: nat := 0;
      var remaining: nat := total;
      while remaining > 0
        invariant start + remaining == total
        invariant dest[..start] == src[..start]
        invariant dest[total..] == old(dest[total..])
        invariant dmaLog + DmaPlan(start, remaining) == old(dmaLog) + DmaPlan(0, total)
      {
        var n := if remaining > MaxDmaChunk then MaxDmaChunk else remaining;
        DmaTransfer(dest, src, start, n);
        assert dest[..start + n] == dest[..start] + dest[start..start + n];
        assert src[..start + n] == src[..start] + src[start..start + n];
        dmaLog := dmaLog + [Chunk(start, n)];
        start := start + n;
        remaining := remaining - n;
      }
    }

    /** `video_dma`: presents the composed frame by copying `screen_size`
        bytes of the DMA buffer to the firmware framebuffer. */
    method VideoDma()
      requires Valid()
      modifies this`dmaLog, hw
      ensures Valid()
      ensures hw[..req.buff.screenSize] == vid[..req.buff.screenSize]
      ensures hw[req.buff.screenSize..] == old(hw[req.buff.screenSize..])
      ensures dmaLog == old(dmaLog) + DmaPlan(0, req.buff.screenSize)
    {
      DoDma(hw, vid, req.buff.screenSize);
    }

    /** `clear_screen_once`: the first call clears `screen_size / 4` words of
        the draw buffer to the depth's background (BACK_COLOR at 32 bpp,
        palette index 1 at 8 bpp, nothing at other depths) and sets the flag;
        every later call changes nothing. */
    method ClearScreenOnce()
      requires Valid()
      modifies this`screenInitialized, DrawBuffer()
      ensures Valid() && screenInitialized
      ensures DrawBuffer()[..] == if old(screenInitialized) then old(DrawBuffer()[..])
                                  else ClearPattern(old(DrawBuffer()[..]), req)
    {
      if screenInitialized {
        return;
      }
      var buff := DrawBuffer();
      if req.depth.bpp == 32 {
        FillWords(buff, 0, req.buff.screenSize / 4, BackColor);
      } else if req.depth.bpp == 8 {
        FillWords(buff, 0, req.buff.screenSize / 4, 0x0101_0101);
      }
      screenInitialized := true;
    }

    /** `video_set_resolution`: sends the mode request (and the palette when
        8 bpp is asked for), takes the firmware's answer `response` as the new
        `fb_req`, clears the screen if it was never cleared, and marks the
        frame dirty. */
    method SetResolution(xres: Uint32, yres: Uint32, bpp: Uint32, response: FbRequest)
      requires Valid()
      requires ModeFits(response) && response.buff.screenSize <= hw.Length
      modifies this, vid, hw
      ensures Valid()
      ensures mailbox == old(mailbox) + [FramebufferRequest(ResolutionRequest(xres, yres, bpp))]
                         + (if bpp == 8 then [PaletteRequest(DefaultPalette)] else [])
      ensures req == response && screenInitialized && frameDirty
      ensures useDma == old(useDma) && dmaLog == old(dmaLog)
      ensures DrawBuffer()[..] == if old(screenInitialized) then old(DrawBuffer()[..])
                                  else ClearPattern(old(DrawBuffer()[..]), response)
      ensures unchanged(IdleBuffer())
    {
      mailbox := mailbox + [FramebufferRequest(ResolutionRequest(xres, yres, bpp))];
      req := response;
      if bpp == 8 {
        mailbox := mailbox + [PaletteRequest(DefaultPalette)];
      }
      ClearScreenOnce();
      frameDirty := true;
    }

    /** `video_draw_pixel`: a pixel outside the resolution is ignored; an
        in-range pixel is stored at the depth's width and marks the frame
        dirty. */
    method DrawPixel(x: Uint32, y: Uint32, color: bv32)
      requires Valid()
      modifies this`frameDirty, DrawBuffer()
      ensures Valid()
      ensures !(x < req.res.xres && y < req.res.yres) ==>
                frameDirty == old(frameDirty) && DrawBuffer()[..] == old(DrawBuffer()[..])
      ensures x < req.res.xres && y < req.res.yres ==>
                frameDirty && DrawBuffer()[..] == PixelStore(old(DrawBuffer()[..]), req, x, y, color)
    {
      if x >= req.res.xres || y >= req.res.yres {
        return;
      }
      StorePixel(DrawBuffer(), req, x, y, color);
      frameDirty := true;
    }

    /** `video_draw_box`: fills `h` rows of `w` words at 32-bit addressing,
        without clipping, and marks the frame dirty even for an empty box. */
    method DrawBox(x: Uint32, y: Uint32, w: Uint32, h: Uint32, color: bv32)
      requires Valid()
      requires BoxFits(x, y, w, h, req.pitch.pitch / 4, DrawBuffer().Length)
      modifies this`frameDirty, DrawBuffer()
      ensures Valid() && frameDirty
      ensures DrawBuffer()[..] == BoxFill(old(DrawBuffer()[..]), x, y, w, h, req.pitch.pitch / 4, color)
    {
      FillBox(DrawBuffer(), x, y, w, h, req.pitch.pitch / 4, color);
      frameDirty := true;
    }

    /** `video_draw_rect_outline`: the top, bottom, left and right strips of
        width `thickness`, drawn as four boxes in that order. */
    method DrawRectOutline(x: Uint32, y: Uint32, w: Uint32, h: Uint32, color: bv32, thickness: Uint32)
      requires Valid()
      requires thickness <= w && thickness <= h
      requires BoxFits(x, y, w, h, req.pitch.pitch / 4, DrawBuffer().Length)
      modifies this`frameDirty, DrawBuffer()
      ensures Valid() && frameDirty
      ensures BoxesFit(OutlineBoxes(x, y, w, h, thickness), req.pitch.pitch / 4, DrawBuffer().Length)
      ensures DrawBuffer()[..] == OutlineFill(old(DrawBuffer()[..]), OutlineBoxes(x, y, w, h, thickness),
                                              req.pitch.pitch / 4, color)
    {
      var buff := DrawBuffer();
      var pitch := req.pitch.pitch / 4;
      var boxes := OutlineBoxes(x, y, w, h, thickness);
      OutlineBoxesFit(x, y, w, h, thickness, pitch, buff.Length);
      assert forall i :: 0 <= i < 4 ==> BoxFits(boxes[i].x, boxes[i].y, boxes[i].w, boxes[i].h, pitch, buff.Length);
      ghost var s0 := buff[..];
      var top, bottom, left, right := boxes[0], boxes[1], boxes[2], boxes[3];
      assert BoxFits(top.x, top.y, top.w, top.h, pitch, buff.Length);
      assert BoxFits(bottom.x, bottom.y, bottom.w, bottom.h, pitch, buff.Length);
      assert BoxFits(left.x, left.y, left.w, left.h, pitch, buff.Length);
      assert BoxFits(right.x, right.y, right.w, right.h, pitch, buff.Length);
      DrawBox(top.x, top.y, top.w, top.h, color);
      ghost var s1 := buff[..];
      DrawBox(bottom.x, bottom.y, bottom.w, bottom.h, color);
      ghost var s2 := buff[..];
      DrawBox(left.x, left.y, left.w, left.h, color);
      ghost var s3 := buff[..];
      DrawBox(right.x, right.y, right.w, right.h, color);
      OutlineFillOfFour(s0, s1, s2, s3, buff[..], boxes, pitch, color);
    }
  }
}
