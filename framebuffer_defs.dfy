/** The declarations of include/Graphics/framebuffer.h: the colours baked
    into the background buffers and the glyph cache, the fixed layout of the
    graphics memory region, the firmware request records, the bus-address
    macro and the routing of draws to the DMA buffer or to the firmware
    framebuffer. */
module FramebufferDefs {
  import opened Memory
  import Mem

  const TextColor: bv32 := 0xFFFF_FFFF
  const BackColor: bv32 := 0xFF1E_1E2E
  const MB: nat := 1024 * 1024

  /** Where the CPU sees the uncached alias of memory (unused by the draws). */
  const UncachedMemBase: nat := 0x4000_0000

  const Bg32MemLocation: nat := Mem.GraphStartMemory + 10 * MB
  const Bg8MemLocation: nat := Bg32MemLocation + 10 * MB
  const VbMemLocation: nat := Bg8MemLocation + 4 * MB

  /** The glyph cache is placed 4 MB after the draw buffer (font.c:35), so the
      draw buffer can hold at most 4 MB. */
  const GlyphCacheLocation: nat := VbMemLocation + 4 * MB

  const Bg32Size: nat := 10 * MB
  const Bg8Size: nat := 4 * MB
  const VbSize: nat := GlyphCacheLocation - VbMemLocation

  /** The three graphics regions sit at 14, 24 and 28 MB and the glyph cache at
      32 MB, where low memory ends. */
  lemma RegionLayout()
    ensures Bg32MemLocation == 14 * MB && Bg8MemLocation == 24 * MB
    ensures VbMemLocation == 28 * MB && GlyphCacheLocation == Mem.LowMemory
    ensures VbSize == 4 * MB
  {
  }

  /** The word fills of video_init cover each background region exactly: the
      32-bit fill ends where the 8-bit region starts, and the 8-bit fill ends
      where the draw buffer starts. */
  lemma BackgroundFillsTileTheRegion()
    ensures Bg32MemLocation + 4 * (Bg32Size / 4) == Bg8MemLocation
    ensures Bg8MemLocation + 4 * (Bg8Size / 4) == VbMemLocation
  {
  }

  /** `BUS_ADDR(x)`: OR-ing in 0x40000000 is undone by the mask, because the
      mask `~0xC0000000` is the 32-bit constant 0x3FFFFFFF. */
  function BusAddr(x: bv64): (r: bv64)
    ensures r == x & 0x3FFF_FFFF
  {
    (x | 0x4000_0000) & (!(0xC000_0000 as bv32)) as bv64
  }

  /** `DRAWBUFFER`: the DMA buffer when DMA presentation is on, otherwise the
      firmware framebuffer itself. */
  function DrawBufferOf<T>(useDma: bool, dmaBuffer: T, framebuffer: T): T
  {
    if useDma then dmaBuffer else framebuffer
  }

  /** The firmware property tags used by the display (their numeric values
      live in mailbox.h, which is not part of this model). */
  datatype TagId =
    | NoTag
    | SetPhysicalWidthHeight
    | SetVirtualWidthHeight
    | SetDepth
    | AllocateBuffer
    | GetPitch
    | SetPaletteTag

  datatype Tag = Tag(id: TagId, bufferSize: Uint32, valueLength: Uint32)

  datatype FbSize = FbSize(tag: Tag, xres: Uint32, yres: Uint32)
  datatype FbDepth = FbDepth(tag: Tag, bpp: Uint32)
  datatype FbBuffer = FbBuffer(tag: Tag, base: Uint32, screenSize: Uint32)
  datatype FbPitch = FbPitch(tag: Tag, pitch: Uint32)

  /** `mailbox_fb_request`: the record handed to the firmware and, after the
      call, the firmware's answer (resolution, depth, buffer and pitch). */
  datatype FbRequest = FbRequest(res: FbSize, vres: FbSize, depth: FbDepth, buff: FbBuffer, pitch: FbPitch)

  /** `mailbox_set_palette` with its eight entries. */
  datatype SetPalette = SetPalette(tag: Tag, offset: Uint32, numEntries: Uint32, entries: seq<bv32>)

  const NoTagValue: Tag := Tag(NoTag, 0, 0)

  /** The zero-initialised global `fb_req`. */
  const ZeroRequest: FbRequest :=
    FbRequest(FbSize(NoTagValue, 0, 0), FbSize(NoTagValue, 0, 0), FbDepth(NoTagValue, 0),
              FbBuffer(NoTagValue, 0, 0), FbPitch(NoTagValue, 0))
}
