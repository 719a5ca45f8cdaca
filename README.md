# RPI3-4-OS display stack, GPIO and heap: a Dafny model

This project models the core of a bare-metal Raspberry Pi kernel. It covers
the display stack, GPIO, the heap and the bus-address macro, and proves
properties of each.

- **Text compositor** (`src/Graphics/compositor.c`). The compositor keeps a
  table of at most 128 text objects. Each object has a 128-byte text buffer,
  a position, a colour, a visibility flag, a dirty flag and a unique id. Ids
  count up from 1.
  - Adding appends to the table.
  - Updating, moving and showing or hiding change the first entry with the
    id, and only when the new value differs.
  - Removing shifts the later entries down.
  - A frame is rendered only when something is dirty. It clears to the
    background pattern, draws the visible objects in table order, presents
    the result by DMA and counts the frame.
- **Frame store** (`src/Graphics/framebuffer.c`, `include/Graphics/framebuffer.h`).
  - The firmware-negotiated mode.
  - The DMA draw buffer and the two background buffers.
  - The routing of draws to the DMA buffer or to the firmware framebuffer.
  - The chunked DMA copy.
  - The one-time screen clear.
  - The pixel, box and outline primitives.
- **Glyph cache and text drawing** (`src/Graphics/font.c`).
  - A cache that pre-renders every character at 32 and 8 bpp.
  - A character drawer that paints from the font's pixel test, and one that
    copies the cached rows with an unrolled loop.
  - The string walk with its fixed-grid wrap.
- **C++ facade** (`src/Graphics/GraphicsAPI.cpp`,
  `include/Graphics/GraphicsAPI.hpp`).
  - A `Renderer` that guards the display calls and checks the mode.
  - A `TextObject` that owns one table entry across destruction and moves.
  - The ARGB colour helpers.
- **First-fit heap allocator** (`src/heap_allocator.c`).
- **GPIO function-select and output helpers** (`src/gpio.c`). These follow
  the BCM2835 ARM Peripherals manual, section 6.1.
- **`BUS_ADDRESS` macro and memory-map constants** (`include/mem.h`,
  `include/mm.h`).

Memory is a byte array and is read little-endian, as on the ARM cores.
Word, halfword and byte stores are written out over it (module `Memory`),
so the 8-, 16- and 32-bpp views of a buffer alias as they do in the kernel.

Global state becomes classes:
- `FrameStore` for framebuffer.c;
- `GlyphCache` for font.c;
- `Compositor` for compositor.c;
- `Renderer` and `TextObject` for the C++ facade;
- `Heap` for the allocator;
- `GpioRegs` for the register block.

Their methods state the new state in terms of specification functions. The
properties of those functions are proved as lemmas.

Calls into code outside the model become parameters:
- the firmware's answer to the mode request;
- the timer readings around a frame;
- the font's size and pixel test.

`panic` becomes an explicit `panicked` outcome that changes nothing.

Three behaviours of the code that are easy to misread:
- No code resets `screen_initialized`, so the screen is cleared on the
  first `video_set_resolution` only, not on every mode change.
- The background buffers are filled only in `video_init`, not on a mode
  change.
- The header declares a capacity of 1024 text objects. The compositor
  redefines it as 128, and the model uses 128.

## Model

| member | source | states |
|---|---|---|
| Compositor.TextOf | src/Graphics/compositor.c:22 | the string an object shows is its buffer up to the first NUL, which lies inside the 128 bytes |
| Compositor.StoredText | src/Graphics/compositor.c:83-84 | the stored buffer is 128 bytes and its last byte is NUL |
| Compositor.StoredTextReadsBack | src/Graphics/compositor.c:83-84 | a stored text reads back as the caller's string cut to 127 characters |
| Compositor.FindId | src/Graphics/compositor.c:98-99 | the lookup returns the first index holding the id, or -1 when no entry holds it |
| Compositor.FindIdExact | src/Graphics/compositor.c:90 | with ids increasing along the table, the lookup names index k if and only if k holds the id |
| Compositor.AppendKeepsTable | src/Graphics/compositor.c:80-93 | storing a new entry in the first free slot under the counter's id keeps the table invariant and appends exactly that entry |
| Compositor.ReplaceKeepsTable | src/Graphics/compositor.c:100-103 | changing a live entry without changing its id keeps the table invariant and changes only that entry |
| Compositor.RemoveKeepsTable | src/Graphics/compositor.c:146-149 | the shift-down and decrement keep the invariant and leave the live entries minus the removed one, in order |
| Compositor.Shifted | src/Graphics/compositor.c:146-148 | the shifting loop keeps the table's size |
| Compositor.ReplaceKeepsOrder | src/Graphics/compositor.c:116-119 | an in-place change that keeps the id keeps ids strictly increasing |
| Compositor.RemoveKeepsOrder | src/Graphics/compositor.c:146-149 | removing one entry keeps ids strictly increasing and keeps only entries that were there |
| Compositor.AppendKeepsOrder | src/Graphics/compositor.c:90 | appending an entry whose id is above every existing one keeps ids increasing, and the lookup finds it last |
| Compositor.FindIdSameIds | src/Graphics/compositor.c:98-99 | the lookup depends only on the ids, slot by slot |
| Compositor.Retexted | src/Graphics/compositor.c:97-110 | an update keeps every entry's id and well-formedness and the table's length |
| Compositor.RetextSettles | src/Graphics/compositor.c:100-104 | a repeated update finds nothing to change, unless the text is longer than 127 characters and so was stored cut |
| Compositor.Relocated | src/Graphics/compositor.c:113-125 | a move keeps every entry's id and text and the table's length |
| Compositor.RelocateSettles | src/Graphics/compositor.c:116-121 | repeating a move finds nothing to change, and a move is idempotent |
| Compositor.Reshown | src/Graphics/compositor.c:128-139 | a visibility change keeps every entry's id and text and the table's length |
| Compositor.ReshowSettles | src/Graphics/compositor.c:131-135 | repeating a visibility change finds nothing to change, and it is idempotent |
| Compositor.Removed | src/Graphics/compositor.c:142-154 | a removal shortens the table by one exactly when the id is present |
| Compositor.RemovedForgetsId | src/Graphics/compositor.c:142-154 | with unique ids, a removal keeps ids increasing, forgets the id for good and keeps every other entry |
| Compositor.Background | src/Graphics/compositor.c:175-204 | the background copy: the screen's bytes from the 32- or 8-bpp pattern, through DMA or word by word, and nothing at other depths |
| Compositor.ObjectEffect | src/Graphics/compositor.c:209-210 | a hidden object draws nothing |
| Compositor.TextLayer | src/Graphics/compositor.c:207-214 | drawing the objects in table order keeps the buffer's size |
| Compositor.Visible | src/Graphics/compositor.c:209 | the visible objects are exactly the table's objects whose flag is set |
| Compositor.TextLayerOfVisible | src/Graphics/compositor.c:207-214 | the frame depends only on the visible objects: hidden ones leave no trace |
| Compositor.TextLayerStep | src/Graphics/compositor.c:207-214 | one more object is drawn over what the earlier objects left |
| Compositor.Drawn | src/Graphics/compositor.c:207-214 | after a frame, visible objects are no longer dirty, hidden ones are untouched, and nothing else changes |
| Compositor.ElapsedMs | src/Graphics/compositor.c:172-224 | the frame time is the end reading's milliseconds minus the start's, in 64-bit arithmetic |
| Compositor.CopyWord | src/Graphics/compositor.c:184-185 | one word of the CPU copy, as a 32-bit load and store: the four bytes come from the source and nothing else changes |
| Compositor.CopyText | src/Graphics/compositor.c:83-84 | the bounded copy followed by the NUL store gives the stored text |
| Compositor.CopyWords | src/Graphics/compositor.c:180-188 | the unrolled CPU copy copies exactly `words` words and leaves the rest of the destination alone |
| Compositor.Compositor.constructor | src/Graphics/compositor.c:15-32 | at boot the table is empty, ids start at 1 and no frame has been counted |
| Compositor.Compositor.VideoInit | src/Graphics/framebuffer.c:21-43 | `video_init` fills both background patterns, fills the glyph cache, marks the frame dirty and leaves the table alone |
| Compositor.Compositor.Find | src/Graphics/compositor.c:98-99 | the lookup loop returns the first index holding the id, or -1 |
| Compositor.Compositor.Append | src/Graphics/compositor.c:82-90 | storing an entry appends it to the table and bumps the id counter |
| Compositor.Compositor.Replace | src/Graphics/compositor.c:101-103 | overwriting a live slot with an entry of the same id changes only that slot |
| Compositor.Compositor.Delete | src/Graphics/compositor.c:146-149 | dropping the slot the id finds leaves the table as `Removed` says |
| Compositor.Compositor.ShiftDown | src/Graphics/compositor.c:146-148 | the shifting loop moves each later slot down by one |
| Compositor.Compositor.AddText | src/Graphics/compositor.c:79-94 | a full table returns 0 and changes nothing; otherwise exactly one entry is appended (text cut to 127 characters, visible, dirty, id from the counter), the counter advances, the frame is dirty and the id is returned |
| Compositor.Compositor.UpdateText | src/Graphics/compositor.c:97-110 | the table becomes `Retexted`, and the frame becomes dirty exactly when the text differed |
| Compositor.Compositor.MoveText | src/Graphics/compositor.c:113-125 | the table becomes `Relocated`, and the frame becomes dirty exactly when the position differed |
| Compositor.Compositor.SetTextVisible | src/Graphics/compositor.c:128-139 | the table becomes `Reshown`, and the frame becomes dirty exactly when the flag differed |
| Compositor.Compositor.RemoveText | src/Graphics/compositor.c:142-154 | the table becomes `Removed`, and the frame becomes dirty exactly when the id was present |
| Compositor.Compositor.ClearAllText | src/Graphics/compositor.c:157-162 | the table becomes empty; the frame becomes dirty only when it was non-empty |
| Compositor.Compositor.MarkDirty | src/Graphics/compositor.c:237-239 | the frame is dirty |
| Compositor.Compositor.FrameTime | src/Graphics/compositor.c:228-230 | the frame time cut to 32 bits |
| Compositor.Compositor.RenderFrame | src/Graphics/compositor.c:167-225 | a clean frame changes nothing; a dirty frame composes background plus visible text, presents it by DMA (the firmware buffer past `screen_size` untouched) or leaves the DMA buffer untouched without DMA, cleans the drawn objects, clears the dirty flag, counts the frame (mod 2^32) and records the elapsed time |
| Compositor.Compositor.RenderDirty | src/Graphics/compositor.c:172-224 | a dirty pass leaves the composed picture in the draw buffer; with DMA the screen receives it and the firmware buffer past `screen_size` is untouched; without DMA the DMA buffer is untouched |
| Compositor.Compositor.Compose | src/Graphics/compositor.c:175-214 | the draw buffer is the text layer over the background, and the visible objects are cleaned |
| Compositor.Compositor.ClearBackground | src/Graphics/compositor.c:175-204 | the draw buffer becomes the depth's background pattern over the screen's bytes |
| Compositor.Compositor.CopyByDma | src/Graphics/compositor.c:176-177 | the DMA clear copies `screen_size` bytes of the pattern into the DMA buffer |
| Compositor.Compositor.CopyByCpu | src/Graphics/compositor.c:179-189 | the CPU clear copies `screen_size / 4` words of the pattern into the firmware buffer |
| Compositor.Compositor.DrawAll | src/Graphics/compositor.c:207-214 | the drawing loop draws every visible object in table order and cleans it |
| Compositor.Compositor.DrawStep | src/Graphics/compositor.c:207-214 | one pass extends the drawn prefix of the table by one object |
| Compositor.Compositor.DrawObject | src/Graphics/compositor.c:208-213 | a visible object is drawn and cleaned; a hidden one is left alone |
| Compositor.Compositor.Present | src/Graphics/compositor.c:217-224 | with DMA the screen receives the draw buffer and keeps its bytes past `screen_size`; without DMA the screen is untouched; the flag is cleared, the frame counted and the time recorded; nothing else changes |
| CStrings.CStrLen | src/Graphics/font.c:91-92 | the measured length is the index of the first NUL |
| CStrings.CString | src/Graphics/font.c:91-92 | the characters before the first NUL, none of them NUL |
| CStrings.CopiedLen | src/Graphics/compositor.c:51-53 | the copy stops at the source's first NUL or after n bytes |
| CStrings.StrNCpy | src/Graphics/compositor.c:47-61 | the first n bytes are the source up to its NUL padded with NULs, and bytes from n on are untouched |
| CStrings.BoundedCopyReadsBack | src/Graphics/compositor.c:83-84 | a bounded copy cut with a NUL reads back as the source string cut to n characters |
| CStrings.FirstDifferenceUnique | src/Graphics/compositor.c:71 | two strings first part at one index only |
| CStrings.LexLessAt | src/Graphics/compositor.c:65-69 | one string sorts before another exactly when, where they first part, it has ended and the other has not, or its byte is smaller |
| CStrings.EqualAt | src/Graphics/compositor.c:65-66 | two strings are equal exactly when both end where they first part |
| CStrings.OrderAtFirstDifference | src/Graphics/compositor.c:65-69 | the difference of the bytes where two NUL-free strings first part, reading the end as NUL, is 0, negative or positive exactly when they are equal, in lexicographic order, or in reverse order |
| CStrings.Scan | src/Graphics/compositor.c:71-74 | the scan loop stops where the first string ends or the two first disagree |
| CStrings.StopOrders | src/Graphics/compositor.c:75 | the unsigned difference of the two bytes where the scan stopped orders the two C strings: 0 when equal, negative when the first sorts first, positive when it sorts last |
| CStrings.StrCmp | src/Graphics/compositor.c:65-76 | the result is negative exactly when the first C string sorts before the second in unsigned-byte lexicographic order, positive exactly when it sorts after, 0 exactly when they are equal, and lies in -255..255 |
| Font.CellInsideGlyph | src/Graphics/font.c:45 | a cell index `y * W + x` lies inside the glyph |
| Font.CellIndexOrder | src/Graphics/font.c:37-49 | cells visited later have larger indices |
| Font.CellIndexBound | src/Graphics/font.c:38-39 | every cell index lies inside the 256 tiles |
| Font.StoreCell | src/Graphics/font.c:47-48 | the two cache stores of one cell keep the cache's size |
| Font.CellIndexDistinct | src/Graphics/font.c:38-39 | different cells of the tile arrays never share a slot |
| Font.WordTilesBeforeByteTiles | src/Graphics/font.c:38-39 | the 32-bit tiles end where the 8-bit tiles begin, so the two arrays are disjoint |
| Font.StoreCellKeeps | src/Graphics/font.c:47-48 | storing one cell leaves every other cell's word and byte alone |
| Font.StoreCellWrites | src/Graphics/font.c:47-48 | storing a cell writes TEXT_COLOR/BACK_COLOR and index 2/1 from the pixel test |
| Font.StoreCellStep | src/Graphics/font.c:47-48 | a store pre-renders its cell and keeps every other cell's content |
| Font.CachedBeforeStep | src/Graphics/font.c:42-50 | after a cell is stored, every cell up to it is pre-rendered |
| Font.CachedBeforeStart | src/Graphics/font.c:37 | nothing is visited before the first cell |
| Font.CachedBeforeNextRow | src/Graphics/font.c:42-43 | past a row's last column, the cached prefix reaches the next row |
| Font.CachedBeforeNextChar | src/Graphics/font.c:37-42 | past a glyph's last row, the cached prefix reaches the next character |
| Font.CachedBeforeAll | src/Graphics/font.c:37-51 | after all 256 characters, every cell of every glyph is cached |
| Font.GlyphTile | src/Graphics/font.c:73-74 | the tile of a glyph has its height in rows and its width in columns |
| Font.CacheLine32 | src/Graphics/font.c:121 | a source line of the 32-bit cache has the requested number of words |
| Font.CacheLine8 | src/Graphics/font.c:141 | a source line of the 8-bit cache has the requested number of bytes |
| Font.CacheTile32 | src/Graphics/font.c:116-121 | the 32-bit tile copied for a character has the glyph's shape |
| Font.CacheTile8 | src/Graphics/font.c:137-141 | the 8-bit tile copied for a character has the glyph's shape |
| Font.CachedTilesAreGlyphs | src/Graphics/font.c:42-49 | once the cache holds, the tiles copied out of it are the glyph painted TEXT_COLOR on BACK_COLOR, and 2 on 1 at 8 bpp |
| Font.PenTile32 | src/Graphics/font.c:73-74 | the 32-bit tile a pen paints has the glyph's shape |
| Font.PenTile8 | src/Graphics/font.c:82-83 | the 8-bit tile a pen paints has the glyph's shape |
| Font.RejectionAgreesWithoutWrap | src/Graphics/font.c:60-61 | without u32 wrap, the check as written and the intended check agree |
| Font.AsWrittenCheckLetsWrappedCellThrough | src/Graphics/font.c:60-61 | an 8x16 glyph at x = 0xFFFFFFFF on a 640x480 screen passes the check as written, but lies outside the screen |
| Font.CellInside | src/Graphics/font.c:60-61 | a cell that passes the intended check lies inside the screen at 32 and 8 bpp, and its rows fit the pitch |
| Font.CharEffect | src/Graphics/font.c:58-87 | drawing one character keeps the buffer's size and, unpainted, changes nothing |
| Font.CharEffectSkips | src/Graphics/font.c:59-61 | before the cache is set up, or for a cell that fails the check, nothing is written (no partial clipping) |
| Font.CharEffectPaints32 | src/Graphics/font.c:66-76 | at 32 bpp every word of the cell holds its tile value |
| Font.CharEffectPaints8 | src/Graphics/font.c:77-85 | at 8 bpp every byte of the cell holds its tile value |
| Font.CharEffectFrame | src/Graphics/font.c:66-86 | a drawn character changes nothing outside its cell, and nothing at all at other depths |
| Font.CachedCharMatchesColoredChar | src/Graphics/font.c:106-157 | with the cache filled, draw_char paints what draw_char_colored paints in the cache's colours |
| Font.CachePen | src/Graphics/font.c:47-48 | the cache's colours are a pair of colours |
| Font.Layout | src/Graphics/font.c:89-103 | one cell per character, in order, the first at the starting position |
| Font.LayoutStep | src/Graphics/font.c:96-101 | each next cell is `W + 2` to the right, or, when `x + W >= xres`, at the start column `H + 2` lower |
| Font.CellsEffect | src/Graphics/font.c:94-102 | drawing the cells in order keeps the buffer's size |
| Font.LayoutNext | src/Graphics/font.c:94-101 | character i sits at the pen, and the rest is laid out from the next pen position |
| Font.CellsEffectNext | src/Graphics/font.c:94-95 | one more cell is drawn over what the earlier cells drew |
| Font.CachedStringMatchesColoredString | src/Graphics/font.c:159-176 | with the cache filled, draw_string paints what draw_string_colored paints in the cache's colours |
| FontDraw.GlyphTileValue | src/Graphics/font.c:73-74 | a glyph tile holds the pixel test's colour at every cell |
| FontDraw.PaintPixel32 | src/Graphics/font.c:73-74 | one pixel of the coloured drawer is a single word store |
| FontDraw.PaintRow32 | src/Graphics/font.c:72-75 | the column loop paints the row's words from the pixel test |
| FontDraw.PaintCellRow32 | src/Graphics/font.c:70-75 | a row of the coloured drawer at 32 bpp paints the tile row at `(pos_y + y) * pitch_words + pos_x` |
| FontDraw.PaintCell32 | src/Graphics/font.c:66-76 | the 32-bpp branch of draw_char_colored paints the whole cell |
| FontDraw.PaintRow8 | src/Graphics/font.c:81-84 | a row of the coloured drawer at 8 bpp stores the colours' low bytes |
| FontDraw.PaintCell8 | src/Graphics/font.c:77-85 | the 8-bpp branch of draw_char_colored paints the whole cell |
| FontDraw.CopyWord32 | src/Graphics/font.c:126-129 | `dest[k] = src_line[k]` for one word |
| FontDraw.StoreLineWord | src/Graphics/font.c:126-129 | one word store extends the copied prefix of the row |
| FontDraw.CopyFourWords32 | src/Graphics/font.c:126-132 | one turn of the unrolled loop copies four words |
| FontDraw.CopyQuads32 | src/Graphics/font.c:125-133 | the unrolled loop copies the largest multiple of four words |
| FontDraw.CopyTail32 | src/Graphics/font.c:134 | the tail loop copies the remaining words |
| FontDraw.CopyRow32 | src/Graphics/font.c:124-134 | the unrolled and tail loops together equal a plain copy of W words |
| FontDraw.CacheLineIsWords | src/Graphics/font.c:121 | a cache line is the cache's words from its start |
| FontDraw.CacheTileRowIsWords | src/Graphics/font.c:116-121 | row y of a 32-bit tile is the cache's words from `c * W * H + y * W` |
| FontDraw.CopyCellRow32 | src/Graphics/font.c:119-135 | one row of draw_char at 32 bpp copies the tile row to the row base |
| FontDraw.CopyCell32 | src/Graphics/font.c:114-135 | the 32-bpp branch of draw_char copies every row of the cached tile |
| FontDraw.CopyByte8 | src/Graphics/font.c:146-149 | `dest[k] = src_line[k]` for one byte |
| FontDraw.CopyQuads8 | src/Graphics/font.c:145-153 | the unrolled byte loop copies the largest multiple of four bytes |
| FontDraw.CopyTail8 | src/Graphics/font.c:154 | the tail loop copies the remaining bytes |
| FontDraw.CopyRow8 | src/Graphics/font.c:144-154 | the 8-bpp unrolled and tail loops equal a plain copy of W bytes |
| FontDraw.CopyCellRow8 | src/Graphics/font.c:139-155 | one row of draw_char at 8 bpp copies the tile row to the row base |
| FontDraw.CopyCell8 | src/Graphics/font.c:136-156 | the 8-bpp branch of draw_char copies every row of the cached tile |
| FontDraw.GlyphCache.constructor | src/Graphics/font.c:16-18 | at boot nothing is cached |
| FontDraw.GlyphCache.DrawCharColored | src/Graphics/font.c:58-87 | the buffer becomes `CharEffect` with the given colours (low bytes at 8 bpp) |
| FontDraw.GlyphCache.DrawChar | src/Graphics/font.c:106-157 | the buffer becomes `CharEffect` with the tiles copied from the cache |
| FontDraw.GlyphCache.DrawStringColored | src/Graphics/font.c:89-103 | the buffer becomes the draws of the C string's `Layout` cells, one per byte before the NUL, in the given colours |
| FontDraw.GlyphCache.DrawCellsColored | src/Graphics/font.c:94-102 | the drawing loop draws the first len cells of the layout |
| FontDraw.GlyphCache.DrawNextColored | src/Graphics/font.c:95-101 | one turn draws the next cell and moves the pen as `Layout` says |
| FontDraw.GlyphCache.DrawString | src/Graphics/font.c:159-176 | the buffer becomes the draws of the C string's `Layout` cells, copied from the cache |
| FontDraw.GlyphCache.DrawCells | src/Graphics/font.c:167-175 | the drawing loop draws the first len cells from the cache |
| FontDraw.GlyphCache.DrawNext | src/Graphics/font.c:168-174 | one turn draws the next cell from the cache and moves the pen |
| FontDraw.GlyphCache.Init | src/Graphics/font.c:28-53 | afterwards the cache holds every glyph and the flag is set; a second call changes nothing |
| FontDraw.GlyphCache.CacheAll | src/Graphics/font.c:37-51 | the three loops pre-render every cell of every glyph |
| FontDraw.GlyphCache.CacheChar | src/Graphics/font.c:37-50 | one pass of the character loop extends the cached prefix to the next character |
| FontDraw.GlyphCache.CacheGlyph | src/Graphics/font.c:42-50 | the row loop caches every row of one glyph |
| FontDraw.GlyphCache.CacheRow | src/Graphics/font.c:43-49 | the column loop caches one row |
| FontDraw.GlyphCache.CacheCell | src/Graphics/font.c:44-48 | one cell is stored at both depths |
| Framebuffer.DmaPlanSizes | src/Graphics/framebuffer.c:52-56 | zero bytes need no transfer; every transfer moves 1 to 0x3FFFFF bytes, and all but the last exactly 0x3FFFFF |
| Framebuffer.DmaPlanContiguous | src/Graphics/framebuffer.c:55-63 | the transfers follow one another without gaps from the start offset |
| Framebuffer.DmaPlanTotal | src/Graphics/framebuffer.c:55-64 | the transfers add up to the total |
| Framebuffer.DmaPlanCount | src/Graphics/framebuffer.c:55-64 | the number of transfers is the total divided by 0x3FFFFF, rounded up |
| Framebuffer.DmaTransfer | src/Graphics/framebuffer.c:58-60 | one transfer copies its bytes and changes nothing else |
| Framebuffer.Filled | src/Graphics/framebuffer.c:31-33 | a word fill sets every word in its range and leaves every other byte and word alone |
| Framebuffer.FillWords | src/Graphics/framebuffer.c:77-79 | the fill loop leaves the buffer as `Filled` says |
| Framebuffer.ResolutionRequest | src/Graphics/framebuffer.c:93-119 | the request asks for physical and virtual size both (xres, yres), depth bpp, a 16-byte aligned buffer and the pitch |
| Framebuffer.ClearPattern | src/Graphics/framebuffer.c:75-85 | the clear keeps the buffer's size |
| Framebuffer.PixelInside | src/Graphics/framebuffer.c:151-159 | an in-range pixel's element lies inside the screen at every depth |
| Framebuffer.PixelStore | src/Graphics/framebuffer.c:151-160 | a pixel store keeps the buffer's size |
| Framebuffer.PixelStoreWritesOneElement | src/Graphics/framebuffer.c:151-160 | a pixel store writes exactly one word (32 bpp), halfword `color & 0xFFFF` (16 bpp) or byte `color & 0xFF`, at the pixel's address |
| Framebuffer.StorePixel | src/Graphics/framebuffer.c:151-160 | the depth switch leaves the buffer as `PixelStore` says |
| Framebuffer.BoxFill | src/Graphics/framebuffer.c:165-175 | a box fill keeps the buffer's size |
| Framebuffer.BoxFillColors | src/Graphics/framebuffer.c:168-173 | every word `(y + row) * pitch + x + col` of the box holds the colour |
| Framebuffer.BoxFillFrame | src/Graphics/framebuffer.c:168-173 | every word outside the box is unchanged |
| Framebuffer.BoxFillStep | src/Graphics/framebuffer.c:168-172 | one more row of a box is one more fill of w words at the row's start |
| Framebuffer.FillBox | src/Graphics/framebuffer.c:168-173 | the row loop leaves the buffer as `BoxFill` says |
| Framebuffer.OutlineBoxes | src/Graphics/framebuffer.c:180-186 | an outline is four strips |
| Framebuffer.BottomStripFits | src/Graphics/framebuffer.c:182 | with `thickness <= h` the bottom strip lies inside the outline's box |
| Framebuffer.RightStripFits | src/Graphics/framebuffer.c:186 | with `thickness <= w` the right strip lies inside the outline's box |
| Framebuffer.OutlineBoxesFit | src/Graphics/framebuffer.c:177-187 | all four strips lie inside the outline's box |
| Framebuffer.OutlineFill | src/Graphics/framebuffer.c:180-186 | drawing the strips keeps the buffer's size |
| Framebuffer.OutlineFillOfFour | src/Graphics/framebuffer.c:180-186 | four box draws in order give the outline fill |
| Framebuffer.OutlineFillColors | src/Graphics/framebuffer.c:177-187 | every word of every strip holds the colour |
| Framebuffer.OutlineFillFrame | src/Graphics/framebuffer.c:177-187 | every word outside all strips is unchanged |
| Framebuffer.FrameStore.DrawBuffer | include/Graphics/framebuffer.h:76 | `DRAWBUFFER` is the DMA buffer or the firmware framebuffer |
| Framebuffer.FrameStore.IdleBuffer | include/Graphics/framebuffer.h:74-76 | the buffer draws do not target is the other of the two |
| Framebuffer.FrameStore.constructor | src/Graphics/framebuffer.c:12-18 | at boot `fb_req` is zero, DMA is on and nothing is cleared or dirty |
| Framebuffer.FrameStore.InitBackgrounds | src/Graphics/framebuffer.c:31-37 | 10 MB of BACK_COLOR words and 4 MB of `0x01010101` words |
| Framebuffer.FrameStore.SetDma | src/Graphics/framebuffer.c:46-48 | the DMA flag takes the argument |
| Framebuffer.FrameStore.DoDma | src/Graphics/framebuffer.c:50-66 | the first `total` bytes are copied, the rest untouched, and the transfers issued are `DmaPlan(0, total)` |
| Framebuffer.FrameStore.VideoDma | src/Graphics/framebuffer.c:68-70 | the screen receives `screen_size` bytes of the DMA buffer |
| Framebuffer.FrameStore.ClearScreenOnce | src/Graphics/framebuffer.c:72-88 | the first call clears `screen_size / 4` words by depth and sets the flag; later calls change nothing |
| Framebuffer.FrameStore.SetResolution | src/Graphics/framebuffer.c:92-145 | the request is sent, then the palette only at 8 bpp; the answer becomes the mode; the screen is cleared once; the frame is dirty |
| Framebuffer.FrameStore.DrawPixel | src/Graphics/framebuffer.c:148-162 | an out-of-range pixel changes nothing and leaves the flag alone; an in-range one is `PixelStore` and marks the frame dirty |
| Framebuffer.FrameStore.DrawBox | src/Graphics/framebuffer.c:165-175 | the draw buffer becomes `BoxFill`, and the frame is dirty even for an empty box |
| Framebuffer.FrameStore.DrawRectOutline | src/Graphics/framebuffer.c:177-187 | the draw buffer becomes the top, bottom, left and right strips drawn in that order |
| FramebufferDefs.RegionLayout | include/Graphics/framebuffer.h:68-70 | BG32 at 14 MB, BG8 at 24 MB, VB at 28 MB, and 4 MB of draw buffer before the glyph cache |
| FramebufferDefs.BackgroundFillsTileTheRegion | src/Graphics/framebuffer.c:31-37 | the two background fills cover [BG32, BG8) and [BG8, VB) exactly |
| FramebufferDefs.BusAddr | include/Graphics/framebuffer.h:73 | `BUS_ADDR(x)` is `x & 0x3FFFFFFF`: the OR with 0x40000000 is cancelled |
| Gpio.Code | include/Gpio/gpio.h:5-14 | every function code fits three bits |
| Gpio.CodeInjective | include/Gpio/gpio.h:5-14 | two functions have the same code if and only if they are the same function |
| Gpio.WithFieldReadsBack | src/gpio.c:13-14 | the mask-and-or sets the field, leaves the other nine fields and the two top bits alone |
| Gpio.FieldsApart | src/gpio.c:13-14 | fields of distinct pins in one register share no bit |
| Gpio.BitStart | src/gpio.c:8-9 | `(pin * 3) % 30` is `3 * (pin % 10)` |
| Gpio.InitStep | src/gpio.c:34-37 | setting the next pin's field extends the run of set fields by one |
| Gpio.FieldOffset | src/gpio.c:8 | the computed bit start is three times the pin's place in its register |
| Gpio.PinMask | src/gpio.c:41 | the mask has exactly bit `pin % 32` set |
| Gpio.GpioRegs.SetFunc | src/gpio.c:7-18 | only register `pin / 10` changes, and in it only the pin's field, which becomes the code |
| Gpio.GpioRegs.Enable | src/gpio.c:20-27 | the pin's clock is pulsed and both pull-up/down registers end at zero |
| Gpio.GpioRegs.Set | src/gpio.c:40-42 | word `pin / 32` of GPSET receives the pin's mask |
| Gpio.GpioRegs.Clear | src/gpio.c:44-46 | word `pin / 32` of GPCLR receives the pin's mask |
| Gpio.GpioRegs.Init | src/gpio.c:29-38 | pins 1 to 6, in order, take the function and are pulsed; only fields 1 to 6 of GPFSEL0 change; GPPUD and GPPUDCLK0 end at zero and GPPUDCLK1 is untouched |
| Gpio.GpioRegs.InitPin | src/gpio.c:35-36 | one turn sets one more field and pulses one more pin, leaving GPPUD and GPPUDCLK0 at zero |
| GraphicsApi.ThemeMatchesCompositor | include/Graphics/GraphicsAPI.hpp:95 | `Theme::BACKGROUND` is `BACK_COLOR` |
| GraphicsApi.Renderer.constructor | include/Graphics/GraphicsAPI.hpp:10-14 | a fresh renderer is not initialised, has DMA on and no mode |
| GraphicsApi.Renderer.Cleanup | src/Graphics/GraphicsAPI.cpp:12-18 | back to the defaults |
| GraphicsApi.Renderer.Init | src/Graphics/GraphicsAPI.cpp:20-26 | `video_init` runs only the first time; the result is always true |
| GraphicsApi.Renderer.Configure | src/Graphics/GraphicsAPI.cpp:28-38 | panics, changing nothing, exactly when uninitialised or the mode is below 320x200 or not 8/16/32 bpp; otherwise sends the mode request (and the palette at 8 bpp), takes the answer as the mode, clears the draw buffer on the first mode set only, leaves the other buffer alone and records the mode |
| GraphicsApi.Renderer.PresentFrame | src/Graphics/GraphicsAPI.cpp:40-44 | panics exactly when uninitialised; a clean frame changes nothing; a dirty one leaves the text layer over the background in the draw buffer, presents it by DMA when DMA is on, cleans the drawn objects, counts the frame and records its time |
| GraphicsApi.Renderer.EnableDma | src/Graphics/GraphicsAPI.cpp:46-49 | both flags take the choice, and draws go to the DMA buffer or the firmware buffer accordingly |
| GraphicsApi.Renderer.MarkDirty | src/Graphics/GraphicsAPI.cpp:51-53 | the frame is dirty |
| GraphicsApi.Renderer.DrawBox | src/Graphics/GraphicsAPI.cpp:63-66 | panics exactly when uninitialised; otherwise fills the box |
| GraphicsApi.Renderer.DrawRectOutline | src/Graphics/GraphicsAPI.cpp:68-71 | panics exactly when uninitialised; otherwise draws the outline |
| GraphicsApi.TextObject.constructor | src/Graphics/GraphicsAPI.cpp:76-84 | a full table panics with an invalid handle and id 0; otherwise the handle is valid and owns the appended entry |
| GraphicsApi.TextObject.Destroy | src/Graphics/GraphicsAPI.cpp:86-91 | a valid handle removes its entry, whose id is then gone; the handle ends invalid |
| GraphicsApi.TextObject.Moved | src/Graphics/GraphicsAPI.cpp:94-108 | the new handle takes everything, and the source is left with id 0, no text and invalid |
| GraphicsApi.TextObject.MoveAssign | src/Graphics/GraphicsAPI.cpp:111-133 | self-assignment changes nothing; otherwise the target's own entry is removed first, then it takes over the source |
| GraphicsApi.TextObject.TakeOver | src/Graphics/GraphicsAPI.cpp:119-130 | every field is transferred and the source is reset |
| GraphicsApi.TextObject.SetText | src/Graphics/GraphicsAPI.cpp:135-139 | panics exactly on an invalid handle; otherwise holds the text and updates the entry |
| GraphicsApi.TextObject.SetPosition | src/Graphics/GraphicsAPI.cpp:141-146 | panics exactly on an invalid handle; otherwise holds the position and moves the entry |
| GraphicsApi.TextObject.SetVisible | src/Graphics/GraphicsAPI.cpp:157-161 | panics exactly on an invalid handle; otherwise holds the flag and sets it on the entry |
| GraphicsApi.TextObject.SetColor | src/Graphics/GraphicsAPI.cpp:148-155 | the entry is removed and re-added under a fresh, larger id, last in the table and visible; a still-full table panics with id 0 |
| GraphicsApi.TextObject.Readd | src/Graphics/GraphicsAPI.cpp:152-154 | the remove and re-add of setColor |
| GraphicsApi.ClearAllText | src/Graphics/GraphicsAPI.cpp:165-167 | the table is empty afterwards |
| Colors.MakeColor | include/Graphics/GraphicsAPI.hpp:181-186 | each getter reads back the component it was given |
| Colors.MakeRgb | include/Graphics/GraphicsAPI.hpp:189-191 | alpha is 0xFF and the channels are the given ones |
| Colors.WithAlpha | include/Graphics/GraphicsAPI.hpp:194-196 | alpha is replaced and the three channels are kept |
| Colors.SplitThenPack | include/Graphics/GraphicsAPI.hpp:175-186 | packing a colour's four components gives the colour back |
| Colors.ComponentsDetermineColor | include/Graphics/GraphicsAPI.hpp:175-178 | two colours with the same components are equal |
| Colors.WithAlphaTwice | include/Graphics/GraphicsAPI.hpp:194-196 | setting alpha twice equals setting it once to the second value |
| Colors.WithAlphaIsMakeColor | include/Graphics/GraphicsAPI.hpp:181-196 | `withAlpha` is `makeColor` with the colour's own channels |
| HeapAllocator.TilesFootprint | src/heap_allocator.c:26-27 | the block sizes plus headers add up to the heap's length |
| HeapAllocator.TilesDisjoint | src/heap_allocator.c:26 | payloads of distinct blocks do not overlap |
| HeapAllocator.Used | src/heap_allocator.c:33 | the blocks in use are at most all blocks |
| HeapAllocator.FirstFit | src/heap_allocator.c:22-38 | the first free block at least as large as the request, or -1 when none fits |
| HeapAllocator.Aligned | src/heap_allocator.c:17 | the request rounded up to the next multiple of 8 |
| HeapAllocator.AlignedAsWritten | src/heap_allocator.c:17 | the rounding in size_t is a multiple of 8, and equals the intended rounding when the sum does not wrap |
| HeapAllocator.ClearLowBits | src/heap_allocator.c:17 | `& ~7` rounds down to a multiple of 8 |
| HeapAllocator.AsWrittenGrantsHugeRequest | src/heap_allocator.c:17 | a request of 2^64 - 1 bytes rounds to 0 and is granted on a fresh heap |
| HeapAllocator.HugeRequestRefused | src/heap_allocator.c:17-39 | with the intended rounding, no block fits a request larger than the heap |
| HeapAllocator.Allocated | src/heap_allocator.c:25-33 | a split adds one block; otherwise the list keeps its length |
| HeapAllocator.AllocatedKeepsTiling | src/heap_allocator.c:25-34 | taking a fitting block keeps the tiling and hands out a used block of at least n bytes at the same address |
| HeapAllocator.AllocatedKeepsUsed | src/heap_allocator.c:25-33 | every other block in use stays as it was |
| HeapAllocator.Merged | src/heap_allocator.c:51-53 | a merge drops one block |
| HeapAllocator.MergedKeepsTiling | src/heap_allocator.c:51-53 | merging two neighbours keeps the tiling and the blocks before them, with a free block in their place |
| HeapAllocator.MergedKeepsUsed | src/heap_allocator.c:51-53 | merging two free neighbours keeps the blocks in use |
| HeapAllocator.BlockOf | src/heap_allocator.c:45 | the block whose payload starts at the pointer, or -1 |
| HeapAllocator.AllocatedPointerFreeable | src/heap_allocator.c:34-45 | the pointer malloc returns leads free back to the block it took |
| HeapAllocator.Heap.constructor | src/heap_allocator.c:9-14 | one free block of `HEAP_SIZE - sizeof(heap_block_t)` bytes with no successor |
| HeapAllocator.Heap.Malloc | src/heap_allocator.c:16-40 | the first fit is taken as `Allocated` says and its payload address returned; when none fits, 0 and the list is unchanged; the tiling is kept |
| HeapAllocator.Heap.Free | src/heap_allocator.c:42-58 | NULL changes nothing; otherwise the block becomes free, no two neighbours end free, the blocks in use are the others, and the tiling is kept |
| Mem.BusAddress | include/mem.h:13 | bits 30 and 31 set, bits 0-29 kept, nothing above bit 31 |
| Mem.LowMaskValue | include/mem.h:13 | `~0xC0000000` is 0x3FFFFFFF |
| Mem.BusAddressIdempotent | include/mem.h:13 | converting twice is converting once |
| Mem.GpuWindowIsUncached | include/mem.h:9-11 | the GPU window is the uncached alias 0xC0000000 |
| Mem.SectionArithmetic | include/mm.h:3-9 | a section is 2 MB and the graphics region starts at 4 MB |
| Memory.Add32 | src/Graphics/font.c:96 | u32 addition wraps modulo 2^32 |
| Memory.PutWordSpec | src/Graphics/framebuffer.c:153 | a 32-bit store writes its word and no byte outside it |
| Memory.PutWordKeepsOtherWords | src/Graphics/framebuffer.c:153 | a 32-bit store leaves every other word alone |
| Memory.PutHalf | src/Graphics/framebuffer.c:156 | a 16-bit store writes its halfword and no byte outside it |
| Memory.StoreWord | src/Graphics/framebuffer.c:153 | the array store is `PutWord` |
| Memory.LoadWord | src/Graphics/compositor.c:184 | the array load is `WordAt` |
| Memory.StoreHalf | src/Graphics/framebuffer.c:156 | the array store is `PutHalf` |
| Raster.RowPaint32 | src/Graphics/font.c:72-75 | painting a row keeps the buffer's size |
| Raster.RowPaint32Spec | src/Graphics/font.c:72-75 | a painted row holds its values and every other word is unchanged |
| Raster.RowPaint32Keeps | src/Graphics/font.c:72-75 | every word outside the row is unchanged |
| Raster.RowPaint8 | src/Graphics/font.c:81-84 | painting an 8-bit row keeps the buffer's size |
| Raster.RowPaint8Spec | src/Graphics/font.c:81-84 | a painted 8-bit row holds its values and every other byte is unchanged |
| Raster.CellPaint32 | src/Graphics/font.c:69-76 | painting a 32-bit cell keeps the buffer's size |
| Raster.CellPaint8 | src/Graphics/font.c:78-85 | painting an 8-bit cell keeps the buffer's size |
| Raster.CellPaint32Value | src/Graphics/font.c:69-76 | every word of the cell holds its tile value |
| Raster.CellPaint32Frame | src/Graphics/font.c:69-76 | every word outside the cell is unchanged |
| Raster.CellPaint8Value | src/Graphics/font.c:78-85 | every byte of the cell holds its tile value |
| Raster.CellPaint8Frame | src/Graphics/font.c:78-85 | every byte outside the cell is unchanged |

## Left out

- Hardware and firmware calls:
  - `mailbox_process` is the `response` parameter of `SetResolution`.
  - The DMA channel (`dma_open_channel`, `dma_setup_mem_copy`, `dma_start`, `dma_wait`) is one byte copy per chunk.
  - `timer_get_ticks` readings are parameters of `RenderFrame`.
  - `printf` is not modelled.
- `ModeFits`: the firmware's answer is assumed consistent. The screen fits the 4 MB before the glyph cache, and every row fits the pitch. Without this the kernel writes outside its buffers.
- The font data (`font_get_width`, `font_get_height`, `font_get_pixel`) is not part of this model. It is a `FontFace` parameter.
- `Compositor.Compositor.AddText`: ids are unbounded. The model does not capture the u32 wrap of `next_text_id` after 2^32 - 1 additions, so ids stay unique only up to that point.
- `GraphicsApi.TextObject.constructor`: the caller's `const char*` is held by value. Aliasing and lifetime of the caller's string are not modelled, so a later change to that buffer is not seen.
- `GraphicsApi.Renderer.DrawBox`: the unclipped draw needs the box inside the draw buffer (`BoxFits`), because the source writes out of bounds otherwise.
- `Framebuffer.FrameStore.DrawBox`: same as above.
- `GraphicsApi.Renderer.DrawRectOutline`: also requires `thickness <= w` and `thickness <= h`. Otherwise the u32 origins of the bottom and right strips wrap.
- `Framebuffer.FrameStore.DrawRectOutline`: same as above.
- `HeapAllocator.Heap.Free`: requires a pointer that `malloc` handed out, or NULL. Freeing any other address corrupts the list in the source.
- Heap memory contents are not modelled. `malloc` and `free` touch only the headers, which the block sequence stands for.
- The header's `heap_expand` and `heap_stress_test` are not part of this model.
- `Gpio.GpioRegs.SetFunc`: requires `pin < 60`, since GPFSEL has six registers. `Enable`, `Set` and `Clear` require `pin < 64`, since GPSET, GPCLR and GPPUDCLK have two words. Larger pins index outside the register block in the source.
- `Gpio.GpioRegs.Enable`: the two 150-cycle `delay` calls are left out. Only the register writes are modelled.
- `delay_seconds` and `gpio_debug` are busy-wait and demo code.
- The header declares `gpio_init(pinNumber, func)` and `gpio_init_all`. The model follows the definition `gpio_init(func)`.
- `Gpio.PinMask`: `1 << 31` is a signed `int` shift in C. The model takes the intended 32-bit mask.
- The Renderer getters (`getFrameTime`, `getFrameCount`, `isInitialized`, `isDMAEnabled`) and the TextObject getters are plain field reads. `video_get_frame_count` is the `frameCount` field.
- `Font.CharEffect`: the `'?'` fallback for characters of 256 and above is unreachable for an `unsigned char`, so it is not modelled.
- `Font.CharEffect`: applies the intended bounds check (`CellRejected`, without wrap-around), not the u32 sum of `src/Graphics/font.c:60-61`. A cell whose `pos_x + width` or `pos_y + height` wraps past 2^32 is skipped here, while the source stores it outside the draw buffer (see Findings). `RejectionAgreesWithoutWrap` shows the two checks agree whenever the sums do not wrap.
- `FontDraw.GlyphCache.DrawCharColored`: same as `Font.CharEffect`. A wrapped cell is skipped, while the source writes outside the draw buffer.
- `FontDraw.GlyphCache.DrawChar`: same as `Font.CharEffect`, for the check at `src/Graphics/font.c:108-109`.
- `FontDraw.GlyphCache.DrawStringColored`: inherits the intended check. Where the `Add32` pen, or a caller's x near 2^32 (for instance through `AddText`), yields a cell whose sum wraps, the model skips that cell and the source writes outside the draw buffer.
- `FontDraw.GlyphCache.DrawString`: same as `FontDraw.GlyphCache.DrawStringColored`.
- `HeapAllocator.Heap.Malloc`: rounds with the intended `Aligned`, not the size_t sum of `src/heap_allocator.c:17`. For a request in [2^64 - 7, 2^64 - 1] the source rounds to 0 and may hand out a block, while the model returns 0 (see Findings). `AlignedAsWritten` proves the two roundings agree for every smaller request.
- `src/video.c` is an older copy of the same drawing code and is not part of this model.
- `demo_usage` and `GraphicsDemo.cpp` only call the public operations.
- The UART stack, the boot code and `panic`'s halting loop are not modelled. Panics are modelled as the outcome `panicked`.
- The glyph cache, the draw buffer and the background buffers are separate arrays. The model assumes no overlap beyond the fixed layout that `RegionLayout` states.

## Findings

| source | as written | input that shows it | evidently intended | confidence | as-written member | corrected member |
|---|---|---|---|---|---|---|
| src/Graphics/font.c:60-61 | the bounds check `pos_x + font_get_width() > xres` is computed in u32 and wraps | an 8x16 glyph at `pos_x = 0xFFFFFFFF` on a 640x480, 32-bpp screen: the sum wraps to 7, the check passes, and the first store goes to word 0xFFFFFFFF of the 4 MB draw buffer | skip every cell whose right or bottom edge passes the resolution, so every drawn cell lies on the screen | not executed | Font.AsWrittenCheckLetsWrappedCellThrough | Font.CellInside |
| src/heap_allocator.c:17 | `(size + 7) & ~7` is computed in size_t and wraps | `malloc(2^64 - 1)` rounds the request to 0, so the first free block fits and a block is handed out | round up without wrap-around, so a request larger than the heap gets NULL | not executed | HeapAllocator.AsWrittenGrantsHugeRequest | HeapAllocator.HugeRequestRefused |
