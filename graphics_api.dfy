/** The C++ facade of src/Graphics/GraphicsAPI.cpp: a `Renderer` that guards
    the display calls behind its `initialized` flag and checks the requested
    mode, and a `TextObject` that owns one entry of the compositor's text
    table and gives it up on destruction or move.  `panic` halts the kernel;
    here it is an explicit `panicked` outcome, and a call that panics before
    doing anything changes nothing. */
module GraphicsApi {
  import opened Memory
  import opened FramebufferDefs
  import opened Framebuffer
  import opened CStrings
  import opened Font
  import Colors
  import C = Compositor

  /** The smallest mode `configure` accepts. */
  const MinWidth: nat := 320
  const MinHeight: nat := 200

  /** The default outline width of `drawRectOutline`. */
  const DefaultThickness: Uint32 := 2

  /** The default colour of a `TextObject`. */
  const DefaultColor: bv32 := Colors.White

  /** The modes `configure` lets through: at least 320x200, at 8, 16 or 32 bpp. */
  predicate ModeAccepted(w: Uint32, h: Uint32, bpp: Uint32)
  {
    w >= MinWidth && h >= MinHeight && (bpp == 8 || bpp == 16 || bpp == 32)
  }

  /** The theme's background is the compositor's `BACK_COLOR`. */
  lemma ThemeMatchesCompositor()
    ensures Colors.ThemeBackground == BackColor
  {
  }

  /** `Graphics::Renderer`: its own flags and the recorded mode, over the
      global display state (`comp`, with the framebuffer and glyph cache it
      reaches). */
  class Renderer {
    var initialized: bool
    var useDma: bool
    var currentWidth: Uint32
    var currentHeight: Uint32
    var currentBpp: Uint32
    /** The kernel's display globals. */
    const comp: C.Compositor

    ghost predicate Valid()
      reads this, comp, comp.slots, comp.screen, comp.glyphs, comp.glyphs.mem
    {
      comp.Valid()
    }

    /** The in-class defaults: not initialised, DMA on, no mode. */
    constructor (display: C.Compositor)
      requires display.Valid()
      ensures Valid() && comp == display
      ensures !initialized && useDma && currentWidth == 0 && currentHeight == 0 && currentBpp == 0
    {
      comp := display;
      initialized := false;
      useDma := true;
      currentWidth, currentHeight, currentBpp := 0, 0, 0;
    }

    /** `cleanup`, also run by the destructor: back to the defaults. */
    method Cleanup()
      modifies this
      ensures !initialized && useDma && currentWidth == 0 && currentHeight == 0 && currentBpp == 0
    {
      initialized := false;
      useDma := true;
      currentWidth, currentHeight, currentBpp := 0, 0, 0;
    }

    /** `init`: runs `video_init` the first time only; always succeeds. */
    method Init() returns (ok: bool)
      requires Valid()
      modifies this`initialized, comp.screen.bg32, comp.screen.bg8, comp.screen`frameDirty,
               comp.glyphs`initialized, comp.glyphs.mem
      ensures Valid() && ok && initialized
      ensures old(initialized) ==>
        && unchanged(comp.screen.bg32) && unchanged(comp.screen.bg8) && unchanged(comp.glyphs.mem)
        && comp.screen.frameDirty == old(comp.screen.frameDirty)
        && comp.glyphs.initialized == old(comp.glyphs.initialized)
      ensures !old(initialized) ==>
        && comp.screen.bg32[..] == Filled(old(comp.screen.bg32[..]), 0, Bg32Size / 4, BackColor)
        && comp.screen.bg8[..] == Filled(old(comp.screen.bg8[..]), 0, Bg8Size / 4, 0x0101_0101)
        && comp.glyphs.initialized && CacheHolds(comp.glyphs.mem[..], comp.glyphs.face)
        && comp.screen.frameDirty
      ensures comp.Objects() == old(comp.Objects())
    {
      if initialized {
        return true;
      }
      comp.VideoInit();
      initialized := true;
      return true;
    }

    /** `configure`: panics before an `init` or for a mode it does not
      accept; otherwise sets the resolution (the firmware answering with
      `response`) and records the mode. */
    method Configure(w: Uint32, h: Uint32, bpp: Uint32, response: FbRequest) returns (panicked: bool)
      requires Valid()
      requires ModeFits(response) && response.buff.screenSize <= comp.screen.hw.Length
      modifies this`currentWidth, this`currentHeight, this`currentBpp, comp.screen, comp.screen.vid, comp.screen.hw
      ensures Valid()
      ensures panicked <==> !initialized || !ModeAccepted(w, h, bpp)
      ensures panicked ==>
        && unchanged(this) && unchanged(comp.screen) && unchanged(comp.screen.vid) && unchanged(comp.screen.hw)
      ensures !panicked ==>
        && currentWidth == w && currentHeight == h && currentBpp == bpp
        && comp.screen.req == response && comp.screen.screenInitialized && comp.screen.frameDirty
        && comp.screen.mailbox == old(comp.screen.mailbox) + [FramebufferRequest(ResolutionRequest(w, h, bpp))]
                                  + (if bpp == 8 then [PaletteRequest(DefaultPalette)] else [])
        && comp.screen.useDma == old(comp.screen.useDma)
        && comp.screen.DrawBuffer()[..] ==
             (if old(comp.screen.screenInitialized) then old(comp.screen.DrawBuffer()[..])
              else ClearPattern(old(comp.screen.DrawBuffer()[..]), response))
        && comp.screen.IdleBuffer()[..] == old(comp.screen.IdleBuffer()[..])
    {
      if !initialized || !ModeAccepted(w, h, bpp) {
        return true;
      }
      comp.screen.SetResolution(w, h, bpp, response);
      currentWidth, currentHeight, currentBpp := w, h, bpp;
      return false;
    }

    /** `presentFrame`: panics before an `init`; otherwise renders a frame,
      which counts a frame and cleans the drawn objects only when something
      was dirty. */
    method PresentFrame(startTicks: nat, endTicks: nat) returns (panicked: bool)
      requires Valid() && startTicks < C.U64Limit && endTicks < C.U64Limit
      modifies comp`frameCount, comp`lastFrameTime, comp.slots, comp.screen`frameDirty, comp.screen`dmaLog,
               comp.screen.vid, comp.screen.hw
      ensures Valid()
      ensures panicked <==> !initialized
      ensures panicked || !old(comp.screen.frameDirty) ==>
        && comp.frameCount == old(comp.frameCount) && comp.Objects() == old(comp.Objects())
        && unchanged(comp.screen.vid) && unchanged(comp.screen.hw)
        && comp.screen.frameDirty == old(comp.screen.frameDirty) && comp.lastFrameTime == old(comp.lastFrameTime)
      ensures !panicked && old(comp.screen.frameDirty) ==>
        && !comp.screen.frameDirty && comp.frameCount == Add32(old(comp.frameCount), 1)
        && comp.lastFrameTime == C.ElapsedMs(startTicks, endTicks)
        && comp.Objects() == C.Drawn(old(comp.Objects()))
        && comp.screen.DrawBuffer()[..] ==
             C.TextLayer(C.Background(old(comp.screen.DrawBuffer()[..]), comp.screen.bg32[..], comp.screen.bg8[..],
                                      comp.screen.req, comp.screen.useDma),
                         comp.screen.req, comp.glyphs.face, comp.glyphs.initialized, old(comp.Objects()))
        && (comp.screen.useDma ==>
              && comp.screen.hw[..comp.screen.req.buff.screenSize] == comp.screen.vid[..comp.screen.req.buff.screenSize]
              && comp.screen.hw[comp.screen.req.buff.screenSize..] == old(comp.screen.hw[comp.screen.req.buff.screenSize..]))
        && (!comp.screen.useDma ==> comp.screen.vid[..] == old(comp.screen.vid[..]))
    {
      if !initialized {
        return true;
      }
      comp.RenderFrame(startTicks, endTicks);
      return false;
    }

    /** `enableDma`: records the choice and routes drawing accordingly: to
      the off-screen buffer with DMA, straight to the firmware buffer
      without. */
    method EnableDma(enable: bool)
      requires Valid()
      modifies this`useDma, comp.screen`useDma
      ensures Valid() && useDma == enable && comp.screen.useDma == enable
      ensures comp.screen.DrawBuffer() == if enable then comp.screen.vid else comp.screen.hw
    {
      useDma := enable;
      comp.screen.SetDma(enable);
    }

    /** `markDirty`. */
    method MarkDirty()
      requires Valid()
      modifies comp.screen`frameDirty
      ensures Valid() && comp.screen.frameDirty
    {
      comp.MarkDirty();
    }

    /** `drawBox`: panics before an `init`; otherwise fills the box. */
    method DrawBox(x: Uint32, y: Uint32, w: Uint32, h: Uint32, color: bv32) returns (panicked: bool)
      requires Valid()
      requires BoxFits(x, y, w, h, comp.screen.req.pitch.pitch / 4, comp.screen.DrawBuffer().Length)
      modifies comp.screen`frameDirty, comp.screen.DrawBuffer()
      ensures Valid()
      ensures panicked <==> !initialized
      ensures panicked ==> unchanged(comp.screen) && unchanged(comp.screen.DrawBuffer())
      ensures !panicked ==>
        && comp.screen.frameDirty
        && comp.screen.DrawBuffer()[..] ==
             BoxFill(old(comp.screen.DrawBuffer()[..]), x, y, w, h, comp.screen.req.pitch.pitch / 4, color)
    {
      if !initialized {
        return true;
      }
      comp.screen.DrawBox(x, y, w, h, color);
      return false;
    }

    /** `drawRectOutline` (outline width `DefaultThickness` when the caller
      gives none): panics before an `init`; otherwise draws the four strips. */
    method DrawRectOutline(x: Uint32, y: Uint32, w: Uint32, h: Uint32, color: bv32, thickness: Uint32)
      returns (panicked: bool)
      requires Valid()
      requires thickness <= w && thickness <= h
      requires BoxFits(x, y, w, h, comp.screen.req.pitch.pitch / 4, comp.screen.DrawBuffer().Length)
      modifies comp.screen`frameDirty, comp.screen.DrawBuffer()
      ensures Valid()
      ensures panicked <==> !initialized
      ensures panicked ==> unchanged(comp.screen) && unchanged(comp.screen.DrawBuffer())
      ensures !panicked ==>
        && comp.screen.frameDirty
        && BoxesFit(OutlineBoxes(x, y, w, h, thickness), comp.screen.req.pitch.pitch / 4, comp.screen.DrawBuffer().Length)
        && comp.screen.DrawBuffer()[..] ==
             OutlineFill(old(comp.screen.DrawBuffer()[..]), OutlineBoxes(x, y, w, h, thickness),
                         comp.screen.req.pitch.pitch / 4, color)
    {
      if !initialized {
        return true;
      }
      comp.screen.DrawRectOutline(x, y, w, h, color, thickness);
      return false;
    }
  }

  /** `Graphics::TextObject`: a handle on one entry of the text table.  The
      caller's string is held by value (`text`); a valid handle's id was
      handed out by the table, so it lies below the table's counter. */
  class TextObject {
    var id: nat
    var text: seq<bv8>
    var x: Uint32
    var y: Uint32
    var color: bv32
    var visible: bool
    var valid: bool
    /** The global text table. */
    const registry: C.Compositor

    ghost predicate Valid()
      reads this, registry, registry.slots, registry.screen, registry.glyphs, registry.glyphs.mem
    {
      && registry.Valid()
      && (valid ==> ReadableUpTo(text, C.MaxTextLength - 1) && id < registry.nextId)
    }

    /** The constructor: adds the text to the table; a full table makes it
      panic, leaving the handle invalid with id 0 and the table as it was. */
    constructor (text: seq<bv8>, x: Uint32, y: Uint32, color: bv32, registry: C.Compositor)
      requires registry.Valid() && ReadableUpTo(text, C.MaxTextLength - 1)
      modifies registry`count, registry`nextId, registry.slots, registry.screen`frameDirty
      ensures Valid() && this.registry == registry
      ensures this.text == text && this.x == x && this.y == y && this.color == color && visible
      ensures old(registry.count) >= C.MaxTextObjects ==>
        && !valid && id == 0
        && registry.Objects() == old(registry.Objects()) && registry.nextId == old(registry.nextId)
      ensures old(registry.count) < C.MaxTextObjects ==>
        && valid && id == old(registry.nextId)
        && registry.Objects() == old(registry.Objects()) + [C.TextEntry(C.StoredText(text), x, y, color, true, true, id)]
    {
      this.text := text;
      this.x := x;
      this.y := y;
      this.color := color;
      visible := true;
      valid := false;
      this.registry := registry;
      id := 0;
      new;
      id := registry.AddText(text, x, y, color);
      if id == 0 {
        return;
      }
      valid := true;
    }

    /** The destructor: a valid handle takes its entry out of the table, so
      the id is gone from it afterwards; the handle ends invalid. */
    method Destroy()
      requires Valid()
      modifies this`valid, registry`count, registry.slots, registry.screen`frameDirty
      ensures Valid() && !valid
      ensures !old(valid) ==> registry.Objects() == old(registry.Objects())
      ensures old(valid) ==>
        && registry.Objects() == C.Removed(old(registry.Objects()), id)
        && C.FindId(registry.Objects(), id) < 0
    {
      if valid {
        C.RemovedForgetsId(registry.Objects(), id);
        registry.RemoveText(id);
        valid := false;
      }
    }

    /** The move constructor: takes over everything `other` holds and leaves
      it with id 0, no text and invalid; the table is not touched. */
    constructor Moved(other: TextObject)
      requires other.Valid()
      modifies other`id, other`text, other`valid
      ensures Valid() && other.Valid() && registry == other.registry
      ensures id == old(other.id) && text == old(other.text) && valid == old(other.valid)
      ensures x == other.x && y == other.y && color == other.color && visible == other.visible
      ensures other.id == 0 && other.text == [] && !other.valid
    {
      id := other.id;
      text := other.text;
      x := other.x;
      y := other.y;
      color := other.color;
      visible := other.visible;
      valid := other.valid;
      registry := other.registry;
      new;
      other.id := 0;
      other.text := [];
      other.valid := false;
    }

    /** Move assignment: assigning a handle to itself changes nothing;
      otherwise this handle first gives up its own entry (when valid), then
      takes over `other`, which is left with id 0, no text and invalid. */
    method MoveAssign(other: TextObject)
      requires Valid() && other.Valid() && other.registry == registry
      modifies this, other`id, other`text, other`valid, registry`count, registry.slots, registry.screen`frameDirty
      ensures Valid() && other.Valid()
      ensures other == this ==> unchanged(this) && registry.Objects() == old(registry.Objects())
      ensures other != this ==>
        && id == old(other.id) && text == old(other.text) && valid == old(other.valid)
        && x == old(other.x) && y == old(other.y) && color == old(other.color) && visible == old(other.visible)
        && other.id == 0 && other.text == [] && !other.valid
        && registry.Objects() == if old(valid) then C.Removed(old(registry.Objects()), old(id)) else old(registry.Objects())
    {
      if this != other {
        if valid {
          registry.RemoveText(id);
        }
        TakeOver(other);
      }
    }

    /** The field transfer of the move assignment: this handle takes every
      field of `other`, which is left with id 0, no text and invalid. */
    method TakeOver(other: TextObject)
      requires registry.Valid() && other.Valid() && other.registry == registry && other != this
      modifies this, other`id, other`text, other`valid
      ensures Valid() && other.Valid()
      ensures && id == old(other.id) && text == old(other.text) && valid == old(other.valid)
              && x == old(other.x) && y == old(other.y) && color == old(other.color) && visible == old(other.visible)
              && other.id == 0 && other.text == [] && !other.valid
    {
      id := other.id;
      text := other.text;
      x := other.x;
      y := other.y;
      color := other.color;
      visible := other.visible;
      valid := other.valid;
      other.id := 0;
      other.text := [];
      other.valid := false;
    }

    /** `setText`: panics on an invalid handle; otherwise holds the new text
      and updates the entry, which changes only when the string differs. */
    method SetText(t: seq<bv8>) returns (panicked: bool)
      requires Valid() && Terminated(t)
      modifies this`text, registry.slots, registry.screen`frameDirty
      ensures Valid()
      ensures panicked <==> !valid
      ensures panicked ==>
        && text == old(text) && registry.Objects() == old(registry.Objects())
        && registry.screen.frameDirty == old(registry.screen.frameDirty)
      ensures !panicked ==>
        && text == t && registry.Objects() == C.Retexted(old(registry.Objects()), id, t)
        && registry.screen.frameDirty == (old(registry.screen.frameDirty) || C.TextDiffers(old(registry.Objects()), id, t))
    {
      if !valid {
        return true;
      }
      text := t;
      registry.UpdateText(id, t);
      return false;
    }

    /** `setPosition`: panics on an invalid handle; otherwise holds the new
      position and moves the entry. */
    method SetPosition(newX: Uint32, newY: Uint32) returns (panicked: bool)
      requires Valid()
      modifies this`x, this`y, registry.slots, registry.screen`frameDirty
      ensures Valid()
      ensures panicked <==> !valid
      ensures panicked ==>
        && x == old(x) && y == old(y) && registry.Objects() == old(registry.Objects())
        && registry.screen.frameDirty == old(registry.screen.frameDirty)
      ensures !panicked ==>
        && x == newX && y == newY && registry.Objects() == C.Relocated(old(registry.Objects()), id, newX, newY)
        && registry.screen.frameDirty == (old(registry.screen.frameDirty) || C.PositionDiffers(old(registry.Objects()), id, newX, newY))
    {
      if !valid {
        return true;
      }
      x, y := newX, newY;
      registry.MoveText(id, x, y);
      return false;
    }

    /** `setVisible`: panics on an invalid handle; otherwise holds the flag
      and sets it on the entry. */
    method SetVisible(vis: bool) returns (panicked: bool)
      requires Valid()
      modifies this`visible, registry.slots, registry.screen`frameDirty
      ensures Valid()
      ensures panicked <==> !valid
      ensures panicked ==>
        && visible == old(visible) && registry.Objects() == old(registry.Objects())
        && registry.screen.frameDirty == old(registry.screen.frameDirty)
      ensures !panicked ==>
        && visible == vis && registry.Objects() == C.Reshown(old(registry.Objects()), id, vis)
        && registry.screen.frameDirty == (old(registry.screen.frameDirty) || C.VisibilityDiffers(old(registry.Objects()), id, vis))
    {
      if !valid {
        return true;
      }
      visible := vis;
      registry.SetTextVisible(id, vis);
      return false;
    }

    /** `setColor`: panics on an invalid handle; otherwise removes the entry
      and adds the text again in the new colour.  The entry comes back under
      a fresh, larger id, last in the table and visible whatever the
      handle's own flag says; if the table is still full after the removal
      (the handle's id was no longer in it), the re-add fails and it panics
      with id 0. */
    method SetColor(newColor: bv32) returns (panicked: bool)
      requires Valid()
      modifies this`color, this`id, registry`count, registry`nextId, registry.slots, registry.screen`frameDirty
      ensures Valid()
      ensures !old(valid) ==>
        && panicked && color == old(color) && id == old(id)
        && registry.Objects() == old(registry.Objects()) && registry.nextId == old(registry.nextId)
      ensures old(valid) ==>
        color == newColor &&
        var rest := C.Removed(old(registry.Objects()), old(id));
        if |rest| >= C.MaxTextObjects then
          panicked && id == 0 && registry.Objects() == rest
        else
          && !panicked && id == old(registry.nextId) && old(id) < id
          && registry.Objects() == rest + [C.TextEntry(C.StoredText(text), x, y, newColor, true, true, id)]
    {
      if !valid {
        return true;
      }
      color := newColor;
      panicked := Readd();
    }

    /** The remove and re-add of `setColor`, with the handle's current fields. */
    method Readd() returns (panicked: bool)
      requires Valid() && valid
      modifies this`id, registry`count, registry`nextId, registry.slots, registry.screen`frameDirty
      ensures Valid()
      ensures var rest := C.Removed(old(registry.Objects()), old(id));
        if |rest| >= C.MaxTextObjects then
          panicked && id == 0 && registry.Objects() == rest
        else
          && !panicked && id == old(registry.nextId) && old(id) < id
          && registry.Objects() == rest + [C.TextEntry(C.StoredText(text), x, y, color, true, true, id)]
    {
      registry.RemoveText(id);
      assert |registry.Objects()| == registry.count;
      id := registry.AddText(text, x, y, color);
      return id == 0;
    }
  }

  /** `Graphics::clearAllText`. */
  method ClearAllText(registry: C.Compositor)
    requires registry.Valid()
    modifies registry`count, registry.screen`frameDirty
    ensures registry.Valid() && registry.Objects() == []
    ensures old(registry.count) > 0 ==> registry.screen.frameDirty
    ensures old(registry.count) == 0 ==> registry.screen.frameDirty == old(registry.screen.frameDirty)
  {
    registry.ClearAllText();
  }
}
