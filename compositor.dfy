/** The text compositor of src/Graphics/compositor.c: a fixed table of up to
    128 text objects, each with its own 128-byte string, position, colour,
    visibility and id, and the frame loop that repaints the background and
    then every visible text object whenever something changed. */
module Compositor {
  import opened Memory
  import opened FramebufferDefs
  import opened Framebuffer
  import opened CStrings
  import opened Font
  import opened FontDraw

  /** `MAX_TEXT_OBJECTS` and `MAX_TEXT_LENGTH`. */
  const MaxTextObjects: nat := 128
  const MaxTextLength: nat := 128

  /** `u64` timer values. */
  const U64Limit: int := 0x1_0000_0000_0000_0000

  /** `text_object`. */
  datatype TextEntry = TextEntry(text: seq<bv8>, x: Uint32, y: Uint32, color: bv32,
                                 visible: bool, dirty: bool, id: nat)

  /** A slot of the zero-initialised static table. */
  const EmptyEntry: TextEntry := TextEntry(seq(MaxTextLength, _ => 0), 0, 0, 0, false, false, 0)

  /** A slot holds a 128-byte buffer whose last byte is NUL. */
  predicate WellFormed(e: TextEntry)
  {
    |e.text| == MaxTextLength && e.text[MaxTextLength - 1] == 0
  }

  /** The string an object shows: the C string in its buffer. */
  function TextOf(e: TextEntry): (t: seq<bv8>)
    requires WellFormed(e)
    ensures |t| < MaxTextLength && t == e.text[..|t|] && e.text[|t|] == 0
  {
    assert e.text[MaxTextLength - 1] == 0;
    CString(e.text)
  }

  /** Ids strictly increase along the table, so no id appears twice. */
  predicate IdsIncreasing(objs: seq<TextEntry>)
  {
    forall i, j :: 0 <= i < j < |objs| ==> objs[i].id < objs[j].id
  }

  /** The 128-byte buffer `strncpy(text, src, 127)` followed by `text[127] = 0`
      leaves behind, whatever the slot held before. */
  function StoredText(src: seq<bv8>): (t: seq<bv8>)
    requires ReadableUpTo(src, MaxTextLength - 1)
    ensures |t| == MaxTextLength && t[MaxTextLength - 1] == 0
  {
    var k := CopiedLen(src, MaxTextLength - 1);
    src[..k] + seq(MaxTextLength - k, _ => 0)
  }

  /** A stored text reads back as the caller's string cut to 127 characters. */
  lemma StoredTextReadsBack(src: seq<bv8>)
    requires ReadableUpTo(src, MaxTextLength - 1)
    ensures Terminated(StoredText(src))
    ensures CString(StoredText(src)) == src[..CopiedLen(src, MaxTextLength - 1)]
    ensures Terminated(src) ==>
              CString(StoredText(src)) == if CStrLen(src) <= MaxTextLength - 1 then CString(src) else CString(src)[..MaxTextLength - 1]
  {
    BoundedCopyReadsBack(StoredText(src), src, MaxTextLength - 1);
  }

  /** The index of the first object with `id`, or -1: the entry the lookup
      loops of the update operations stop at. */
  function FindId(objs: seq<TextEntry>, id: nat): (r: int)
    ensures -1 <= r < |objs|
    ensures r >= 0 ==> objs[r].id == id && forall k :: 0 <= k < r ==> objs[k].id != id
    ensures r < 0 ==> forall k :: 0 <= k < |objs| ==> objs[k].id != id
    decreases |objs|
  {
    if |objs| == 0 then -1
    else if objs[0].id == id then 0
    else
      var r := FindId(objs[1..], id);
      if r < 0 then -1 else r + 1
  }

  /** With increasing ids the first match is the only one: `FindId` names
      exactly the entry carrying `id`. */
  lemma FindIdExact(objs: seq<TextEntry>, id: nat, k: int)
    requires IdsIncreasing(objs) && 0 <= k < |objs|
    ensures FindId(objs, id) == k <==> objs[k].id == id
  {
    var r := FindId(objs, id);
    assert objs[k].id == id ==> 0 <= r <= k;
    assert 0 <= r < k ==> objs[r].id < objs[k].id;
  }

  /** The invariant of the table: 128 well-formed slots, at most 128 of them
      live, with ids that increase along the live ones, are never 0 and stay
      below the counter. */
  predicate TableOk(ss: seq<TextEntry>, count: nat, nextId: nat)
  {
    && |ss| == MaxTextObjects && count <= MaxTextObjects
    && (forall i :: 0 <= i < |ss| ==> WellFormed(ss[i]))
    && IdsIncreasing(ss[..count])
    && nextId > 0 && (forall i :: 0 <= i < count ==> 0 < ss[i].id < nextId)
  }

  /** Storing a well-formed entry in the first free slot under the counter's
      id keeps the invariant once count and counter move on; the entry joins
      the end of the live ones and is the one its id finds. */
  lemma AppendKeepsTable(ss: seq<TextEntry>, count: nat, nextId: nat, e: TextEntry)
    requires TableOk(ss, count, nextId) && count < MaxTextObjects && WellFormed(e) && e.id == nextId
    ensures TableOk(ss[count := e], count + 1, nextId + 1)
    ensures ss[count := e][..count + 1] == ss[..count] + [e]
    ensures FindId(ss[count := e][..count + 1], e.id) == count
  {
    var ss' := ss[count := e];
    assert ss'[..count + 1] == ss[..count] + [e];
    AppendKeepsOrder(ss[..count], e);
  }

  /** Changing a live entry, keeping its id and its well-formedness, keeps
      the invariant. */
  lemma ReplaceKeepsTable(ss: seq<TextEntry>, count: nat, nextId: nat, k: nat, e: TextEntry)
    requires TableOk(ss, count, nextId) && k < count && WellFormed(e) && e.id == ss[k].id
    ensures TableOk(ss[k := e], count, nextId)
    ensures ss[k := e][..count] == ss[..count][k := e]
  {
    assert ss[k := e][..count] == ss[..count][k := e];
    ReplaceKeepsOrder(ss[..count], k, e);
  }

  /** Moving the live entries after `k` down one slot and dropping the count
      keeps the invariant, and the live entries are the old ones without
      entry `k`, in the same order. */
  lemma RemoveKeepsTable(ss: seq<TextEntry>, count: nat, nextId: nat, k: nat)
    requires TableOk(ss, count, nextId) && k < count
    ensures TableOk(Shifted(ss, count, k), count - 1, nextId)
    ensures Shifted(ss, count, k)[..count - 1] == ss[..count][..k] + ss[..count][k + 1..]
  {
    assert Shifted(ss, count, k)[..count - 1] == ss[..count][..k] + ss[..count][k + 1..];
    RemoveKeepsOrder(ss[..count], k);
  }

  /** The table after the shifting loop of `video_remove_text`: the slots
      after `k` up to the last live one move down by one; the last live slot
      keeps its old contents. */
  function Shifted(ss: seq<TextEntry>, count: nat, k: nat): (r: seq<TextEntry>)
    requires k < count <= |ss|
    ensures |r| == |ss|
  {
    seq(|ss|, j requires 0 <= j < |ss| => ss[if k <= j < count - 1 then j + 1 else j])
  }

  /** Changing an entry without changing its id keeps the ids increasing. */
  lemma ReplaceKeepsOrder(objs: seq<TextEntry>, k: nat, e: TextEntry)
    requires IdsIncreasing(objs) && k < |objs| && e.id == objs[k].id
    ensures IdsIncreasing(objs[k := e])
  {
    var r := objs[k := e];
    forall i, j | 0 <= i < j < |r| ensures r[i].id < r[j].id {
      assert r[i].id == objs[i].id && r[j].id == objs[j].id;
    }
  }

  /** Removing one entry keeps the ids increasing and the order of the rest. */
  lemma {:induction false} RemoveKeepsOrder(objs: seq<TextEntry>, k: nat)
    requires IdsIncreasing(objs) && k < |objs|
    ensures IdsIncreasing(objs[..k] + objs[k + 1..])
    ensures forall e :: e in objs[..k] + objs[k + 1..] ==> e in objs
  {
    var r := objs[..k] + objs[k + 1..];
    forall i, j | 0 <= i < j < |r| ensures r[i].id < r[j].id {
      var i', j' := if i < k then i else i + 1, if j < k then j else j + 1;
      assert r[i] == objs[i'] && r[j] == objs[j'];
    }
    forall e | e in r ensures e in objs {
      var i :| 0 <= i < |r| && r[i] == e;
      assert r[i] == objs[if i < k then i else i + 1];
    }
  }

  /** An entry appended with an id above every existing one keeps the ids
      increasing, and its id is found at the end. */
  lemma AppendKeepsOrder(objs: seq<TextEntry>, e: TextEntry)
    requires IdsIncreasing(objs) && forall i :: 0 <= i < |objs| ==> objs[i].id < e.id
    ensures IdsIncreasing(objs + [e])
    ensures FindId(objs + [e], e.id) == |objs|
  {
    FindIdExact(objs + [e], e.id, |objs|);
  }

  /** Lookups see only ids: two tables with the same ids, slot by slot,
      find `id` at the same index. */
  lemma FindIdSameIds(a: seq<TextEntry>, b: seq<TextEntry>, id: nat)
    requires |a| == |b| && forall i :: 0 <= i < |a| ==> a[i].id == b[i].id
    ensures FindId(a, id) == FindId(b, id)
  {
    var ra, rb := FindId(a, id), FindId(b, id);
    assert ra >= 0 ==> b[ra].id == id;
    assert rb >= 0 ==> a[rb].id == id;
  }

  /** `video_update_text(id, t)` changes something: `id` is in the table and
      its object shows a different string (`strcmp != 0`). */
  predicate TextDiffers(objs: seq<TextEntry>, id: nat, t: seq<bv8>)
    requires forall i :: 0 <= i < |objs| ==> WellFormed(objs[i])
    requires Terminated(t)
  {
    var k := FindId(objs, id);
    k >= 0 && TextOf(objs[k]) != CString(t)
  }

  /** The table after `video_update_text(id, t)`: when the text differs, the
      object takes `t` (cut to 127 characters) and becomes dirty. */
  function Retexted(objs: seq<TextEntry>, id: nat, t: seq<bv8>): (r: seq<TextEntry>)
    requires forall i :: 0 <= i < |objs| ==> WellFormed(objs[i])
    requires Terminated(t)
    ensures |r| == |objs| && forall i :: 0 <= i < |r| ==> WellFormed(r[i]) && r[i].id == objs[i].id
  {
    if TextDiffers(objs, id, t) then
      var k := FindId(objs, id);
      objs[k := objs[k].(text := StoredText(t), dirty := true)]
    else objs
  }

  /** A repeated update settles (the second call finds nothing to change)
      exactly when the id is absent or the string fits in 127 characters: a
      longer string is cut on storing, so every later update with it counts
      as a change again. */
  lemma RetextSettles(objs: seq<TextEntry>, id: nat, t: seq<bv8>)
    requires forall i :: 0 <= i < |objs| ==> WellFormed(objs[i])
    requires Terminated(t)
    ensures !TextDiffers(Retexted(objs, id, t), id, t) <==> FindId(objs, id) < 0 || !TextDiffers(objs, id, t) || CStrLen(t) < MaxTextLength
  {
    var r := Retexted(objs, id, t);
    FindIdSameIds(objs, r, id);
    var k := FindId(objs, id);
    if TextDiffers(objs, id, t) {
      StoredTextReadsBack(t);
      assert TextOf(r[k]) == CString(StoredText(t));
      if CStrLen(t) >= MaxTextLength {
        assert |TextOf(r[k])| < |CString(t)|;
      }
    }
  }

  /** `video_move_text(id, x, y)` changes something: `id` is in the table
      and either coordinate differs. */
  predicate PositionDiffers(objs: seq<TextEntry>, id: nat, x: Uint32, y: Uint32)
  {
    var k := FindId(objs, id);
    k >= 0 && (objs[k].x != x || objs[k].y != y)
  }

  /** The table after `video_move_text(id, x, y)`. */
  function Relocated(objs: seq<TextEntry>, id: nat, x: Uint32, y: Uint32): (r: seq<TextEntry>)
    ensures |r| == |objs| && forall i :: 0 <= i < |r| ==> r[i].id == objs[i].id && r[i].text == objs[i].text
  {
    if PositionDiffers(objs, id, x, y) then
      var k := FindId(objs, id);
      objs[k := objs[k].(x := x, y := y, dirty := true)]
    else objs
  }

  /** A move settles: repeating it finds nothing to change and leaves the
      table as it is. */
  lemma RelocateSettles(objs: seq<TextEntry>, id: nat, x: Uint32, y: Uint32)
    ensures !PositionDiffers(Relocated(objs, id, x, y), id, x, y)
    ensures Relocated(Relocated(objs, id, x, y), id, x, y) == Relocated(objs, id, x, y)
  {
    FindIdSameIds(objs, Relocated(objs, id, x, y), id);
  }

  /** `video_set_text_visible(id, v)` changes something: `id` is in the
      table and its flag differs. */
  predicate VisibilityDiffers(objs: seq<TextEntry>, id: nat, v: bool)
  {
    var k := FindId(objs, id);
    k >= 0 && objs[k].visible != v
  }

  /** The table after `video_set_text_visible(id, v)`. */
  function Reshown(objs: seq<TextEntry>, id: nat, v: bool): (r: seq<TextEntry>)
    ensures |r| == |objs| && forall i :: 0 <= i < |r| ==> r[i].id == objs[i].id && r[i].text == objs[i].text
  {
    if VisibilityDiffers(objs, id, v) then
      var k := FindId(objs, id);
      objs[k := objs[k].(visible := v, dirty := true)]
    else objs
  }

  /** Setting the flag settles: repeating it finds nothing to change. */
  lemma ReshowSettles(objs: seq<TextEntry>, id: nat, v: bool)
    ensures !VisibilityDiffers(Reshown(objs, id, v), id, v)
    ensures Reshown(Reshown(objs, id, v), id, v) == Reshown(objs, id, v)
  {
    FindIdSameIds(objs, Reshown(objs, id, v), id);
  }

  /** The table after `video_remove_text(id)`: the object with `id` leaves,
      the others keep their order. */
  function Removed(objs: seq<TextEntry>, id: nat): (r: seq<TextEntry>)
    ensures |r| == if FindId(objs, id) < 0 then |objs| else |objs| - 1
  {
    var k := FindId(objs, id);
    if k < 0 then objs else objs[..k] + objs[k + 1..]
  }

  /** With unique ids a removal forgets the id for good, keeps the ids
      increasing, and removes nothing else. */
  lemma RemovedForgetsId(objs: seq<TextEntry>, id: nat)
    requires IdsIncreasing(objs)
    ensures IdsIncreasing(Removed(objs, id))
    ensures FindId(Removed(objs, id), id) < 0
    ensures forall e :: e in objs && e.id != id ==> e in Removed(objs, id)
  {
    var k := FindId(objs, id);
    if k >= 0 {
      var r := Removed(objs, id);
      RemoveKeepsOrder(objs, k);
      forall j | 0 <= j < |r| ensures r[j].id != id {
        var j' := if j < k then j else j + 1;
        assert r[j] == objs[j'];
        FindIdExact(objs, id, j');
      }
      forall e | e in objs && e.id != id ensures e in r {
        var i :| 0 <= i < |objs| && objs[i] == e;
        assert i != k;
        if i < k { assert r[i] == e; } else { assert r[i - 1] == e; }
      }
    }
  }

  /** The buffer `video_render_frame` draws into after its background copy:
      the first bytes of the depth's background pattern (`screen_size` bytes
      by DMA, `screen_size / 4` words by the CPU loop); at any depth other
      than 32 and 8 bpp nothing is copied. */
  function Background(s: seq<bv8>, bg32: seq<bv8>, bg8: seq<bv8>, r: FbRequest, useDma: bool): (t: seq<bv8>)
    requires r.buff.screenSize <= |s| && r.buff.screenSize <= |bg32| && r.buff.screenSize <= |bg8|
    ensures |t| == |s|
    ensures r.depth.bpp != 32 && r.depth.bpp != 8 ==> t == s
    ensures forall i :: 0 <= i < |s| ==>
              t[i] == if (r.depth.bpp == 32 || r.depth.bpp == 8) && i < (if useDma then r.buff.screenSize else 4 * (r.buff.screenSize / 4))
                      then (if r.depth.bpp == 32 then bg32[i] else bg8[i]) else s[i]
  {
    var n := if useDma then r.buff.screenSize else 4 * (r.buff.screenSize / 4);
    if r.depth.bpp == 32 then bg32[..n] + s[n..]
    else if r.depth.bpp == 8 then bg8[..n] + s[n..]
    else s
  }

  /** What `video_draw_string_colored` does for one object: a visible one
      is drawn as its C string in its colour on BACK_COLOR, starting at its
      position; a hidden one draws nothing. */
  function ObjectEffect(s: seq<bv8>, r: FbRequest, face: FontFace, ready: bool, e: TextEntry): (t: seq<bv8>)
    requires ModeFits(r) && r.buff.screenSize <= |s| && WellFormed(e)
    ensures |t| == |s|
    ensures !e.visible ==> t == s
  {
    if e.visible then
      CellsEffect(s, r, face, ready, Layout(TextOf(e), e.x, e.y, e.x, face, r.res.xres), Colors(e.color, BackColor))
    else s
  }

  /** What drawing the objects of `objs` in table order does to the draw
      buffer. */
  function TextLayer(s: seq<bv8>, r: FbRequest, face: FontFace, ready: bool, objs: seq<TextEntry>): (t: seq<bv8>)
    requires ModeFits(r) && r.buff.screenSize <= |s|
    requires forall i :: 0 <= i < |objs| ==> WellFormed(objs[i])
    ensures |t| == |s|
    decreases |objs|
  {
    if |objs| == 0 then s
    else ObjectEffect(TextLayer(s, r, face, ready, objs[..|objs| - 1]), r, face, ready, objs[|objs| - 1])
  }

  /** The visible objects of `objs`, in table order. */
  function Visible(objs: seq<TextEntry>): (v: seq<TextEntry>)
    ensures forall e :: e in v <==> e in objs && e.visible
    ensures |v| <= |objs|
    decreases |objs|
  {
    if |objs| == 0 then []
    else if objs[|objs| - 1].visible then Visible(objs[..|objs| - 1]) + [objs[|objs| - 1]]
    else Visible(objs[..|objs| - 1])
  }

  /** Hidden objects leave no trace: the frame depends only on the visible
      objects and their order. */
  lemma {:induction false} TextLayerOfVisible(s: seq<bv8>, r: FbRequest, face: FontFace, ready: bool, objs: seq<TextEntry>)
    requires ModeFits(r) && r.buff.screenSize <= |s|
    requires forall i :: 0 <= i < |objs| ==> WellFormed(objs[i])
    ensures forall i :: 0 <= i < |Visible(objs)| ==> WellFormed(Visible(objs)[i])
    ensures TextLayer(s, r, face, ready, objs) == TextLayer(s, r, face, ready, Visible(objs))
    decreases |objs|
  {
    if |objs| > 0 {
      var init := objs[..|objs| - 1];
      var last := objs[|objs| - 1];
      TextLayerOfVisible(s, r, face, ready, init);
      var v := Visible(init);
      if last.visible {
        assert Visible(objs) == v + [last];
        assert (v + [last])[..|v|] == v;
        forall i | 0 <= i < |v + [last]| ensures WellFormed((v + [last])[i]) {
          if i == |v| { assert (v + [last])[i] == last; } else { assert (v + [last])[i] == v[i]; }
        }
      } else {
        assert Visible(objs) == v;
      }
    }
  }

  /** One more object of the table drawn over what the earlier ones left. */
  lemma TextLayerStep(s: seq<bv8>, r: FbRequest, face: FontFace, ready: bool, objs: seq<TextEntry>, i: nat)
    requires ModeFits(r) && r.buff.screenSize <= |s|
    requires forall k :: 0 <= k < |objs| ==> WellFormed(objs[k])
    requires i < |objs|
    ensures TextLayer(s, r, face, ready, objs[..i + 1]) == ObjectEffect(TextLayer(s, r, face, ready, objs[..i]), r, face, ready, objs[i])
  {
    assert objs[..i + 1][..i] == objs[..i];
  }

  /** An object after a frame: no longer dirty when it was drawn. */
  function Clean(e: TextEntry): TextEntry
  {
    if e.visible then e.(dirty := false) else e
  }

  /** The table after a frame: every visible object is no longer dirty, and
      nothing else about any object changes. */
  function Drawn(objs: seq<TextEntry>): (d: seq<TextEntry>)
    ensures |d| == |objs|
    ensures forall i :: 0 <= i < |objs| ==> d[i].(dirty := objs[i].dirty) == objs[i]
    ensures forall i :: 0 <= i < |objs| ==> (objs[i].visible ==> !d[i].dirty) && (!objs[i].visible ==> d[i] == objs[i])
  {
    seq(|objs|, i requires 0 <= i < |objs| => Clean(objs[i]))
  }

  /** The elapsed milliseconds `video_render_frame` records, computed in
      64-bit unsigned arithmetic from two timer readings in microseconds. */
  function ElapsedMs(startTicks: nat, endTicks: nat): (ms: nat)
    ensures ms < U64Limit
    ensures startTicks <= endTicks < U64Limit ==> ms == endTicks / 1000 - startTicks / 1000
  {
    (endTicks / 1000 - startTicks / 1000) % U64Limit
  }

  /** `dst[k] = src[k]` on 32-bit pointers: a word load from `src` and a
      word store into `dest`, which leave the four bytes of word `k` equal
      to the source's and every other byte as it was. */
  method CopyWord(dest: array<bv8>, src: array<bv8>, k: nat)
    requires dest != src && 4 * k + 4 <= dest.Length && 4 * k + 4 <= src.Length
    modifies dest
    ensures forall j :: 0 <= j < dest.Length ==> dest[j] == if 4 * k <= j < 4 * k + 4 then src[j] else old(dest[j])
  {
    ghost var before := dest[..];
    var v := LoadWord(src, k);
    StoreWord(dest, k, v);
    PutWordSpec(before, k, v);
    WordAtBytes(dest[..], src[..], k);
  }

  /** The text store of `video_add_text` and `video_update_text`:
      `strncpy(text, src, 127)` into the slot's buffer, then `text[127] = 0`. */
  method CopyText(buffer: seq<bv8>, src: seq<bv8>) returns (stored: seq<bv8>)
    requires |buffer| == MaxTextLength && ReadableUpTo(src, MaxTextLength - 1)
    ensures stored == StoredText(src)
  {
    stored := StrNCpy(buffer, src, MaxTextLength - 1);
    stored := stored[MaxTextLength - 1 := 0];
  }

  /** The CPU background copy of `video_render_frame`: `words` words, four
      at a time while at least four remain, then one at a time. */
  method CopyWords(dest: array<bv8>, src: array<bv8>, words: nat)
    requires dest != src && 4 * words <= dest.Length && 4 * words <= src.Length
    modifies dest
    ensures dest[..4 * words] == src[..4 * words]
    ensures dest[4 * words..] == old(dest[4 * words..])
  {
    var done := 0;
    var count := words;
    while count >= 4
      invariant done + count == words
      invariant forall j :: 0 <= j < 4 * done ==> dest[j] == src[j]
      invariant forall j :: 4 * words <= j < dest.Length ==> dest[j] == old(dest[j])
    {
      CopyWord(dest, src, done);
      CopyWord(dest, src, done + 1);
      CopyWord(dest, src, done + 2);
      CopyWord(dest, src, done + 3);
      done, count := done + 4, count - 4;
    }
    while count > 0
      invariant done + count == words
      invariant forall j :: 0 <= j < 4 * done ==> dest[j] == src[j]
      invariant forall j :: 4 * words <= j < dest.Length ==> dest[j] == old(dest[j])
    {
      CopyWord(dest, src, done);
      done, count := done + 1, count - 1;
    }
    assert dest[..4 * words] == src[..4 * words];
  }

  /** The globals of compositor.c (the text table, its count, the id
      counter, the frame counter and the last frame time) together with the
      display it draws on and the glyph cache it draws with. */
  class Compositor {
    /** `text_objects`: the static table; only the first `count` slots are live. */
    const slots: array<TextEntry>
    /** `num_text_objects`. */
    var count: nat
    /** `next_text_id`. */
    var nextId: nat
    /** `frame_count`. */
    var frameCount: Uint32
    /** `last_frame_time`, in milliseconds. */
    var lastFrameTime: nat
    /** The framebuffer globals, including `frame_dirty`. */
    const screen: FrameStore
    const glyphs: GlyphCache

    ghost predicate Valid()
      reads this, slots, screen, glyphs, glyphs.mem
    {
      && TableOk(slots[..], count, nextId)
      && slots as object != screen.vid && slots as object != screen.hw
      && slots as object != screen.bg32 && slots as object != screen.bg8 && slots as object != glyphs.mem
      && lastFrameTime < U64Limit
      && glyphs.screen == screen && glyphs.Valid()
    }

    /** The live text objects, in table order. */
    ghost function Objects(): seq<TextEntry>
      reads this, slots
      requires count <= slots.Length
    {
      slots[..count]
    }

    /** The globals at boot: an empty table, ids starting at 1, no frames. */
    constructor (display: FrameStore, cache: GlyphCache)
      requires cache.screen == display && cache.Valid()
      ensures Valid() && fresh(slots)
      ensures screen == display && glyphs == cache
      ensures Objects() == [] && nextId == 1 && frameCount == 0 && lastFrameTime == 0
    {
      slots := new TextEntry[MaxTextObjects](_ => EmptyEntry);
      count := 0;
      nextId := 1;
      frameCount := 0;
      lastFrameTime := 0;
      screen := display;
      glyphs := cache;
    }

    /** `video_init`: fills both background patterns, builds the glyph cache
        and marks the frame dirty. It lives here because it reaches both the
        display globals and the glyph cache. */
    method VideoInit()
      requires Valid()
      modifies screen.bg32, screen.bg8, screen`frameDirty, glyphs`initialized, glyphs.mem
      ensures Valid() && screen.frameDirty && glyphs.initialized
      ensures screen.bg32[..] == Filled(old(screen.bg32[..]), 0, Bg32Size / 4, BackColor)
      ensures screen.bg8[..] == Filled(old(screen.bg8[..]), 0, Bg8Size / 4, 0x0101_0101)
      ensures CacheHolds(glyphs.mem[..], glyphs.face)
      ensures Objects() == old(Objects())
    {
      screen.InitBackgrounds();
      glyphs.Init();
      MarkDirty();
    }

    /** The lookup loop shared by the update, move, visibility and removal
        operations: the first live slot holding `id`, or -1. */
    method Find(id: nat) returns (i: int)
      requires Valid()
      ensures i == FindId(Objects(), id)
    {
      i := 0;
      while i < count
        invariant 0 <= i <= count
        invariant forall k :: 0 <= k < i ==> slots[k].id != id
      {
        if slots[i].id == id {
          return;
        }
        i := i + 1;
      }
      i := -1;
    }

    /** Stores `e` in the first free slot under the counter's id and moves
        the count and the counter on. */
    method Append(e: TextEntry)
      requires Valid() && count < MaxTextObjects && WellFormed(e) && e.id == nextId
      modifies this`count, this`nextId, slots
      ensures Valid() && nextId == old(nextId) + 1
      ensures Objects() == old(Objects()) + [e] && FindId(Objects(), e.id) == old(count)
    {
      ghost var ss := slots[..];
      slots[count] := e;
      assert slots[..] == ss[count := e];
      AppendKeepsTable(ss, count, nextId, e);
      count := count + 1;
      nextId := nextId + 1;
    }

    /** Overwrites live slot `i` with an entry of the same id. */
    method Replace(i: nat, e: TextEntry)
      requires Valid() && i < count && WellFormed(e) && e.id == slots[i].id
      modifies slots
      ensures Valid() && Objects() == old(Objects())[i := e] && slots[..] == old(slots[..])[i := e]
    {
      ghost var ss := slots[..];
      slots[i] := e;
      assert slots[..] == ss[i := e];
      ReplaceKeepsTable(ss, count, nextId, i, e);
    }

    /** Drops live slot `i`, the one `id` finds: the later ones move down and
        the count drops. */
    method Delete(i: nat, ghost id: nat)
      requires Valid() && i < count && i == FindId(Objects(), id)
      modifies this`count, slots
      ensures Valid() && Objects() == Removed(old(Objects()), id)
    {
      ShiftDown(i);
      RemoveKeepsTable(old(slots[..]), count, nextId, i);
      count := count - 1;
    }

    /** The shifting loop of `video_remove_text`: slots `i + 1 .. count - 1`
        move down by one; the slots before `i` and from `count - 1` on keep
        their contents. */
    method ShiftDown(i: nat)
      requires slots.Length == MaxTextObjects && count <= MaxTextObjects && i < count
      modifies slots
      ensures slots[..] == Shifted(old(slots[..]), count, i)
    {
      var j := i;
      while j < count - 1
        invariant i <= j <= count - 1
        invariant forall k :: 0 <= k < i ==> slots[k] == old(slots[k])
        invariant forall k :: i <= k < j ==> slots[k] == old(slots[k + 1])
        invariant forall k :: j <= k < slots.Length ==> slots[k] == old(slots[k])
      {
        slots[j] := slots[j + 1];
        j := j + 1;
      }
      assert slots[..] == Shifted(old(slots[..]), count, i);
    }

    /** `video_add_text`: a full table refuses with id 0 and changes nothing;
        otherwise the text is stored in the next slot, visible and dirty, under
        a fresh id, and the frame becomes dirty. */
    method AddText(text: seq<bv8>, x: Uint32, y: Uint32, color: bv32) returns (id: nat)
      requires Valid() && ReadableUpTo(text, MaxTextLength - 1)
      modifies this`count, this`nextId, slots, screen`frameDirty
      ensures Valid()
      ensures old(count) >= MaxTextObjects ==>
        id == 0 && count == old(count) && nextId == old(nextId) && unchanged(slots)
        && screen.frameDirty == old(screen.frameDirty)
      ensures old(count) < MaxTextObjects ==>
        && id == old(nextId) && id > 0 && nextId == id + 1 && screen.frameDirty
        && Objects() == old(Objects()) + [TextEntry(StoredText(text), x, y, color, true, true, id)]
        && FindId(Objects(), id) == old(count)
    {
      if count >= MaxTextObjects {
        return 0;
      }
      var stored := CopyText(slots[count].text, text);
      id := nextId;
      Append(TextEntry(stored, x, y, color, true, true, id));
      MarkDirty();
    }

    /** `video_update_text`: the object with `id` takes the new text (cut to
        127 characters) and becomes dirty, with the frame, only when its C
        string differs from `newText`; an unknown id changes nothing. */
    method UpdateText(id: nat, newText: seq<bv8>)
      requires Valid() && Terminated(newText)
      modifies slots, screen`frameDirty
      ensures Valid() && count == old(count)
      ensures Objects() == Retexted(old(Objects()), id, newText)
      ensures screen.frameDirty == (old(screen.frameDirty) || TextDiffers(old(Objects()), id, newText))
    {
      var i := Find(id);
      if i >= 0 {
        var e := slots[i];
        assert e.text[MaxTextLength - 1] == 0;
        var diff := StrCmp(e.text, newText);
        if diff != 0 {
          var stored := CopyText(e.text, newText);
          Replace(i, e.(text := stored, dirty := true));
          MarkDirty();
        }
      }
    }

    /** `video_move_text`: the object with `id` moves and becomes dirty, with
        the frame, only when either coordinate differs; an unknown id changes
        nothing. */
    method MoveText(id: nat, x: Uint32, y: Uint32)
      requires Valid()
      modifies slots, screen`frameDirty
      ensures Valid() && count == old(count)
      ensures Objects() == Relocated(old(Objects()), id, x, y)
      ensures screen.frameDirty == (old(screen.frameDirty) || PositionDiffers(old(Objects()), id, x, y))
    {
      var i := Find(id);
      if i >= 0 {
        var e := slots[i];
        if e.x != x || e.y != y {
          Replace(i, e.(x := x, y := y, dirty := true));
          MarkDirty();
        }
      }
    }

    /** `video_set_text_visible`: the object with `id` takes the flag and
        becomes dirty, with the frame, only when the flag differs; an unknown
        id changes nothing. */
    method SetTextVisible(id: nat, visible: bool)
      requires Valid()
      modifies slots, screen`frameDirty
      ensures Valid() && count == old(count)
      ensures Objects() == Reshown(old(Objects()), id, visible)
      ensures screen.frameDirty == (old(screen.frameDirty) || VisibilityDiffers(old(Objects()), id, visible))
    {
      var i := Find(id);
      if i >= 0 {
        var e := slots[i];
        if e.visible != visible {
          Replace(i, e.(visible := visible, dirty := true));
          MarkDirty();
        }
      }
    }

    /** `video_remove_text`: the object with `id` leaves the table, the later
        ones move down a slot in the same order, and the frame becomes dirty;
        an unknown id changes nothing. */
    method RemoveText(id: nat)
      requires Valid()
      modifies this`count, slots, screen`frameDirty
      ensures Valid() && Objects() == Removed(old(Objects()), id)
      ensures screen.frameDirty == (old(screen.frameDirty) || FindId(old(Objects()), id) >= 0)
    {
      var i := Find(id);
      if i >= 0 {
        Delete(i, id);
        MarkDirty();
      }
    }

    /** `video_clear_all_text`: a non-empty table becomes empty and marks the
        frame dirty; an empty one changes nothing. */
    method ClearAllText()
      requires Valid()
      modifies this`count, screen`frameDirty
      ensures Valid() && Objects() == []
      ensures old(count) == 0 ==> screen.frameDirty == old(screen.frameDirty)
      ensures old(count) > 0 ==> screen.frameDirty
    {
      if count > 0 {
        count := 0;
        MarkDirty();
      }
    }

    /** `video_mark_dirty`. */
    method MarkDirty()
      requires Valid()
      modifies screen`frameDirty
      ensures Valid() && screen.frameDirty
    {
      screen.frameDirty := true;
    }

    /** `video_get_frame_time`: the last frame time cut to 32 bits. */
    function FrameTime(): (ms: Uint32)
      reads this
      ensures lastFrameTime < U32Limit ==> ms == lastFrameTime
      ensures ms == lastFrameTime % U32Limit
    {
      lastFrameTime % U32Limit
    }

    /** `video_render_frame`, given the timer readings before and after: a
        clean frame changes nothing; a dirty one copies the background into
        the draw buffer, draws every visible object over it in table order
        (clearing their `dirty` flags), presents the result by DMA when DMA
        is on, counts the frame and records its time. */
    method RenderFrame(startTicks: nat, endTicks: nat)
      requires Valid() && startTicks < U64Limit && endTicks < U64Limit
      modifies this`frameCount, this`lastFrameTime, slots, screen`frameDirty, screen`dmaLog, screen.vid, screen.hw
      ensures Valid() && count == old(count) && nextId == old(nextId)
      ensures !old(screen.frameDirty) ==>
        && unchanged(slots) && unchanged(screen.vid) && unchanged(screen.hw)
        && frameCount == old(frameCount) && lastFrameTime == old(lastFrameTime)
        && !screen.frameDirty && screen.dmaLog == old(screen.dmaLog)
      ensures old(screen.frameDirty) ==>
        && !screen.frameDirty && frameCount == Add32(old(frameCount), 1)
        && lastFrameTime == ElapsedMs(startTicks, endTicks)
        && Objects() == Drawn(old(Objects()))
        && screen.DrawBuffer()[..] ==
             TextLayer(Background(old(screen.DrawBuffer()[..]), screen.bg32[..], screen.bg8[..], screen.req, screen.useDma),
                       screen.req, glyphs.face, glyphs.initialized, old(Objects()))
        && (screen.useDma ==> screen.hw[..screen.req.buff.screenSize] == screen.vid[..screen.req.buff.screenSize])
        && (screen.useDma ==> screen.hw[screen.req.buff.screenSize..] == old(screen.hw[screen.req.buff.screenSize..]))
        && (!screen.useDma ==> screen.vid[..] == old(screen.vid[..]))
    {
      if screen.frameDirty {
        RenderDirty(startTicks, endTicks);
      }
    }

    /** A dirty frame of `video_render_frame`. */
    method RenderDirty(startTicks: nat, endTicks: nat)
      requires Valid() && startTicks < U64Limit && endTicks < U64Limit
      modifies this`frameCount, this`lastFrameTime, slots, screen`frameDirty, screen`dmaLog, screen.vid, screen.hw
      ensures Valid() && !screen.frameDirty
      ensures frameCount == Add32(old(frameCount), 1) && lastFrameTime == ElapsedMs(startTicks, endTicks)
      ensures Objects() == Drawn(old(Objects()))
      ensures screen.DrawBuffer()[..] ==
        TextLayer(Background(old(screen.DrawBuffer()[..]), screen.bg32[..], screen.bg8[..], screen.req, screen.useDma),
                  screen.req, glyphs.face, glyphs.initialized, old(Objects()))
      ensures screen.useDma ==> screen.hw[..screen.req.buff.screenSize] == screen.vid[..screen.req.buff.screenSize]
      ensures screen.useDma ==> screen.hw[screen.req.buff.screenSize..] == old(screen.hw[screen.req.buff.screenSize..])
      ensures !screen.useDma ==> screen.vid[..] == old(screen.vid[..])
    {
      Compose();
      Present(ElapsedMs(startTicks, endTicks));
    }

    /** The picture of a dirty frame: the background, then the text objects. */
    method Compose()
      requires Valid()
      modifies slots, screen`dmaLog, screen.DrawBuffer()
      ensures Valid() && Objects() == Drawn(old(Objects()))
      ensures screen.DrawBuffer()[..] ==
        TextLayer(Background(old(screen.DrawBuffer()[..]), screen.bg32[..], screen.bg8[..], screen.req, screen.useDma),
                  screen.req, glyphs.face, glyphs.initialized, old(Objects()))
    {
      ClearBackground();
      DrawAll();
    }

    /** The background copy at the start of a dirty frame. */
    method ClearBackground()
      requires Valid()
      modifies screen`dmaLog, screen.DrawBuffer()
      ensures Valid()
      ensures screen.DrawBuffer()[..] ==
        Background(old(screen.DrawBuffer()[..]), screen.bg32[..], screen.bg8[..], screen.req, screen.useDma)
    {
      var r := screen.req;
      if r.depth.bpp == 32 || r.depth.bpp == 8 {
        var bg := if r.depth.bpp == 32 then screen.bg32 else screen.bg8;
        if screen.useDma {
          CopyByDma(bg);
        } else {
          CopyByCpu(bg);
        }
      }
    }

    /** The DMA background copy: `screen_size` bytes into the DMA buffer. */
    method CopyByDma(bg: array<bv8>)
      requires Valid() && screen.useDma && (bg == screen.bg32 || bg == screen.bg8)
      modifies screen`dmaLog, screen.vid
      ensures Valid()
      ensures screen.vid[..] == bg[..screen.req.buff.screenSize] + old(screen.vid[..])[screen.req.buff.screenSize..]
    {
      var size := screen.req.buff.screenSize;
      screen.DoDma(screen.vid, bg, size);
      assert screen.vid[..] == screen.vid[..size] + screen.vid[size..];
    }

    /** The CPU background copy: `screen_size / 4` words into the firmware
        framebuffer. */
    method CopyByCpu(bg: array<bv8>)
      requires Valid() && !screen.useDma && (bg == screen.bg32 || bg == screen.bg8)
      modifies screen.hw
      ensures Valid()
      ensures screen.hw[..] == bg[..4 * (screen.req.buff.screenSize / 4)] + old(screen.hw[..])[4 * (screen.req.buff.screenSize / 4)..]
    {
      var n := 4 * (screen.req.buff.screenSize / 4);
      CopyWords(screen.hw, bg, screen.req.buff.screenSize / 4);
      assert screen.hw[..] == screen.hw[..n] + screen.hw[n..];
    }

    /** The drawing loop of `video_render_frame`: every visible object, in
        table order, drawn over the draw buffer and then no longer dirty. */
    method DrawAll()
      requires Valid()
      modifies slots, screen.DrawBuffer()
      ensures Valid() && Objects() == Drawn(old(Objects()))
      ensures screen.DrawBuffer()[..] ==
        TextLayer(old(screen.DrawBuffer()[..]), screen.req, glyphs.face, glyphs.initialized, old(Objects()))
    {
      ghost var objs := Objects();
      ghost var s0 := screen.DrawBuffer()[..];
      var i := 0;
      while i < count
        invariant DrawnUpTo(i, objs, s0)
      {
        DrawStep(i, objs, s0);
        i := i + 1;
      }
      assert objs[..count] == objs;
      assert Objects() == Drawn(objs);
    }

    /** The state of the drawing loop after the first `i` objects of `objs`
        were drawn over `s0`. */
    ghost predicate DrawnUpTo(i: nat, objs: seq<TextEntry>, s0: seq<bv8>)
      reads this, slots, screen, glyphs, glyphs.mem, screen.vid, screen.hw
    {
      && Valid() && i <= count == |objs| && |s0| == screen.DrawBuffer().Length
      && (forall k :: 0 <= k < |objs| ==> WellFormed(objs[k]))
      && (forall k :: 0 <= k < count ==> slots[k] == if k < i then Clean(objs[k]) else objs[k])
      && screen.DrawBuffer()[..] == TextLayer(s0, screen.req, glyphs.face, glyphs.initialized, objs[..i])
    }

    /** One pass of the drawing loop. */
    method DrawStep(i: nat, ghost objs: seq<TextEntry>, ghost s0: seq<bv8>)
      requires DrawnUpTo(i, objs, s0) && i < count
      modifies slots, screen.DrawBuffer()
      ensures DrawnUpTo(i + 1, objs, s0)
      ensures screen.useDma == old(screen.useDma) && screen.req == old(screen.req)
    {
      TextLayerStep(s0, screen.req, glyphs.face, glyphs.initialized, objs, i);
      DrawObject(i);
    }

    /** One pass of the drawing loop: object `i`, drawn when visible and then
        no longer dirty. */
    method DrawObject(i: nat)
      requires Valid() && i < count
      modifies slots, screen.DrawBuffer()
      ensures Valid()
      ensures slots[..] == old(slots[..])[i := Clean(old(slots[i]))]
      ensures screen.DrawBuffer()[..] ==
        ObjectEffect(old(screen.DrawBuffer()[..]), screen.req, glyphs.face, glyphs.initialized, old(slots[i]))
    {
      var e := slots[i];
      if e.visible {
        assert e.text[MaxTextLength - 1] == 0;
        glyphs.DrawStringColored(e.text, e.x, e.y, e.color, BackColor);
        Replace(i, e.(dirty := false));
      }
    }

    /** The end of a dirty frame: the composed picture presented by DMA when
        DMA is on, then the frame clean, counted and timed. */
    method Present(elapsed: nat)
      requires Valid() && elapsed < U64Limit
      modifies this`frameCount, this`lastFrameTime, screen`frameDirty, screen`dmaLog, screen.hw
      ensures Valid() && !screen.frameDirty
      ensures frameCount == Add32(old(frameCount), 1) && lastFrameTime == elapsed
      ensures screen.DrawBuffer()[..] == old(screen.DrawBuffer()[..])
      ensures screen.bg32[..] == old(screen.bg32[..]) && screen.bg8[..] == old(screen.bg8[..])
      ensures Objects() == old(Objects())
      ensures screen.useDma ==> screen.hw[..screen.req.buff.screenSize] == screen.vid[..screen.req.buff.screenSize]
      ensures screen.useDma ==> screen.hw[screen.req.buff.screenSize..] == old(screen.hw[screen.req.buff.screenSize..])
      ensures !screen.useDma ==> screen.hw[..] == old(screen.hw[..])
    {
      if screen.useDma {
        screen.VideoDma();
      }
      screen.frameDirty := false;
      frameCount := Add32(frameCount, 1);
      lastFrameTime := elapsed;
    }
  }
}
