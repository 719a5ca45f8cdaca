/** The effect of drawing a character cell: a `w` x `h` block of pixels whose
    rows lie one pitch apart, painted from a tile that holds the value of each
    pixel, row by row.  32-bit cells address words and 8-bit cells address
    bytes; in both the element of `(row, col)` is `BoxWord(x, y, pitch, row,
    col)`, `(y + row) * pitch + x + col`, with the pitch counted in elements. */
module Raster {
  import opened Memory
  import opened Framebuffer

  /** A tile of `h` rows of at least `w` values each. */
  predicate TileCovers<T>(tile: seq<seq<T>>, w: nat, h: nat)
  {
    |tile| >= h && forall row :: 0 <= row < |tile| ==> |tile[row]| >= w
  }

  /** `s` after storing `line[i]` into word `base + i` for `i < n`, in order. */
  function RowPaint32(s: seq<bv8>, base: nat, n: nat, line: seq<bv32>): (t: seq<bv8>)
    requires n <= |line| && (n > 0 ==> 4 * (base + n) <= |s|)
    ensures |t| == |s|
    decreases n
  {
    if n == 0 then s else PutWord(RowPaint32(s, base, n - 1, line), base + n - 1, line[n - 1])
  }

  /** One more word of a row is one more store, of the line's next value. */
  lemma RowPaint32Next(s: seq<bv8>, base: nat, k: nat, line: seq<bv32>, v: bv32, prev: seq<bv8>)
    requires k < |line| && 4 * (base + k + 1) <= |s| && line[k] == v
    requires prev == RowPaint32(s, base, k, line)
    ensures RowPaint32(s, base, k + 1, line) == PutWord(prev, base + k, v)
  {
  }

  /** A painted 32-bit row holds its values and every other word is unchanged. */
  lemma RowPaint32Spec(s: seq<bv8>, base: nat, n: nat, line: seq<bv32>)
    requires n <= |line| && (n > 0 ==> 4 * (base + n) <= |s|)
    ensures var t := RowPaint32(s, base, n, line);
      && (forall i :: 0 <= i < n ==> WordAt(t, base + i) == line[i])
      && (forall k: nat :: 4 * k + 4 <= |s| && (k < base || base + n <= k) ==> WordAt(t, k) == WordAt(s, k))
  {
    RowPaint32Values(s, base, n, line);
    RowPaint32Keeps(s, base, n, line);
  }

  lemma RowPaint32Values(s: seq<bv8>, base: nat, n: nat, line: seq<bv32>)
    requires n <= |line| && (n > 0 ==> 4 * (base + n) <= |s|)
    ensures forall i :: 0 <= i < n ==> WordAt(RowPaint32(s, base, n, line), base + i) == line[i]
  {
    forall i | 0 <= i < n
      ensures WordAt(RowPaint32(s, base, n, line), base + i) == line[i]
    {
      RowPaint32Value(s, base, n, line, i);
    }
  }

  /** Word `base + i` of a painted row holds `line[i]`: the store of it is
      the last one to touch that word. */
  lemma {:induction false} RowPaint32Value(s: seq<bv8>, base: nat, n: nat, line: seq<bv32>, i: nat)
    requires i < n <= |line| && 4 * (base + n) <= |s|
    ensures WordAt(RowPaint32(s, base, n, line), base + i) == line[i]
    decreases n
  {
    var prev := RowPaint32(s, base, n - 1, line);
    var t := PutWord(prev, base + n - 1, line[n - 1]);
    assert RowPaint32(s, base, n, line) == t;
    if i == n - 1 {
      PutWordSpec(prev, base + n - 1, line[n - 1]);
      assert WordAt(t, base + n - 1) == line[n - 1];
      assert base + i == base + n - 1;
    } else {
      RowPaint32Value(s, base, n - 1, line, i);
      PutWordKeepsWord(prev, base + n - 1, line[n - 1], base + i);
      assert WordAt(t, base + i) == WordAt(prev, base + i);
    }
  }

  lemma {:induction false} RowPaint32Keeps(s: seq<bv8>, base: nat, n: nat, line: seq<bv32>)
    requires n <= |line| && (n > 0 ==> 4 * (base + n) <= |s|)
    ensures forall k: nat :: 4 * k + 4 <= |s| && (k < base || base + n <= k) ==>
      WordAt(RowPaint32(s, base, n, line), k) == WordAt(s, k)
    decreases n
  {
    if n > 0 {
      var prev := RowPaint32(s, base, n - 1, line);
      var t := PutWord(prev, base + n - 1, line[n - 1]);
      assert RowPaint32(s, base, n, line) == t;
      RowPaint32Keeps(s, base, n - 1, line);
      PutWordKeepsOtherWords(prev, base + n - 1, line[n - 1]);
    }
  }

  /** A word outside a painted 32-bit row keeps its value. */
  lemma RowPaint32Outside(s: seq<bv8>, base: nat, n: nat, line: seq<bv32>, k: nat)
    requires n <= |line| && (n > 0 ==> 4 * (base + n) <= |s|)
    requires 4 * k + 4 <= |s| && (k < base || base + n <= k)
    ensures WordAt(RowPaint32(s, base, n, line), k) == WordAt(s, k)
  {
    RowPaint32Keeps(s, base, n, line);
  }

  /** `s` after storing `line[i]` into byte `base + i` for `i < n`, in order. */
  function RowPaint8(s: seq<bv8>, base: nat, n: nat, line: seq<bv8>): (t: seq<bv8>)
    requires n <= |line| && (n > 0 ==> base + n <= |s|)
    ensures |t| == |s|
    decreases n
  {
    if n == 0 then s else RowPaint8(s, base, n - 1, line)[base + n - 1 := line[n - 1]]
  }

  /** A painted 8-bit row holds its values and every other byte is unchanged. */
  lemma {:induction false} RowPaint8Spec(s: seq<bv8>, base: nat, n: nat, line: seq<bv8>)
    requires n <= |line| && (n > 0 ==> base + n <= |s|)
    ensures var t := RowPaint8(s, base, n, line);
      && (forall i :: 0 <= i < n ==> t[base + i] == line[i])
      && (forall k :: 0 <= k < |s| && (k < base || base + n <= k) ==> t[k] == s[k])
    decreases n
  {
    if n > 0 {
      RowPaint8Spec(s, base, n - 1, line);
    }
  }

  /** Byte `base + i` of a painted 8-bit row holds `line[i]`. */
  lemma RowPaint8At(s: seq<bv8>, base: nat, n: nat, line: seq<bv8>, i: nat)
    requires i < n <= |line| && base + n <= |s|
    ensures RowPaint8(s, base, n, line)[base + i] == line[i]
  {
    RowPaint8Spec(s, base, n, line);
  }

  /** A byte outside a painted 8-bit row keeps its value. */
  lemma RowPaint8Outside(s: seq<bv8>, base: nat, n: nat, line: seq<bv8>, k: nat)
    requires n <= |line| && base + n <= |s| && k < |s| && (k < base || base + n <= k)
    ensures RowPaint8(s, base, n, line)[k] == s[k]
  {
    RowPaint8Spec(s, base, n, line);
  }

  /** Every byte of a cell lies inside a buffer of `len` bytes. */
  predicate CellFits8(x: nat, y: nat, w: nat, h: nat, pitch: nat, len: nat)
  {
    forall row, col :: 0 <= row < h && 0 <= col < w ==> BoxWord(x, y, pitch, row, col) < len
  }

  lemma CellFits8FewerRows(x: nat, y: nat, w: nat, r: nat, h: nat, pitch: nat, len: nat)
    requires r <= h && CellFits8(x, y, w, h, pitch, len)
    ensures CellFits8(x, y, w, r, pitch, len)
  {
  }

  /** The cell at `(x, y)` painted from `tile` with 32-bit values, row by row. */
  function CellPaint32(s: seq<bv8>, x: nat, y: nat, pitchWords: nat, w: nat, h: nat,
                       tile: seq<seq<bv32>>): (t: seq<bv8>)
    requires TileCovers(tile, w, h) && BoxFits(x, y, w, h, pitchWords, |s|)
    ensures |t| == |s|
    decreases h
  {
    if h == 0 then s
    else
      BoxFitsFewerRows(x, y, w, h - 1, h, pitchWords, |s|);
      assert w > 0 ==> 4 * BoxWord(x, y, pitchWords, h - 1, w - 1) + 4 <= |s|;
      RowPaint32(CellPaint32(s, x, y, pitchWords, w, h - 1, tile), BoxWord(x, y, pitchWords, h - 1, 0), w, tile[h - 1])
  }

  /** The cell at `(x, y)` painted from `tile` with 8-bit values, row by row. */
  function CellPaint8(s: seq<bv8>, x: nat, y: nat, pitch: nat, w: nat, h: nat,
                      tile: seq<seq<bv8>>): (t: seq<bv8>)
    requires TileCovers(tile, w, h) && CellFits8(x, y, w, h, pitch, |s|)
    ensures |t| == |s|
    decreases h
  {
    if h == 0 then s
    else
      CellFits8FewerRows(x, y, w, h - 1, h, pitch, |s|);
      assert w > 0 ==> BoxWord(x, y, pitch, h - 1, w - 1) < |s|;
      RowPaint8(CellPaint8(s, x, y, pitch, w, h - 1, tile), BoxWord(x, y, pitch, h - 1, 0), w, tile[h - 1])
  }

  /** Painting one more row of a 32-bit cell is painting that row on top of
      the rows before it. */
  lemma CellPaint32Step(s: seq<bv8>, x: nat, y: nat, pitchWords: nat, w: nat, row: nat, tile: seq<seq<bv32>>)
    requires TileCovers(tile, w, row + 1) && BoxFits(x, y, w, row + 1, pitchWords, |s|)
    ensures BoxFits(x, y, w, row, pitchWords, |s|)
    ensures w > 0 ==> 4 * (BoxWord(x, y, pitchWords, row, 0) + w) <= |s|
    ensures CellPaint32(s, x, y, pitchWords, w, row + 1, tile)
         == RowPaint32(CellPaint32(s, x, y, pitchWords, w, row, tile), BoxWord(x, y, pitchWords, row, 0), w, tile[row])
  {
    BoxFitsFewerRows(x, y, w, row, row + 1, pitchWords, |s|);
    assert w > 0 ==> 4 * BoxWord(x, y, pitchWords, row, w - 1) + 4 <= |s|;
  }

  /** Painting one more row of an 8-bit cell is painting that row on top of
      the rows before it. */
  lemma CellPaint8Step(s: seq<bv8>, x: nat, y: nat, pitch: nat, w: nat, row: nat, tile: seq<seq<bv8>>)
    requires TileCovers(tile, w, row + 1) && CellFits8(x, y, w, row + 1, pitch, |s|)
    ensures CellFits8(x, y, w, row, pitch, |s|)
    ensures w > 0 ==> BoxWord(x, y, pitch, row, 0) + w <= |s|
    ensures CellPaint8(s, x, y, pitch, w, row + 1, tile)
         == RowPaint8(CellPaint8(s, x, y, pitch, w, row, tile), BoxWord(x, y, pitch, row, 0), w, tile[row])
  {
    CellFits8FewerRows(x, y, w, row, row + 1, pitch, |s|);
    assert w > 0 ==> BoxWord(x, y, pitch, row, w - 1) < |s|;
  }

  /** With rows no wider than the pitch, an element of an earlier row lies
      before the start of a later row. */
  lemma EarlierRowBefore(x: nat, y: nat, pitch: nat, w: nat, row: nat, col: nat, later: nat)
    requires w <= pitch && row < later && col < w
    ensures BoxWord(x, y, pitch, row, col) < BoxWord(x, y, pitch, later, 0)
  {
    MulStep(y + row, pitch);
    MulMono(y + row + 1, y + later, pitch);
  }

  /** Every word of a 32-bit cell holds its tile value, when rows do not overlap. */
  lemma {:induction false} CellPaint32Value(s: seq<bv8>, x: nat, y: nat, pitchWords: nat, w: nat, h: nat,
                                            tile: seq<seq<bv32>>, row: nat, col: nat)
    requires TileCovers(tile, w, h) && BoxFits(x, y, w, h, pitchWords, |s|) && w <= pitchWords
    requires row < h && col < w
    ensures WordAt(CellPaint32(s, x, y, pitchWords, w, h, tile), BoxWord(x, y, pitchWords, row, col)) == tile[row][col]
    decreases h
  {
    BoxFitsFewerRows(x, y, w, h - 1, h, pitchWords, |s|);
    var prev := CellPaint32(s, x, y, pitchWords, w, h - 1, tile);
    var base := BoxWord(x, y, pitchWords, h - 1, 0);
    assert 4 * BoxWord(x, y, pitchWords, h - 1, w - 1) + 4 <= |s|;
    var t := RowPaint32(prev, base, w, tile[h - 1]);
    assert CellPaint32(s, x, y, pitchWords, w, h, tile) == t;
    var k := BoxWord(x, y, pitchWords, row, col);
    if row == h - 1 {
      assert k == base + col;
      RowPaint32Value(prev, base, w, tile[h - 1], col);
      assert WordAt(t, k) == tile[row][col];
    } else {
      EarlierRowBefore(x, y, pitchWords, w, row, col, h - 1);
      assert 4 * k + 4 <= |s| && k < base;
      RowPaint32Outside(prev, base, w, tile[h - 1], k);
      CellPaint32Value(s, x, y, pitchWords, w, h - 1, tile, row, col);
      assert WordAt(t, k) == WordAt(prev, k);
    }
  }

  /** A 32-bit cell leaves every word outside it as it was. */
  lemma {:induction false} CellPaint32Frame(s: seq<bv8>, x: nat, y: nat, pitchWords: nat, w: nat, h: nat,
                                            tile: seq<seq<bv32>>)
    requires TileCovers(tile, w, h) && BoxFits(x, y, w, h, pitchWords, |s|)
    ensures forall k: nat :: 4 * k + 4 <= |s| && !InBox(k, x, y, w, h, pitchWords) ==>
      WordAt(CellPaint32(s, x, y, pitchWords, w, h, tile), k) == WordAt(s, k)
    decreases h
  {
    if h > 0 {
      BoxFitsFewerRows(x, y, w, h - 1, h, pitchWords, |s|);
      var prev := CellPaint32(s, x, y, pitchWords, w, h - 1, tile);
      var base := BoxWord(x, y, pitchWords, h - 1, 0);
      var t := CellPaint32(s, x, y, pitchWords, w, h, tile);
      assert w > 0 ==> 4 * BoxWord(x, y, pitchWords, h - 1, w - 1) + 4 <= |s|;
      assert t == RowPaint32(prev, base, w, tile[h - 1]);
      CellPaint32Frame(s, x, y, pitchWords, w, h - 1, tile);
      RowPaint32Spec(prev, base, w, tile[h - 1]);
      forall k: nat | 4 * k + 4 <= |s| && !InBox(k, x, y, w, h, pitchWords)
        ensures WordAt(t, k) == WordAt(s, k)
      {
        BoxRows(k, x, y, w, h, pitchWords);
      }
    }
  }

  /** Every byte of an 8-bit cell holds its tile value, when rows do not overlap. */
  lemma {:induction false} CellPaint8Value(s: seq<bv8>, x: nat, y: nat, pitch: nat, w: nat, h: nat,
                                           tile: seq<seq<bv8>>, row: nat, col: nat)
    requires TileCovers(tile, w, h) && CellFits8(x, y, w, h, pitch, |s|) && w <= pitch
    requires row < h && col < w
    ensures CellPaint8(s, x, y, pitch, w, h, tile)[BoxWord(x, y, pitch, row, col)] == tile[row][col]
    decreases h
  {
    CellFits8FewerRows(x, y, w, h - 1, h, pitch, |s|);
    var prev := CellPaint8(s, x, y, pitch, w, h - 1, tile);
    var base := BoxWord(x, y, pitch, h - 1, 0);
    assert BoxWord(x, y, pitch, h - 1, w - 1) < |s|;
    var t := RowPaint8(prev, base, w, tile[h - 1]);
    assert CellPaint8(s, x, y, pitch, w, h, tile) == t;
    var k := BoxWord(x, y, pitch, row, col);
    if row == h - 1 {
      assert k == base + col;
      RowPaint8At(prev, base, w, tile[h - 1], col);
    } else {
      EarlierRowBefore(x, y, pitch, w, row, col, h - 1);
      RowPaint8Outside(prev, base, w, tile[h - 1], k);
      CellPaint8Value(s, x, y, pitch, w, h - 1, tile, row, col);
    }
  }

  /** An 8-bit cell leaves every byte outside it as it was. */
  lemma {:induction false} CellPaint8Frame(s: seq<bv8>, x: nat, y: nat, pitch: nat, w: nat, h: nat,
                                           tile: seq<seq<bv8>>)
    requires TileCovers(tile, w, h) && CellFits8(x, y, w, h, pitch, |s|)
    ensures forall k :: 0 <= k < |s| && !InBox(k, x, y, w, h, pitch) ==>
      CellPaint8(s, x, y, pitch, w, h, tile)[k] == s[k]
    decreases h
  {
    if h > 0 {
      CellFits8FewerRows(x, y, w, h - 1, h, pitch, |s|);
      var prev := CellPaint8(s, x, y, pitch, w, h - 1, tile);
      var base := BoxWord(x, y, pitch, h - 1, 0);
      var t := CellPaint8(s, x, y, pitch, w, h, tile);
      assert w > 0 ==> BoxWord(x, y, pitch, h - 1, w - 1) < |s|;
      assert t == RowPaint8(prev, base, w, tile[h - 1]);
      CellPaint8Frame(s, x, y, pitch, w, h - 1, tile);
      RowPaint8Spec(prev, base, w, tile[h - 1]);
      forall k | 0 <= k < |s| && !InBox(k, x, y, w, h, pitch)
        ensures t[k] == s[k]
      {
        BoxRows(k, x, y, w, h, pitch);
      }
    }
  }
}
