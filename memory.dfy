/** Machine-level vocabulary shared by the whole model: unsigned 32-bit
    arithmetic as C performs it, and little-endian access to byte-addressed
    memory (the ARM cores of the Raspberry Pi run little-endian).  Every
    memory region of the display subsystem is an array of bytes; a 32-bit
    store is four byte stores, so the 8-, 16- and 32-bit views of one buffer
    stay views of the same memory. */
module Memory {

  const U32Limit: int := 0x1_0000_0000

  /** The values of a C `u32` used as a number (coordinates, sizes, pitch). */
  type Uint32 = x: int | 0 <= x < U32Limit

  /** C's `a + b` on two `u32` values: the sum wraps modulo 2^32. */
  function Add32(a: Uint32, b: Uint32): (r: Uint32)
    ensures a + b < U32Limit ==> r == a + b
    ensures U32Limit <= a + b ==> r == a + b - U32Limit
  {
    (a + b) % U32Limit
  }

  /** The 32-bit word stored little-endian at word index `i` of `s`. */
  function WordAt(s: seq<bv8>, i: nat): bv32
    requires 4 * i + 4 <= |s|
  {
    (s[4 * i + 3] as bv32 << 24) | (s[4 * i + 2] as bv32 << 16)
    | (s[4 * i + 1] as bv32 << 8) | s[4 * i] as bv32
  }

  /** The four bytes of `v`, least significant first. */
  function WordBytes(v: bv32): (b: seq<bv8>)
    ensures |b| == 4
  {
    [(v & 0xFF) as bv8, ((v >> 8) & 0xFF) as bv8, ((v >> 16) & 0xFF) as bv8, (v >> 24) as bv8]
  }

  /** `s` after storing the bytes `b` one by one from offset `at` on. */
  function PutBytes(s: seq<bv8>, at: nat, b: seq<bv8>): (r: seq<bv8>)
    requires at + |b| <= |s|
    ensures |r| == |s|
    decreases |b|
  {
    if |b| == 0 then s else PutBytes(s[at := b[0]], at + 1, b[1..])
  }

  /** A byte store writes `b` at `at` and leaves the bytes around it alone. */
  lemma {:induction false} PutBytesSpec(s: seq<bv8>, at: nat, b: seq<bv8>)
    requires at + |b| <= |s|
    ensures forall k :: 0 <= k < |b| ==> PutBytes(s, at, b)[at + k] == b[k]
    ensures forall k :: 0 <= k < |s| && (k < at || at + |b| <= k) ==> PutBytes(s, at, b)[k] == s[k]
    decreases |b|
  {
    if |b| > 0 {
      var s' := s[at := b[0]];
      PutBytesSpec(s', at + 1, b[1..]);
      assert PutBytes(s, at, b) == PutBytes(s', at + 1, b[1..]);
      forall k | 0 <= k < |b|
        ensures PutBytes(s, at, b)[at + k] == b[k]
      {
        if k > 0 {
          assert b[1..][k - 1] == b[k];
          assert at + 1 + (k - 1) == at + k;
        }
      }
    }
  }

  /** `s` after the 32-bit store `((u32 *)s)[i] = v`: its four bytes,
      little-endian. */
  function PutWord(s: seq<bv8>, i: nat, v: bv32): (r: seq<bv8>)
    requires 4 * i + 4 <= |s|
    ensures |r| == |s|
  {
    PutBytes(s, 4 * i, WordBytes(v))
  }

  /** A 32-bit store is four byte stores, lowest address first. */
  lemma PutWordBytes(s: seq<bv8>, i: nat, v: bv32)
    requires 4 * i + 4 <= |s|
    ensures PutWord(s, i, v) == s[4 * i := (v & 0xFF) as bv8][4 * i + 1 := ((v >> 8) & 0xFF) as bv8]
                                 [4 * i + 2 := ((v >> 16) & 0xFF) as bv8][4 * i + 3 := (v >> 24) as bv8]
  {
    var b := WordBytes(v);
    var t := s[4 * i := b[0]][4 * i + 1 := b[1]][4 * i + 2 := b[2]][4 * i + 3 := b[3]];
    PutBytesSpec(s, 4 * i, b);
    var r := PutWord(s, i, v);
    forall k | 0 <= k < |s|
      ensures r[k] == t[k]
    {
      if 4 * i <= k < 4 * i + 4 {
        assert r[4 * i + (k - 4 * i)] == b[k - 4 * i];
      }
    }
  }

  /** A 32-bit store writes `v` into word `i` and no byte outside it. */
  lemma PutWordSpec(s: seq<bv8>, i: nat, v: bv32)
    requires 4 * i + 4 <= |s|
    ensures WordAt(PutWord(s, i, v), i) == v
    ensures forall b :: 0 <= b < |s| && (b < 4 * i || 4 * i + 4 <= b) ==> PutWord(s, i, v)[b] == s[b]
  {
    var b := WordBytes(v);
    var r := PutBytes(s, 4 * i, b);
    PutBytesSpec(s, 4 * i, b);
    assert r[4 * i + 0] == b[0] && r[4 * i + 1] == b[1] && r[4 * i + 2] == b[2] && r[4 * i + 3] == b[3];
    SplitBytes(v);
  }

  /** The four bytes a word is stored as put back together give the word. */
  lemma SplitBytes(v: bv32)
    ensures ((v >> 24) as bv8 as bv32 << 24) | (((v >> 16) & 0xFF) as bv8 as bv32 << 16)
          | (((v >> 8) & 0xFF) as bv8 as bv32 << 8) | (v & 0xFF) as bv8 as bv32 == v
  {
  }

  /** A word is determined by its four bytes. */
  lemma WordOfEqualBytes(s: seq<bv8>, t: seq<bv8>, k: nat)
    requires 4 * k + 4 <= |s| && 4 * k + 4 <= |t|
    requires s[4 * k] == t[4 * k] && s[4 * k + 1] == t[4 * k + 1]
    requires s[4 * k + 2] == t[4 * k + 2] && s[4 * k + 3] == t[4 * k + 3]
    ensures WordAt(s, k) == WordAt(t, k)
  {
  }

  /** A 32-bit store leaves every other word as it was. */
  lemma {:induction false} PutWordKeepsOtherWords(s: seq<bv8>, i: nat, v: bv32)
    requires 4 * i + 4 <= |s|
    ensures WordAt(PutWord(s, i, v), i) == v
    ensures forall k: nat :: 4 * k + 4 <= |s| && k != i ==> WordAt(PutWord(s, i, v), k) == WordAt(s, k)
  {
    PutWordSpec(s, i, v);
    forall k: nat | 4 * k + 4 <= |s| && k != i
      ensures WordAt(PutWord(s, i, v), k) == WordAt(s, k)
    {
      PutWordKeepsWord(s, i, v, k);
    }
  }

  /** A 32-bit store leaves any one other word as it was. */
  lemma PutWordKeepsWord(s: seq<bv8>, i: nat, v: bv32, k: nat)
    requires 4 * i + 4 <= |s| && 4 * k + 4 <= |s| && k != i
    ensures WordAt(PutWord(s, i, v), k) == WordAt(s, k)
  {
    PutWordSpec(s, i, v);
    WordOfEqualBytes(PutWord(s, i, v), s, k);
  }

  /** The 16-bit halfword stored little-endian at halfword index `i` of `s`. */
  function HalfAt(s: seq<bv8>, i: nat): bv16
    requires 2 * i + 2 <= |s|
  {
    (s[2 * i + 1] as bv16 << 8) | s[2 * i] as bv16
  }

  /** `s` after the 16-bit store `((u16 *)s)[i] = v`. */
  function PutHalf(s: seq<bv8>, i: nat, v: bv16): (r: seq<bv8>)
    requires 2 * i + 2 <= |s|
    ensures |r| == |s|
    ensures HalfAt(r, i) == v
    ensures forall b :: 0 <= b < |s| && (b < 2 * i || 2 * i + 2 <= b) ==> r[b] == s[b]
  {
    s[2 * i := (v & 0xFF) as bv8][2 * i + 1 := (v >> 8) as bv8]
  }

  /** The four bytes of a little-endian word can be read back from it. */
  lemma ComposeBytes(b0: bv8, b1: bv8, b2: bv8, b3: bv8)
    ensures var w := (b3 as bv32 << 24) | (b2 as bv32 << 16) | (b1 as bv32 << 8) | b0 as bv32;
      && (w & 0xFF) as bv8 == b0 && ((w >> 8) & 0xFF) as bv8 == b1
      && ((w >> 16) & 0xFF) as bv8 == b2 && (w >> 24) as bv8 == b3
  {
  }

  /** Two memories that agree on one word agree on its four bytes. */
  lemma WordAtBytes(s: seq<bv8>, t: seq<bv8>, i: nat)
    requires 4 * i + 4 <= |s| && 4 * i + 4 <= |t|
    requires WordAt(s, i) == WordAt(t, i)
    ensures s[4 * i] == t[4 * i] && s[4 * i + 1] == t[4 * i + 1]
    ensures s[4 * i + 2] == t[4 * i + 2] && s[4 * i + 3] == t[4 * i + 3]
  {
    ComposeBytes(s[4 * i], s[4 * i + 1], s[4 * i + 2], s[4 * i + 3]);
    ComposeBytes(t[4 * i], t[4 * i + 1], t[4 * i + 2], t[4 * i + 3]);
  }

  /** A 32-bit store into `a` at word index `i`. */
  method StoreWord(a: array<bv8>, i: nat, v: bv32)
    requires 4 * i + 4 <= a.Length
    modifies a
    ensures a[..] == PutWord(old(a[..]), i, v)
  {
    PutWordBytes(a[..], i, v);
    a[4 * i] := (v & 0xFF) as bv8;
    a[4 * i + 1] := ((v >> 8) & 0xFF) as bv8;
    a[4 * i + 2] := ((v >> 16) & 0xFF) as bv8;
    a[4 * i + 3] := (v >> 24) as bv8;
  }

  /** A 32-bit load from `a` at word index `i`. */
  method LoadWord(a: array<bv8>, i: nat) returns (v: bv32)
    requires 4 * i + 4 <= a.Length
    ensures v == WordAt(a[..], i)
  {
    v := (a[4 * i + 3] as bv32 << 24) | (a[4 * i + 2] as bv32 << 16)
         | (a[4 * i + 1] as bv32 << 8) | a[4 * i] as bv32;
  }

  /** A 16-bit store into `a` at halfword index `i`. */
  method StoreHalf(a: array<bv8>, i: nat, v: bv16)
    requires 2 * i + 2 <= a.Length
    modifies a
    ensures a[..] == PutHalf(old(a[..]), i, v)
  {
    a[2 * i] := (v & 0xFF) as bv8;
    a[2 * i + 1] := (v >> 8) as bv8;
  }

  /** `(a + 1) * k` is `a * k + k`: the step from one row of a buffer to the next. */
  lemma MulStep(a: nat, k: nat)
    ensures (a + 1) * k == a * k + k
  {
  }

  /** Multiplying by a natural keeps the order. */
  lemma MulMono(a: nat, b: nat, k: nat)
    requires a <= b
    ensures a * k <= b * k
  {
  }
}
