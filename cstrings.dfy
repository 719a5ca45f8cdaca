/** NUL-terminated C strings as byte sequences, and the two string routines
    the compositor carries with it (src/Graphics/compositor.c): `strncpy`,
    which copies at most `n` bytes and pads with NULs, and `strcmp`, which
    compares up to the first NUL of the first string. */
module CStrings {

  /** A byte sequence that holds a NUL somewhere, so a C string can be read from it. */
  predicate Terminated(s: seq<bv8>)
  {
    exists i :: 0 <= i < |s| && s[i] == 0
  }

  /** The length of the C string stored in `s`: the index of its first NUL. */
  function CStrLen(s: seq<bv8>): (n: nat)
    requires Terminated(s)
    ensures n < |s| && s[n] == 0
    ensures forall i :: 0 <= i < n ==> s[i] != 0
  {
    if s[0] == 0 then 0
    else
      var i :| 0 <= i < |s| && s[i] == 0;
      assert s[1..][i - 1] == 0;
      1 + CStrLen(s[1..])
  }

  /** The characters of the C string stored in `s`, without its NUL. */
  function CString(s: seq<bv8>): (r: seq<bv8>)
    requires Terminated(s)
    ensures |r| == CStrLen(s) && r == s[..CStrLen(s)]
    ensures forall i :: 0 <= i < |r| ==> r[i] != 0
  {
    s[..CStrLen(s)]
  }

  /** `strncpy` limited to `n` reads `src` up to its first NUL or up to `n`
      bytes, whichever comes first; either must lie inside `src`. */
  predicate ReadableUpTo(src: seq<bv8>, n: nat)
  {
    n <= |src| || Terminated(src)
  }

  /** How many bytes of `src` `strncpy` copies when limited to `n`: up to its
      first NUL, and never more than `n`. */
  function CopiedLen(src: seq<bv8>, n: nat): (k: nat)
    requires ReadableUpTo(src, n)
    ensures k <= n && k <= |src|
    ensures forall i :: 0 <= i < k ==> src[i] != 0
    ensures k < n ==> src[k] == 0
  {
    if n <= |src| && forall i :: 0 <= i < n ==> src[i] != 0 then n
    else if Terminated(src) && CStrLen(src) < n then CStrLen(src)
    else n
  }

  /** `strncpy(dest, src, n)`: the first `n` bytes of the result are the
      bytes of `src` before its first NUL, at most `n` of them, followed by
      NULs; the rest of `dest` is left as it was. */
  method StrNCpy(dest: seq<bv8>, src: seq<bv8>, n: nat) returns (r: seq<bv8>)
    requires n <= |dest| && ReadableUpTo(src, n)
    ensures |r| == |dest|
    ensures forall i :: 0 <= i < n ==> r[i] == if i < CopiedLen(src, n) then src[i] else 0
    ensures r[n..] == dest[n..]
  {
    r := dest;
    var i := 0;
    while i < n && src[i] != 0
      invariant 0 <= i <= n && i <= CopiedLen(src, n)
      invariant |r| == |dest| && r[n..] == dest[n..]
      invariant forall j :: 0 <= j < i ==> r[j] == src[j]
    {
      r := r[i := src[i]];
      i := i + 1;
    }
    assert i == CopiedLen(src, n);
    while i < n
      invariant CopiedLen(src, n) <= i <= n
      invariant |r| == |dest| && r[n..] == dest[n..]
      invariant forall j :: 0 <= j < i ==> r[j] == if j < CopiedLen(src, n) then src[j] else 0
    {
      r := r[i := 0];
      i := i + 1;
    }
  }

  /** The C string stored by a bounded copy that is then cut with a NUL at
      `n`: the first `n` characters of the source string, or all of it when
      it is shorter. */
  lemma {:induction false} BoundedCopyReadsBack(r: seq<bv8>, src: seq<bv8>, n: nat)
    requires n < |r| && r[n] == 0 && ReadableUpTo(src, n)
    requires forall i :: 0 <= i < n ==> r[i] == if i < CopiedLen(src, n) then src[i] else 0
    ensures Terminated(r)
    ensures CString(r) == src[..CopiedLen(src, n)]
    ensures Terminated(src) ==> CString(r) == if CStrLen(src) <= n then CString(src) else CString(src)[..n]
  {
    var k := CopiedLen(src, n);
    assert r[k] == 0;
    assert CStrLen(r) == k;
  }

  /** `i` is where `a` and `b` first part: they agree before it, and at
      it one of them has ended or their bytes differ. */
  predicate FirstDifference(a: seq<bv8>, b: seq<bv8>, i: nat)
  {
    i <= |a| && i <= |b| && a[..i] == b[..i] && (i == |a| || i == |b| || a[i] != b[i])
  }

  /** Two strings first part at one place only. */
  lemma FirstDifferenceUnique(a: seq<bv8>, b: seq<bv8>, i: nat, j: nat)
    requires FirstDifference(a, b, i) && FirstDifference(a, b, j)
    ensures i == j
  {
  }

  /** The byte of a C string at `i`, reading its terminating NUL at the end. */
  function ByteAt(a: seq<bv8>, i: nat): (x: bv8)
    requires i <= |a|
    ensures i == |a| ==> x == 0
  {
    if i < |a| then a[i] else 0
  }

  /** Lexicographic order on unsigned bytes: `a` sorts before `b` when, at
      the place they first part, `a` has ended and `b` has not, or `a` has
      the smaller byte. */
  predicate LexLess(a: seq<bv8>, b: seq<bv8>)
  {
    exists i :: 0 <= i <= |a| && FirstDifference(a, b, i) && i < |b| && (i == |a| || a[i] < b[i])
  }

  /** Where two strings first part decides their order: `a` sorts before
      `b` exactly when, there, `a` has ended and `b` has not, or `a` has
      the smaller byte. */
  lemma LexLessAt(a: seq<bv8>, b: seq<bv8>, i: nat)
    requires FirstDifference(a, b, i)
    ensures LexLess(a, b) <==> i < |b| && (i == |a| || a[i] < b[i])
  {
    if LexLess(a, b) {
      var k :| 0 <= k <= |a| && FirstDifference(a, b, k) && k < |b| && (k == |a| || a[k] < b[k]);
      FirstDifferenceUnique(a, b, i, k);
    }
  }

  /** Two strings are equal exactly when both end where they first part. */
  lemma EqualAt(a: seq<bv8>, b: seq<bv8>, i: nat)
    requires FirstDifference(a, b, i)
    ensures a == b <==> i == |a| && i == |b|
  {
    if i == |a| && i == |b| {
      assert a == a[..i] == b[..i] == b;
    }
  }

  /** For two strings without NULs, the difference of the bytes where they
      first part orders them: zero exactly when they are equal, negative
      exactly when the first sorts before the second, positive exactly when
      it sorts after. */
  lemma OrderAtFirstDifference(a: seq<bv8>, b: seq<bv8>, i: nat)
    requires FirstDifference(a, b, i)
    requires forall k :: 0 <= k < |a| ==> a[k] != 0
    requires forall k :: 0 <= k < |b| ==> b[k] != 0
    ensures ByteAt(a, i) as int - ByteAt(b, i) as int == 0 <==> a == b
    ensures ByteAt(a, i) as int - ByteAt(b, i) as int < 0 <==> LexLess(a, b)
    ensures ByteAt(a, i) as int - ByteAt(b, i) as int > 0 <==> LexLess(b, a)
  {
    LexLessAt(a, b, i);
    LexLessAt(b, a, i);
    EqualAt(a, b, i);
  }

  /** The scan of `strcmp`: the first place where the first string has
      ended or the two disagree. */
  method Scan(s1: seq<bv8>, s2: seq<bv8>) returns (i: nat)
    requires Terminated(s1) && Terminated(s2)
    ensures i <= CStrLen(s1) && i <= CStrLen(s2)
    ensures FirstDifference(CString(s1), CString(s2), i)
  {
    ghost var a, b := CString(s1), CString(s2);
    i := 0;
    while s1[i] != 0 && s1[i] == s2[i]
      invariant i <= |a| && i <= |b| && a[..i] == b[..i]
      decreases |a| - i
    {
      assert a[..i + 1] == a[..i] + [a[i]];
      assert b[..i + 1] == b[..i] + [b[i]];
      i := i + 1;
    }
  }

  /** What `strcmp` returns once the scan stopped at `i`: the difference
      of the two bytes there orders the two C strings. */
  lemma StopOrders(s1: seq<bv8>, s2: seq<bv8>, i: nat)
    requires Terminated(s1) && Terminated(s2)
    requires i <= CStrLen(s1) && i <= CStrLen(s2) && FirstDifference(CString(s1), CString(s2), i)
    ensures s1[i] as int - s2[i] as int == 0 <==> CString(s1) == CString(s2)
    ensures s1[i] as int - s2[i] as int < 0 <==> LexLess(CString(s1), CString(s2))
    ensures s1[i] as int - s2[i] as int > 0 <==> LexLess(CString(s2), CString(s1))
  {
    var a, b := CString(s1), CString(s2);
    assert ByteAt(a, i) == s1[i];
    assert ByteAt(b, i) == s2[i];
    OrderAtFirstDifference(a, b, i);
  }

  /** `strcmp`: walks both strings while they agree and the first has not
      ended, then returns the difference of the bytes where it stopped, read
      as unsigned.  The result is negative exactly when the first string
      sorts before the second, positive exactly when it sorts after, and
      zero exactly when they are equal. */
  method StrCmp(s1: seq<bv8>, s2: seq<bv8>) returns (r: int)
    requires Terminated(s1) && Terminated(s2)
    ensures -255 <= r <= 255
    ensures r == 0 <==> CString(s1) == CString(s2)
    ensures r < 0 <==> LexLess(CString(s1), CString(s2))
    ensures r > 0 <==> LexLess(CString(s2), CString(s1))
  {
    var i := Scan(s1, s2);
    r := s1[i] as int - s2[i] as int;
    StopOrders(s1, s2, i);
  }
}
