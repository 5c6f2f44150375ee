/**
 NUL-terminated strings as the loader reads and compares them
 (syscall_safe_utils.h). A string value is the bytes before the terminator.
 */
module CStrings {
  import opened Bytes
  import opened Pe
  import opened Sorting

  type cstring = s: seq<byte> | 0 !in s

  // ---- Strings inside an image ---------------------------------------------------

  // The bytes from off up to a NUL (or the image's end).
  function CStr(img: seq<byte>, off: nat): (s: cstring)
    requires off <= |img|
    ensures off + |s| <= |img| && s == img[off..off + |s|]
    ensures off + |s| < |img| ==> img[off + |s|] == 0
    decreases |img| - off
  {
    if off == |img| || img[off] == 0 then [] else [img[off]] + CStr(img, off + 1)
  }

  // A terminator lies inside the image.
  predicate CStrValid(img: seq<byte>, rva: nat)
    ensures CStrValid(img, rva) ==> rva < |img|
  {
    rva < |img| && rva + |CStr(img, rva)| < |img|
  }

  lemma {:induction false} CStrValidMeans(img: seq<byte>, rva: nat)
    ensures CStrValid(img, rva) <==> exists k :: rva <= k < |img| && img[k] == 0
  {
    if rva < |img| {
      var s := CStr(img, rva);
      forall k | rva <= k < rva + |s| ensures img[k] != 0 {
        assert img[k] == s[k - rva];
      }
    }
  }

  // The validity scan, as the loader runs it.
  method ImageCStrValid(img: array<byte>, rva: nat) returns (valid: bool)
    ensures valid == CStrValid(img[..], rva)
  {
    CStrValidMeans(img[..], rva);
    if !RangeValid(rva, 1, img.Length) { return false; }
    for off := rva to img.Length
      invariant forall k :: rva <= k < off ==> img[k] != 0
    {
      if img[off] == 0 {
        assert img[..][off] == 0;
        return true;
      }
    }
    return false;
  }

  // A string depends only on its own bytes and its terminator.
  lemma {:induction false} CStrAgree(s: seq<byte>, t: seq<byte>, off: nat)
    requires off <= |s| && AgreeOn(s, t, off, off + |CStr(s, off)| + 1)
    ensures CStr(t, off) == CStr(s, off) && (CStrValid(t, off) <==> CStrValid(s, off))
    decreases |s| - off
  {
    if off < |s| && s[off] != 0 {
      CStrAgree(s, t, off + 1);
    }
  }

  // ---- Comparison -----------------------------------------------------------------

  function Ch(s: cstring, i: nat): byte {
    if i < |s| then s[i] else 0
  }

  // The value strcmp returns.
  function Compare(a: cstring, b: cstring): int {
    if a == [] || b == [] || a[0] != b[0] then Ch(a, 0) - Ch(b, 0) else Compare(a[1..], b[1..])
  }

  // Dictionary order on unsigned bytes: the first place where a and b differ decides.
  ghost predicate Precedes(a: cstring, b: cstring) {
    exists k :: 0 <= k <= |a| && k <= |b| && a[..k] == b[..k] && Ch(a, k) < Ch(b, k)
  }

  lemma {:induction false} CompareOrders(a: cstring, b: cstring)
    ensures Compare(a, b) < 0 <==> Precedes(a, b)
    ensures Compare(a, b) > 0 <==> Precedes(b, a)
    ensures Compare(a, b) == 0 <==> a == b
  {
    if a == [] || b == [] || a[0] != b[0] {
      assert a[..0] == b[..0];
      if a != [] { assert a[0] != 0; }
      if b != [] { assert b[0] != 0; }
    } else {
      var x, y := a[1..], b[1..];
      CompareOrders(x, y);
      PrecedesTail(a, b);
      PrecedesTail(b, a);
      assert a == [a[0]] + x && b == [b[0]] + y;
    }
  }

  lemma {:induction false} PrecedesTail(a: cstring, b: cstring)
    requires a != [] && b != [] && a[0] == b[0]
    ensures Precedes(a, b) <==> Precedes(a[1..], b[1..])
  {
    var x, y := a[1..], b[1..];
    if k :| 0 <= k <= |a| && k <= |b| && a[..k] == b[..k] && Ch(a, k) < Ch(b, k) {
      assert k > 0;
      assert x[..k - 1] == a[..k][1..] && y[..k - 1] == b[..k][1..];
      assert Ch(x, k - 1) < Ch(y, k - 1);
    }
    if k :| 0 <= k <= |x| && k <= |y| && x[..k] == y[..k] && Ch(x, k) < Ch(y, k) {
      assert a[..k + 1] == [a[0]] + x[..k] && b[..k + 1] == [b[0]] + y[..k];
      assert Ch(a, k + 1) < Ch(b, k + 1);
    }
  }

  predicate Leq(a: cstring, b: cstring) {
    Compare(a, b) <= 0
  }

  lemma {:induction false} CompareTransitive(a: cstring, b: cstring, c: cstring)
    requires Compare(a, b) <= 0 && Compare(b, c) <= 0
    ensures Compare(a, c) <= 0
    ensures Compare(a, b) < 0 || Compare(b, c) < 0 ==> Compare(a, c) < 0
    decreases |a|
  {
    if a != [] && b != [] && c != [] && a[0] == b[0] == c[0] {
      CompareTransitive(a[1..], b[1..], c[1..]);
    }
  }

  lemma {:induction false} CompareFlip(a: cstring, b: cstring)
    ensures Compare(a, b) == -Compare(b, a)
  {
    if a != [] && b != [] && a[0] == b[0] {
      CompareFlip(a[1..], b[1..]);
    }
  }

  lemma {:induction false} LeqTotal()
    ensures TotalPreorder(Leq)
  {
    forall a, b ensures Leq(a, b) || Leq(b, a) { CompareFlip(a, b); }
    forall a, b, c | Leq(a, b) && Leq(b, c) ensures Leq(a, c) { CompareTransitive(a, b, c); }
  }

  method StrCmp(a: cstring, b: cstring) returns (r: int)
    ensures r == Compare(a, b)
  {
    var i := 0;
    while i < |a| && i < |b|
      invariant 0 <= i <= |a| && i <= |b|
      invariant Compare(a[i..], b[i..]) == Compare(a, b)
    {
      if a[i] != b[i] {
        r := a[i];
        return r - b[i];
      }
      i := i + 1;
    }
    return Ch(a, i) - Ch(b, i);
  }

  // ---- Ignoring letter case ----------------------------------------------------------

  function Folded(s: cstring): (r: cstring)
    ensures |r| == |s| && forall i :: 0 <= i < |s| ==> r[i] == Lower(s[i])
  {
    if s == [] then [] else [Lower(s[0])] + Folded(s[1..])
  }

  predicate SameName(a: cstring, b: cstring) {
    Folded(a) == Folded(b)
  }

  // Two names match exactly when they have the same letters in whatever case.
  lemma {:induction false} SameNameExactly(a: cstring, b: cstring)
    ensures SameName(a, b) <==> |a| == |b| && forall i :: 0 <= i < |a| ==> SameLetter(a[i], b[i])
  {
    hide Lower, SameLetter;
    if |a| == |b| {
      forall i | 0 <= i < |a| ensures Folded(a)[i] == Folded(b)[i] <==> SameLetter(a[i], b[i]) {
        LowerFolds(a[i], b[i]);
      }
      if forall i :: 0 <= i < |a| ==> SameLetter(a[i], b[i]) {
        assert forall i :: 0 <= i < |a| ==> Folded(a)[i] == Folded(b)[i];
      }
    }
  }

  lemma {:induction false} LowerNul()
    ensures Lower(0) == 0
  {
  }

  method StrCaseCmp(a: cstring, b: cstring) returns (r: int)
    ensures r == Compare(Folded(a), Folded(b))
    ensures r == 0 <==> SameName(a, b)
  {
    hide Folded, Lower;
    ghost var x, y := Folded(a), Folded(b);
    CompareOrders(x, y);
    var i := 0;
    while i < |a| && i < |b|
      invariant 0 <= i <= |a| && i <= |b|
      invariant Compare(x[i..], y[i..]) == Compare(x, y)
    {
      if Lower(a[i]) != Lower(b[i]) {
        r := Lower(a[i]);
        return r - Lower(b[i]);
      }
      i := i + 1;
    }
    LowerNul();
    r := Lower(Ch(a, i));
    return r - Lower(Ch(b, i));
  }

  // The copy into a fixed buffer of `size` bytes, terminator included.
  function Truncated(s: cstring, size: nat): (r: cstring)
    ensures |s| < size ==> r == s
    ensures size > 0 ==> |r| < size
    ensures r <= s && (|s| >= size > 0 ==> |r| == size - 1)
  {
    if |s| < size then s else if size == 0 then [] else s[..size - 1]
  }
}
