/**
 Export tables (export_table.c): the clamped cache filled from the image, lookup by
 name (binary search) and lookup by ordinal.
 */
module Exports {
  import opened Bytes
  import opened Pe
  import opened CStrings

  const MAX_NAMES := 2048
  const MAX_FUNCTIONS := 8192
  const EXPORT_HEADER := 40

  datatype ExportCache = ExportCache(
    dirRva: u32,
    dirSize: u32,
    baseOrdinal: u32,
    names: seq<nat>,        // name RVAs
    ordinals: seq<nat>,     // one per name
    functions: seq<nat>)    // function RVAs

  const EMPTY := ExportCache(0, 0, 0, [], [], [])

  predicate Fits(cache: ExportCache) {
    && |cache.names| == |cache.ordinals| <= MAX_NAMES && |cache.functions| <= MAX_FUNCTIONS
    && forall i :: 0 <= i < |cache.ordinals| ==> cache.ordinals[i] < U16
  }

  // n words of w bytes each, from off on.
  function Words(img: seq<byte>, off: nat, w: nat, n: nat): (s: seq<nat>)
    requires off + w * n <= |img|
    ensures |s| == n && forall i :: 0 <= i < n ==> off + w * i + w <= |img| && s[i] == Load(img, off + w * i, w)
  {
    if n == 0 then [] else
      assert w * n == w * (n - 1) + w;
      Words(img, off, w, n - 1) + [Load(img, off + w * (n - 1), w)]
  }

  function Min(a: nat, b: nat): nat {
    if a < b then a else b
  }

  // The directory's fields (the export directory starts at p).
  function Field(img: seq<byte>, p: nat, at: nat): (v: u32)
    requires p + at + 4 <= |img|
  {
    LoadBound(img, p + at, 4);
    CapacityValues();
    Load(img, p + at, 4)
  }

  // Fill the cache; false leaves it as it was when there is no usable directory, and
  // empty when one of its arrays is missing or leaves the image.
  function Parse(img: seq<byte>, nt: NtHeaders, was: ExportCache): (r: (bool, ExportCache))
    ensures Fits(was) ==> Fits(r.1)
  {
    var dir := Directory(nt, EXPORT_DIRECTORY);
    if dir.None? || dir.value.rva == 0 || dir.value.size < EXPORT_HEADER
      || !RangeValid(dir.value.rva, EXPORT_HEADER, |img|) then (false, was)
    else
      var p := dir.value.rva;
      var nn, nf := Min(Field(img, p, 24), MAX_NAMES), Min(Field(img, p, 20), MAX_FUNCTIONS);
      var funcs, names, ords := Field(img, p, 28), Field(img, p, 32), Field(img, p, 36);
      if nn > 0 && (names == 0 || ords == 0) then (false, EMPTY)
      else if nf > 0 && funcs == 0 then (false, EMPTY)
      else if nn > 0 && (!RangeValid(names, 4 * nn, |img|) || !RangeValid(ords, 2 * nn, |img|)) then (false, EMPTY)
      else if nf > 0 && !RangeValid(funcs, 4 * nf, |img|) then (false, EMPTY)
      else
        var ordinals := if nn == 0 then [] else Words(img, ords, 2, nn);
        OrdinalsFit(img, ords, nn);
        (true, ExportCache(p, dir.value.size, Field(img, p, 16),
           if nn == 0 then [] else Words(img, names, 4, nn),
           ordinals,
           if nf == 0 then [] else Words(img, funcs, 4, nf)))
  }

  lemma {:induction false} OrdinalsFit(img: seq<byte>, off: nat, n: nat)
    ensures off + 2 * n <= |img| ==> forall i :: 0 <= i < n ==> Words(img, off, 2, n)[i] < U16
  {
    if off + 2 * n <= |img| {
      CapacityValues();
      forall i | 0 <= i < n ensures Words(img, off, 2, n)[i] < U16 {
        LoadBound(img, off + 2 * i, 2);
      }
    }
  }

  // The directory's header can be read.
  predicate HasDirectory(img: seq<byte>, nt: NtHeaders) {
    && |nt.directories| > 0 && nt.directories[0].rva != 0 && nt.directories[0].size >= 40
    && nt.directories[0].rva + 40 <= |img|
  }

  // `s` is the array of n w-byte words at off, as the image holds it.
  predicate Holds(img: seq<byte>, off: nat, w: nat, n: nat, s: seq<nat>) {
    |s| == n && forall i :: 0 <= i < n ==> off + w * i + w <= |img| && s[i] == Load(img, off + w * i, w)
  }

  predicate ArrayInside(img: seq<byte>, off: nat, w: nat, n: nat) {
    n == 0 || (off != 0 && off + w * n <= |img|)
  }

  // Parsing succeeds exactly when the header can be read and the arrays, cut to the limits, lie
  // in the image; the cache then holds the header fields and those arrays word for word. On a
  // bad array the cache is empty, and without a header it is left alone.
  lemma {:induction false} ParseExactly(img: seq<byte>, nt: NtHeaders, was: ExportCache)
    ensures
      var r := Parse(img, nt, was);
      if !HasDirectory(img, nt) then r == (false, was)
      else
        var dir := nt.directories[0];
        var p := dir.rva;
        var nn := if Load(img, p + 24, 4) <= 2048 then Load(img, p + 24, 4) else 2048;
        var nf := if Load(img, p + 20, 4) <= 8192 then Load(img, p + 20, 4) else 8192;
        var funcs, names, ords := Load(img, p + 28, 4), Load(img, p + 32, 4), Load(img, p + 36, 4);
        && (r.0 <==> ArrayInside(img, names, 4, nn) && ArrayInside(img, ords, 2, nn) && ArrayInside(img, funcs, 4, nf))
        && (!r.0 ==> r.1 == ExportCache(0, 0, 0, [], [], []))
        && (r.0 ==>
            && r.1.dirRva == p && r.1.dirSize == dir.size && r.1.baseOrdinal == Load(img, p + 16, 4)
            && Holds(img, names, 4, nn, r.1.names) && Holds(img, ords, 2, nn, r.1.ordinals)
            && Holds(img, funcs, 4, nf, r.1.functions))
  {
    hide Load, Words;
  }

  // ---- From a function index to an address -----------------------------------------------

  predicate Forwarded(cache: ExportCache, rva: nat) {
    cache.dirSize <= U32 - 1 - cache.dirRva && cache.dirRva <= rva < cache.dirRva + cache.dirSize
  }

  // The RVA of function number i, unless it is out of range or a forwarder.
  function Target(img: seq<byte>, cache: ExportCache, i: nat): Option<nat> {
    if i >= |cache.functions| || Forwarded(cache, cache.functions[i])
      || !RangeValid(cache.functions[i], 1, |img|) then None
    else Some(cache.functions[i])
  }

  // Function number `index` is there and rva is its entry, inside the image and not among the bytes
  // of the export directory (where forwarders point), when those end below 4 GB.
  predicate Exported(img: seq<byte>, cache: ExportCache, index: int, rva: nat) {
    && 0 <= index < |cache.functions| && rva == cache.functions[index] && rva < |img|
    && (cache.dirRva + cache.dirSize < 0x1_0000_0000 ==> rva < cache.dirRva || rva >= cache.dirRva + cache.dirSize)
  }

  lemma {:induction false} TargetExactly(img: seq<byte>, cache: ExportCache, i: nat, rva: nat)
    ensures Target(img, cache, i) == Some(rva) <==> Exported(img, cache, i, rva)
  {
  }

  // ---- Lookup by name ------------------------------------------------------------------------

  // Name i of the cache, as it reads in the image now.
  function NameAt(img: seq<byte>, cache: ExportCache, i: nat): cstring
    requires i < |cache.names| && cache.names[i] <= |img|
  {
    CStr(img, cache.names[i])
  }

  predicate NameIs(img: seq<byte>, cache: ExportCache, i: nat, name: cstring)
    requires i < |cache.names|
  {
    CStrValid(img, cache.names[i]) && NameAt(img, cache, i) == name
  }

  // r is the target of name i, which reads as asked.
  predicate NamedTarget(img: seq<byte>, cache: ExportCache, i: nat, name: cstring, r: Option<nat>) {
    && i < |cache.names| && i < |cache.ordinals| && NameIs(img, cache, i, name)
    && r == Target(img, cache, cache.ordinals[i])
  }

  // A linear scan of the cached names from i on.
  function Scan(img: seq<byte>, cache: ExportCache, name: cstring, i: nat): (r: Option<nat>)
    requires Fits(cache)
    ensures r.Some? ==> i <= r.value < |cache.names| && NameIs(img, cache, r.value, name)
    ensures r.Some? ==> forall j :: i <= j < r.value ==> !NameIs(img, cache, j, name)
    ensures r.None? ==> forall j :: i <= j < |cache.names| ==> !NameIs(img, cache, j, name)
    decreases |cache.names| - i
  {
    if i >= |cache.names| then None
    else if NameIs(img, cache, i, name) then Some(i)
    else Scan(img, cache, name, i + 1)
  }

  function ByScan(img: seq<byte>, cache: ExportCache, name: cstring): Option<nat>
    requires Fits(cache)
  {
    match Scan(img, cache, name, 0)
    case None => None
    case Some(i) => Target(img, cache, cache.ordinals[i])
  }

  // Names are valid strings in strictly increasing order.
  predicate Ordered(img: seq<byte>, cache: ExportCache) {
    && (forall i :: 0 <= i < |cache.names| ==> CStrValid(img, cache.names[i]))
    && (forall i, j :: 0 <= i < j < |cache.names| ==> Compare(NameAt(img, cache, i), NameAt(img, cache, j)) < 0)
  }

  // The module whose exports are cached: its image and its embedded cache.
  class Module {
    const image: array<byte>
    const nt: NtHeaders
    var cache: ExportCache

    constructor (image: array<byte>, nt: NtHeaders)
      ensures this.image == image && this.nt == nt && cache == EMPTY
    {
      this.image, this.nt, this.cache := image, nt, EMPTY;
    }

    method ParseExportTable() returns (ok: bool)
      modifies this`cache
      ensures (ok, cache) == Parse(image[..], nt, old(cache)) && (Fits(old(cache)) ==> Fits(cache))
    {
      var dir := Directory(nt, EXPORT_DIRECTORY);
      if dir.None? || dir.value.rva == 0 { return false; }
      if dir.value.size < EXPORT_HEADER { return false; }
      if !RangeValid(dir.value.rva, EXPORT_HEADER, image.Length) { return false; }
      var img, p := image[..], dir.value.rva;
      var nn, nf := Min(Field(img, p, 24), MAX_NAMES), Min(Field(img, p, 20), MAX_FUNCTIONS);
      var funcs, names, ords := Field(img, p, 28), Field(img, p, 32), Field(img, p, 36);
      cache := EMPTY;
      if (nn > 0 && (names == 0 || ords == 0)) || (nf > 0 && funcs == 0) { return false; }
      var nameTable, ordinalTable, funcTable := [], [], [];
      if nn > 0 {
        if !RangeValid(names, 4 * nn, image.Length) { return false; }
        nameTable := Words(img, names, 4, nn);
        if !RangeValid(ords, 2 * nn, image.Length) { return false; }
        ordinalTable := Words(img, ords, 2, nn);
      }
      if nf > 0 {
        if !RangeValid(funcs, 4 * nf, image.Length) { return false; }
        funcTable := Words(img, funcs, 4, nf);
      }
      cache := ExportCache(p, dir.value.size, Field(img, p, 16), nameTable, ordinalTable, funcTable);
      return true;
    }

    // A hit is always a cached name that reads as asked; on ordered names the answer is the
    // linear scan's, found or not.
    method LookupExport(name: cstring) returns (r: Option<nat>)
      requires Fits(cache)
      ensures r.Some? ==> exists i :: NamedTarget(image[..], cache, i, name, r)
      ensures Ordered(image[..], cache) ==> r == ByScan(image[..], cache, name)
      ensures Ordered(image[..], cache) ==>
        forall rva: nat :: r == Some(rva) <==> NameExports(image[..], cache, name, rva)
    {
      hide NameExports, Compare, CStr, CStrValid, Scan, Target;
      ghost var img := image[..];
      forall rva: nat | Ordered(img, cache)
        ensures ByScan(img, cache, name) == Some(rva) <==> NameExports(img, cache, name, rva)
      {
        ScanExports(img, cache, name, rva);
      }
      var lo, hi := 0, |cache.names|;
      while lo < hi
        invariant 0 <= lo <= hi <= |cache.names|
        invariant Ordered(img, cache) ==>
          forall i :: 0 <= i < |cache.names| && !(lo <= i < hi) ==> !NameIs(img, cache, i, name)
      {
        var mid := lo + (hi - lo) / 2;
        var valid := ImageCStrValid(image, cache.names[mid]);
        if !valid { return None; }
        var cmp := StrCmp(name, CStr(image[..], cache.names[mid]));
        if cmp < 0 {
          AboveMid(img, cache, name, mid);
          hi := mid;
        } else if cmp > 0 {
          BelowMid(img, cache, name, mid);
          lo := mid + 1;
        } else {
          CompareOrders(name, CStr(image[..], cache.names[mid]));
          OnlyHit(img, cache, name, mid);
          r := Target(image[..], cache, cache.ordinals[mid]);
          assert NamedTarget(img, cache, mid, name, r);
          return;
        }
      }
      return None;
    }
  }

  // Some cached name reads as asked, and its function is exported at rva.
  ghost predicate NameExports(img: seq<byte>, cache: ExportCache, name: cstring, rva: nat)
    requires Fits(cache)
  {
    exists i: nat :: i < |cache.names| && NameIs(img, cache, i, name) && Exported(img, cache, cache.ordinals[i], rva)
  }

  lemma {:induction false} ScanExports(img: seq<byte>, cache: ExportCache, name: cstring, rva: nat)
    requires Fits(cache) && Ordered(img, cache)
    ensures ByScan(img, cache, name) == Some(rva) <==> NameExports(img, cache, name, rva)
  {
    hide CStr, CStrValid, Scan, Target, Exported;
    var found := Scan(img, cache, name, 0);
    if found.Some? { TargetExactly(img, cache, cache.ordinals[found.value], rva); }
    if i: nat :| i < |cache.names| && NameIs(img, cache, i, name) && Exported(img, cache, cache.ordinals[i], rva) {
      OnlyHit(img, cache, name, i);
      TargetExactly(img, cache, cache.ordinals[i], rva);
    }
  }

  lemma {:induction false} AboveMid(img: seq<byte>, cache: ExportCache, name: cstring, mid: nat)
    requires mid < |cache.names| && CStrValid(img, cache.names[mid]) && Compare(name, NameAt(img, cache, mid)) < 0
    ensures Ordered(img, cache) ==> forall i :: mid <= i < |cache.names| ==> !NameIs(img, cache, i, name)
  {
    hide CStr, CStrValid;
    if Ordered(img, cache) {
      forall i | mid <= i < |cache.names| ensures !NameIs(img, cache, i, name) {
        var m, n := NameAt(img, cache, mid), NameAt(img, cache, i);
        if i > mid { CompareTransitive(name, m, n); }
        CompareOrders(name, n);
      }
    }
  }

  lemma {:induction false} BelowMid(img: seq<byte>, cache: ExportCache, name: cstring, mid: nat)
    requires mid < |cache.names| && CStrValid(img, cache.names[mid]) && Compare(name, NameAt(img, cache, mid)) > 0
    ensures Ordered(img, cache) ==> forall i :: 0 <= i <= mid ==> !NameIs(img, cache, i, name)
  {
    hide CStr, CStrValid;
    if Ordered(img, cache) {
      forall i | 0 <= i <= mid ensures !NameIs(img, cache, i, name) {
        var m, n := NameAt(img, cache, mid), NameAt(img, cache, i);
        CompareFlip(name, m);
        if i < mid { CompareTransitive(n, m, name); }
        CompareOrders(n, name);
      }
    }
  }

  lemma {:induction false} OnlyHit(img: seq<byte>, cache: ExportCache, name: cstring, i: nat)
    requires Fits(cache) && i < |cache.names| && NameIs(img, cache, i, name)
    ensures Ordered(img, cache) ==> Scan(img, cache, name, 0) == Some(i)
  {
    hide CStr, CStrValid, Scan;
    CompareOrders(name, name);
  }

  // ---- Lookup by ordinal ------------------------------------------------------------------------

  // The biased ordinal is a 16-bit value; the subtraction is done in 32 bits.
  function ByOrdinal(img: seq<byte>, cache: ExportCache, ordinal: u16): Option<nat> {
    Target(img, cache, (ordinal - cache.baseOrdinal) % U32)
  }

  // An ordinal finds the function whose number, counted from the base in 32 bits, it is.
  lemma {:induction false} OrdinalExactly(img: seq<byte>, cache: ExportCache, ordinal: u16, rva: nat)
    requires Fits(cache)
    ensures ByOrdinal(img, cache, ordinal) == Some(rva) <==>
      exists index: nat :: (cache.baseOrdinal + index) % 0x1_0000_0000 == ordinal && Exported(img, cache, index, rva)
  {
    hide Target;
    var at := (ordinal - cache.baseOrdinal) % U32;
    TargetExactly(img, cache, at, rva);
    var q := (ordinal - cache.baseOrdinal) / U32;
    assert ordinal - cache.baseOrdinal == U32 * q + at;
    ModUnique(cache.baseOrdinal + at, U32, -q, ordinal);
    if index: nat :|
        (cache.baseOrdinal + index) % U32 == ordinal && Exported(img, cache, index, rva) {
      var k := (cache.baseOrdinal + index) / U32;
      assert cache.baseOrdinal + index == U32 * k + ordinal;
      ModUnique(ordinal - cache.baseOrdinal, U32, -k, index);
    }
  }

  // The biased ordinal of a name is base + ordinal_table[i], cut to 16 bits. Looking it up
  // gives the named function, unless that is a real function whose biased ordinal did not
  // fit: then the ordinal lookup finds nothing.
  lemma {:induction false} OrdinalLookup(img: seq<byte>, cache: ExportCache, i: nat)
    requires Fits(cache) && i < |cache.names|
    ensures
      var biased, named := cache.baseOrdinal + cache.ordinals[i], Target(img, cache, cache.ordinals[i]);
      && (ByOrdinal(img, cache, biased % U16) == named <==> biased % U32 < U16 || named.None?)
      && (biased % U32 >= U16 ==> ByOrdinal(img, cache, biased % U16).None?)
  {
    hide Target;
    var base, ord := cache.baseOrdinal, cache.ordinals[i];
    var q, o := (base + ord) / U16, (base + ord) % U16;
    assert base + ord == U16 * q + o && q <= U16;
    if (base + ord) % U32 < U16 {
      assert q == 0 || q == U16;
      ModUnique(o - base, U32, if q == 0 then 0 else -1, ord);
    } else {
      assert 1 <= q < U16;
      ModUnique(o - base, U32, -1, ord - U16 * q + U32);
      OutOfRange(img, cache, ord - U16 * q + U32);
    }
  }

  lemma {:induction false} OutOfRange(img: seq<byte>, cache: ExportCache, i: nat)
    requires Fits(cache) && i >= U16
    ensures Target(img, cache, i).None?
  {
  }

  // By name and by ordinal agree, for every name of an ordered table whose biased ordinal fits.
  lemma {:induction false} NameAndOrdinalAgree(img: seq<byte>, cache: ExportCache, i: nat)
    requires Fits(cache) && Ordered(img, cache) && i < |cache.names|
    requires (cache.baseOrdinal + cache.ordinals[i]) % U32 < U16
    ensures ByScan(img, cache, NameAt(img, cache, i)) ==
      ByOrdinal(img, cache, (cache.baseOrdinal + cache.ordinals[i]) % U16)
  {
    hide Scan, Target, CStr;
    OnlyHit(img, cache, NameAt(img, cache, i), i);
    OrdinalLookup(img, cache, i);
  }
}
