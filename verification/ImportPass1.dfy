/**
 Import resolution, pass 1 (import_resolve.c): walk the import descriptors and
 write the resolver's answers into the import address tables (IATs).

 `Pass1` is the walk as the loader runs it: everything it reads, it reads from the
 image it is patching. The theorem says what it does to an image whose tables do
 not overlap, in terms of the untouched image only.
 */
module ImportPass1 {
  import opened Bytes
  import opened Pe
  import opened CStrings

  const DESCRIPTOR := 20

  // What name resolution answers during one pass; 0 is "not found".
  datatype Resolver = Resolver(
    byName: (cstring, cstring) -> nat,
    ordinalName: (cstring, nat) -> Option<cstring>)

  function ThunkSize(pe32: bool): nat {
    if pe32 then 4 else 8
  }

  // The offset of thunk i in its table.
  function Nth(pe32: bool, i: nat): nat {
    if pe32 then 4 * i else 8 * i
  }

  function OrdinalFlag(pe32: bool): nat {
    if pe32 then 0x8000_0000 else 0x8000_0000_0000_0000
  }

  // Fields of the descriptor at p.
  function OriginalThunk(img: seq<byte>, p: nat): nat
    requires p + DESCRIPTOR <= |img|
  {
    Load(img, p, 4)
  }

  function NameRva(img: seq<byte>, p: nat): nat
    requires p + DESCRIPTOR <= |img|
  {
    Load(img, p + 12, 4)
  }

  function FirstThunk(img: seq<byte>, p: nat): nat
    requires p + DESCRIPTOR <= |img|
  {
    Load(img, p + 16, 4)
  }

  // The lookup table: the original thunks, or the IAT itself when there are none.
  function LookupTable(img: seq<byte>, p: nat): nat
    requires p + DESCRIPTOR <= |img|
  {
    if OriginalThunk(img, p) != 0 then OriginalThunk(img, p) else FirstThunk(img, p)
  }

  // ---- One thunk ---------------------------------------------------------------------

  // A thunk is usable: an ordinal, or the RVA of a terminated name.
  predicate ThunkValid(img: seq<byte>, pe32: bool, thunk: nat) {
    thunk >= OrdinalFlag(pe32) || (thunk <= U32 - 1 - 2 && RangeValid(thunk, 3, |img|) && CStrValid(img, thunk + 2))
  }

  // The resolver's answer for a usable thunk of the DLL named at dll; 0 is "unresolved".
  function Answer(img: seq<byte>, pe32: bool, res: Resolver, dll: nat, thunk: nat): nat
    requires dll <= |img| && ThunkValid(img, pe32, thunk)
  {
    var dllName := CStr(img, dll);
    if thunk >= OrdinalFlag(pe32) then
      match res.ordinalName(dllName, thunk % U16)
      case None => 0
      case Some(name) => res.byName(dllName, name)
    else res.byName(dllName, CStr(img, thunk + 2))
  }

  // ---- The walk ------------------------------------------------------------------------

  // Thunks i, i+1, ... of the descriptor at p; ilt, iat and dll were read when its turn began.
  function Thunks(img: seq<byte>, pe32: bool, res: Resolver, p: nat, dll: nat, ilt: nat, iat: nat,
          i: nat): (r: (bool, seq<byte>))
    requires p + DESCRIPTOR <= |img| && dll <= |img| && i <= |img|
    ensures |r.1| == |img|
    decreases |img| - i
  {
    var w := ThunkSize(pe32);
    if !RangeValid(ilt, Nth(pe32, i + 1), |img|)
      || !RangeValid(FirstThunk(img, p), Nth(pe32, i + 1), |img|) then (false, img)
    else
      var thunk := Load(img, ilt + Nth(pe32, i), w);
      if thunk == 0 then (true, img)
      else if !ThunkValid(img, pe32, thunk) then (false, img)
      else
        var addr := Answer(img, pe32, res, dll, thunk);
        var img' := if addr != 0 then Clip(img, iat + Nth(pe32, i), w, addr) else img;
        Thunks(img', pe32, res, p, dll, ilt, iat, i + 1)
  }

  // The descriptors from directory offset off on.
  function Descriptors(img: seq<byte>, pe32: bool, res: Resolver, rva: nat, size: nat, off: nat): (r: (bool, seq<byte>))
    requires rva + off + DESCRIPTOR <= |img|
    ensures |r.1| == |img|
    decreases |img| - off
  {
    var p, w := rva + off, ThunkSize(pe32);
    if off + DESCRIPTOR > size then (false, img)
    else if NameRva(img, p) == 0 then (true, img)
    else if !CStrValid(img, NameRva(img, p)) then (false, img)
    else if !RangeValid(LookupTable(img, p), w, |img|) || !RangeValid(FirstThunk(img, p), w, |img|) then (false, img)
    else
      var r := Thunks(img, pe32, res, p, NameRva(img, p), LookupTable(img, p), FirstThunk(img, p), 0);
      if !r.0 || p + 2 * DESCRIPTOR > |img| then (false, r.1)
      else Descriptors(r.1, pe32, res, rva, size, off + DESCRIPTOR)
  }

  function Pass1(img: seq<byte>, nt: NtHeaders, res: Resolver): (r: (bool, seq<byte>))
    ensures |r.1| == |img|
  {
    match Directory(nt, IMPORT_DIRECTORY)
    case None => (true, img)
    case Some(dir) =>
      if dir.size == 0 then (true, img)
      else if dir.rva == 0 || !RangeValid(dir.rva, dir.size, |img|)
        || !RangeValid(dir.rva, DESCRIPTOR, |img|) then (false, img)
      else Descriptors(img, nt.pe32, res, dir.rva, dir.size, 0)
  }

  // Thunk by thunk; the descriptor's own FirstThunk is consulted again each time.
  method ResolveThunks(a: array<byte>, pe32: bool, res: Resolver, p: nat, dll: nat, ilt: nat, iat: nat)
    returns (ok: bool)
    requires p + DESCRIPTOR <= a.Length && dll <= a.Length
    modifies a
    ensures (ok, a[..]) == Thunks(old(a[..]), pe32, res, p, dll, ilt, iat, 0)
  {
    hide ThunkValid, Answer, FirstThunk, Load, Clip;
    var w, i := ThunkSize(pe32), 0;
    while true
      invariant i <= a.Length
      invariant Thunks(a[..], pe32, res, p, dll, ilt, iat, i) == Thunks(old(a[..]), pe32, res, p, dll, ilt, iat, 0)
      decreases a.Length - i
    {
      ghost var img := a[..];
      if !RangeValid(ilt, Nth(pe32, i + 1), a.Length) || !RangeValid(FirstThunk(a[..], p), Nth(pe32, i + 1), a.Length) {
        return false;
      }
      var thunk := Load(a[..], ilt + Nth(pe32, i), w);
      if thunk == 0 { return true; }
      if !ThunkValid(a[..], pe32, thunk) { return false; }
      var addr := Answer(a[..], pe32, res, dll, thunk);
      if addr != 0 {
        ClipWord(a, iat + Nth(pe32, i), w, addr);
        assert a[..] == Clip(img, iat + Nth(pe32, i), w, addr);
      }
      i := i + 1;
    }
  }

  method ResolveImportPass1(a: array<byte>, nt: NtHeaders, res: Resolver) returns (ok: bool)
    modifies a
    ensures (ok, a[..]) == Pass1(old(a[..]), nt, res)
  {
    hide Thunks, CStrValid, Load;
    var d := Directory(nt, IMPORT_DIRECTORY);
    if d.None? || d.value.size == 0 { return true; }
    var rva, size := d.value.rva, d.value.size;
    if rva == 0 || !RangeValid(rva, size, a.Length) || !RangeValid(rva, DESCRIPTOR, a.Length) { return false; }
    var off, w := 0, ThunkSize(nt.pe32);
    while off + DESCRIPTOR <= size && NameRva(a[..], rva + off) != 0
      invariant rva + off + DESCRIPTOR <= a.Length
      invariant Descriptors(a[..], nt.pe32, res, rva, size, off) == Descriptors(old(a[..]), nt.pe32, res, rva, size, 0)
      decreases a.Length - off
    {
      var p := rva + off;
      ghost var img := a[..];
      var valid := ImageCStrValid(a, NameRva(a[..], p));
      if !valid { return false; }
      var ilt, iat := LookupTable(a[..], p), FirstThunk(a[..], p);
      if !RangeValid(ilt, w, a.Length) || !RangeValid(iat, w, a.Length) { return false; }
      ok := ResolveThunks(a, nt.pe32, res, p, NameRva(a[..], p), ilt, iat);
      if !ok { return false; }
      off := off + DESCRIPTOR;
      if !RangeValid(rva + off, DESCRIPTOR, a.Length) { return false; }
    }
    return off + DESCRIPTOR <= size;
  }

  // ---- The tables of an untouched image --------------------------------------------------

  // One descriptor's tables: its DLL name, lookup table and IAT, and how many thunks
  // come before the first zero one (or the end of the image).
  datatype Table = Table(dll: nat, ilt: nat, iat: nat, count: nat)

  predicate ThunkLive(o: seq<byte>, pe32: bool, ilt: nat, iat: nat, i: nat) {
    ilt + Nth(pe32, i + 1) <= |o| && iat + Nth(pe32, i + 1) <= |o| && Load(o, ilt + Nth(pe32, i), ThunkSize(pe32)) != 0
  }

  function ThunkCount(o: seq<byte>, pe32: bool, ilt: nat, iat: nat, i: nat): nat
    decreases |o| - i
  {
    if ThunkLive(o, pe32, ilt, iat, i) then 1 + ThunkCount(o, pe32, ilt, iat, i + 1) else 0
  }

  predicate DescriptorLive(o: seq<byte>, rva: nat, size: nat, d: nat) {
    DESCRIPTOR * (d + 1) <= size && rva + DESCRIPTOR * (d + 1) <= |o| && NameRva(o, rva + DESCRIPTOR * d) != 0
  }

  function TableAt(o: seq<byte>, pe32: bool, p: nat): Table
    requires p + DESCRIPTOR <= |o|
  {
    var ilt, iat := LookupTable(o, p), FirstThunk(o, p);
    Table(NameRva(o, p), ilt, iat, ThunkCount(o, pe32, ilt, iat, 0))
  }

  // The tables of descriptors d, d+1, ... up to the terminator.
  function Tables(o: seq<byte>, pe32: bool, rva: nat, size: nat, d: nat): seq<Table>
    decreases |o| - d
  {
    if DescriptorLive(o, rva, size, d) then
      [TableAt(o, pe32, rva + DESCRIPTOR * d)] + Tables(o, pe32, rva, size, d + 1)
    else []
  }

  // t is the table of descriptor d.
  predicate Describes(o: seq<byte>, pe32: bool, rva: nat, size: nat, d: nat, t: Table) {
    DescriptorLive(o, rva, size, d) && t == TableAt(o, pe32, rva + DESCRIPTOR * d)
  }

  lemma {:induction false} TablesDescribe(o: seq<byte>, pe32: bool, rva: nat, size: nat, d: nat)
    ensures
      var ts := Tables(o, pe32, rva, size, d);
      && (forall e :: 0 <= e < |ts| ==> Describes(o, pe32, rva, size, d + e, ts[e]))
      && !DescriptorLive(o, rva, size, d + |ts|)
    decreases |o| - d
  {
    hide TableAt;
    if DescriptorLive(o, rva, size, d) {
      var ts, rest := Tables(o, pe32, rva, size, d), Tables(o, pe32, rva, size, d + 1);
      TablesDescribe(o, pe32, rva, size, d + 1);
      forall e | 0 <= e < |ts| ensures Describes(o, pe32, rva, size, d + e, ts[e]) {
        if e > 0 {
          assert Describes(o, pe32, rva, size, d + 1 + (e - 1), rest[e - 1]);
        }
      }
    }
  }

  lemma {:induction false} ThunkCountMeans(o: seq<byte>, pe32: bool, ilt: nat, iat: nat, i: nat)
    ensures
      var n := ThunkCount(o, pe32, ilt, iat, i);
      (forall j :: i <= j < i + n ==> ThunkLive(o, pe32, ilt, iat, j)) && !ThunkLive(o, pe32, ilt, iat, i + n)
    decreases |o| - i
  {
    hide ThunkLive;
    if ThunkLive(o, pe32, ilt, iat, i) {
      LiveBound(o, pe32, ilt, iat, i);
      ThunkCountMeans(o, pe32, ilt, iat, i + 1);
    }
  }

  lemma {:induction false} LiveBound(o: seq<byte>, pe32: bool, ilt: nat, iat: nat, i: nat)
    ensures ThunkLive(o, pe32, ilt, iat, i) ==> i < |o|
  {
  }

  // ---- Layout and well-formedness ----------------------------------------------------------

  // No IAT overlaps the n bytes at lo.
  predicate Clean(pe32: bool, ts: seq<Table>, lo: nat, n: nat) {
    forall d :: 0 <= d < |ts| ==> Apart(ts[d].iat, Nth(pe32, ts[d].count), lo, n)
  }

  predicate NameClean(o: seq<byte>, pe32: bool, ts: seq<Table>, off: nat) {
    off <= |o| ==> Clean(pe32, ts, off, |CStr(o, off)| + 1)
  }

  predicate ThunkClean(o: seq<byte>, pe32: bool, ts: seq<Table>, t: Table, i: nat) {
    ThunkLive(o, pe32, t.ilt, t.iat, i) ==>
      var thunk := Load(o, t.ilt + Nth(pe32, i), ThunkSize(pe32));
      thunk < OrdinalFlag(pe32) ==> NameClean(o, pe32, ts, thunk + 2)
  }

  // A table's lookup table is clean, or is its own IAT.
  predicate LookupClean(pe32: bool, ts: seq<Table>, d: nat)
    requires d < |ts|
  {
    var t := ts[d];
    forall e :: 0 <= e < |ts| ==>
      (e == d && t.ilt == t.iat) || Apart(ts[e].iat, Nth(pe32, ts[e].count), t.ilt, Nth(pe32, t.count + 1))
  }

  // IATs are disjoint from each other, from the descriptors, from every name and from
  // every lookup table but their own.
  predicate Layout(o: seq<byte>, pe32: bool, rva: nat, ts: seq<Table>) {
    && Clean(pe32, ts, rva, DESCRIPTOR * (|ts| + 1))
    && IatsApart(pe32, ts)
    && (forall d :: 0 <= d < |ts| ==> NameClean(o, pe32, ts, ts[d].dll) && LookupClean(pe32, ts, d))
    && (forall d, i :: 0 <= d < |ts| && 0 <= i < ts[d].count ==> ThunkClean(o, pe32, ts, ts[d], i))
  }

  predicate ThunksOk(o: seq<byte>, pe32: bool, t: Table, i: nat) {
    && t.ilt + Nth(pe32, t.count + 1) <= |o| && t.iat + Nth(pe32, t.count + 1) <= |o|
    && (forall j :: i <= j < t.count ==> ThunkUsable(o, pe32, t, j))
  }

  predicate ThunkUsable(o: seq<byte>, pe32: bool, t: Table, j: nat) {
    t.ilt + Nth(pe32, j + 1) <= |o| && ThunkValid(o, pe32, Load(o, t.ilt + Nth(pe32, j), ThunkSize(pe32)))
  }

  // ---- What pass 1 leaves behind ----------------------------------------------------------

  // Slot j of table t should hold the resolver's answer, or what it held before.
  function Expected(o: seq<byte>, pe32: bool, res: Resolver, t: Table, j: nat): nat
    requires ThunkLive(o, pe32, t.ilt, t.iat, j) && t.dll <= |o|
  {
    var w := ThunkSize(pe32);
    var thunk := Load(o, t.ilt + Nth(pe32, j), w);
    var addr := if ThunkValid(o, pe32, thunk) then Answer(o, pe32, res, t.dll, thunk) else 0;
    if addr != 0 then Wrap(addr, w) else Load(o, t.iat + Nth(pe32, j), w)
  }

  predicate SlotDone(o: seq<byte>, img: seq<byte>, pe32: bool, res: Resolver, t: Table, j: nat)
    requires |img| == |o|
  {
    && ThunkLive(o, pe32, t.ilt, t.iat, j) && t.dll <= |o|
    && Load(img, t.iat + Nth(pe32, j), ThunkSize(pe32)) == Expected(o, pe32, res, t, j)
  }

  // k lies in an IAT slot the walk has passed when it stands at thunk i of descriptor d.
  predicate Passed(pe32: bool, ts: seq<Table>, d: nat, i: nat, k: int) {
    || (exists e :: 0 <= e < d && e < |ts| && ts[e].iat <= k < ts[e].iat + Nth(pe32, ts[e].count))
    || (d < |ts| && ts[d].iat <= k < ts[d].iat + Nth(pe32, i))
  }

  // The walk stands at (d, i): slots behind it are done, every other byte is untouched.
  predicate Progress(o: seq<byte>, img: seq<byte>, pe32: bool, res: Resolver, ts: seq<Table>, d: nat, i: nat) {
    && |img| == |o|
    && (forall e, j :: 0 <= e < |ts| && 0 <= j < ts[e].count && (e < d || (e == d && j < i)) ==>
        SlotDone(o, img, pe32, res, ts[e], j))
    && (forall k :: 0 <= k < |o| && !Passed(pe32, ts, d, i, k) ==> img[k] == o[k])
  }

  // Clean bytes still read as they did.
  lemma {:induction false} CleanAgree(o: seq<byte>, img: seq<byte>, pe32: bool, res: Resolver, ts: seq<Table>, d: nat,
          i: nat, lo: nat, n: nat)
    requires Progress(o, img, pe32, res, ts, d, i) && (d < |ts| ==> i <= ts[d].count)
    requires Clean(pe32, ts, lo, n)
    ensures AgreeOn(o, img, lo, lo + n)
  {
    hide SlotDone;
    forall k | lo <= k < lo + n && k < |o| ensures !Passed(pe32, ts, d, i, k) {}
  }

  // One thunk reads the same in the walked image as in the original.
  lemma {:induction false} ThunkReads(o: seq<byte>, img: seq<byte>, pe32: bool, res: Resolver, ts: seq<Table>, d: nat,
          i: nat)
    requires Progress(o, img, pe32, res, ts, d, i) && d < |ts| && i <= ts[d].count
    requires LookupClean(pe32, ts, d)
    requires ts[d].ilt + Nth(pe32, i + 1) <= |o|
    ensures Load(img, ts[d].ilt + Nth(pe32, i), ThunkSize(pe32)) == Load(o, ts[d].ilt + Nth(pe32, i), ThunkSize(pe32))
  {
    hide SlotDone, Load;
    var t, lo, w := ts[d], ts[d].ilt + Nth(pe32, i), ThunkSize(pe32);
    forall k | lo <= k < lo + w ensures !Passed(pe32, ts, d, i, k) {}
    LoadAgree(o, img, lo, w);
  }

  lemma {:induction false} NameReads(o: seq<byte>, img: seq<byte>, pe32: bool, res: Resolver, ts: seq<Table>, d: nat,
          i: nat, off: nat)
    requires Progress(o, img, pe32, res, ts, d, i) && (d < |ts| ==> i <= ts[d].count)
    requires NameClean(o, pe32, ts, off)
    ensures CStrValid(img, off) <==> CStrValid(o, off)
    ensures off <= |o| ==> CStr(img, off) == CStr(o, off)
  {
    hide Progress, CStr;
    assert |img| == |o| by { ProgressLength(o, img, pe32, res, ts, d, i); }
    if off <= |o| {
      CleanAgree(o, img, pe32, res, ts, d, i, off, |CStr(o, off)| + 1);
      CStrAgree(o, img, off);
    }
  }

  lemma {:induction false} ProgressLength(o: seq<byte>, img: seq<byte>, pe32: bool, res: Resolver, ts: seq<Table>,
          d: nat, i: nat)
    requires Progress(o, img, pe32, res, ts, d, i)
    ensures |img| == |o|
  {
  }

  lemma {:induction false} AnswerReads(o: seq<byte>, img: seq<byte>, pe32: bool, res: Resolver, ts: seq<Table>, d: nat,
          i: nat, thunk: nat)
    requires Progress(o, img, pe32, res, ts, d, i) && d < |ts| && i <= ts[d].count
    requires ts[d].dll <= |o| && NameClean(o, pe32, ts, ts[d].dll)
    requires thunk < OrdinalFlag(pe32) ==> NameClean(o, pe32, ts, thunk + 2)
    ensures |img| == |o| && (ThunkValid(img, pe32, thunk) <==> ThunkValid(o, pe32, thunk))
    ensures ThunkValid(o, pe32, thunk) ==>
      Answer(img, pe32, res, ts[d].dll, thunk) == Answer(o, pe32, res, ts[d].dll, thunk)
  {
    hide Progress, CStr, CStrValid, NameClean;
    ProgressLength(o, img, pe32, res, ts, d, i);
    NameReads(o, img, pe32, res, ts, d, i, ts[d].dll);
    if thunk < OrdinalFlag(pe32) {
      NameReads(o, img, pe32, res, ts, d, i, thunk + 2);
    }
  }

  predicate IatsApart(pe32: bool, ts: seq<Table>) {
    forall d, e :: 0 <= d < e < |ts| ==> Apart(ts[d].iat, Nth(pe32, ts[d].count), ts[e].iat, Nth(pe32, ts[e].count))
  }

  lemma {:induction false} SlotsApart(pe32: bool, ts: seq<Table>, e: nat, j: nat, d: nat, i: nat)
    requires IatsApart(pe32, ts) && e < |ts| && j < ts[e].count && d < |ts| && i < ts[d].count && (e != d || j != i)
    ensures Apart(ts[e].iat + Nth(pe32, j), ThunkSize(pe32), ts[d].iat + Nth(pe32, i), ThunkSize(pe32))
  {
  }

  // Passing a slot: it is done now, and the slots behind it still are.
  lemma {:induction false} SlotStep(o: seq<byte>, img: seq<byte>, img': seq<byte>, pe32: bool, res: Resolver,
          ts: seq<Table>, d: nat, i: nat, addr: nat)
    requires Progress(o, img, pe32, res, ts, d, i) && d < |ts| && i < ts[d].count && IatsApart(pe32, ts)
    requires InBounds(o, pe32, ts[d], i) && ThunkOf(o, pe32, ts[d], i) != 0 && ts[d].dll <= |o|
    requires
      var thunk := ThunkOf(o, pe32, ts[d], i);
      ThunkValid(o, pe32, thunk) && addr == Answer(o, pe32, res, ts[d].dll, thunk)
    requires img' == if addr != 0 then Clip(img, ts[d].iat + Nth(pe32, i), ThunkSize(pe32), addr) else img
    ensures Progress(o, img', pe32, res, ts, d, i + 1)
  {
    hide Load, Wrap, Store, Answer, ThunkValid, Word, IatsApart;
    var at, w := ts[d].iat + Nth(pe32, i), ThunkSize(pe32);
    StoreEffect(img, at, w, addr);
    forall k | 0 <= k < |o| && !Passed(pe32, ts, d, i + 1, k) ensures img'[k] == o[k] {
      assert !Passed(pe32, ts, d, i, k);
    }
    forall e, j | 0 <= e < |ts| && 0 <= j < ts[e].count && (e < d || (e == d && j < i + 1))
      ensures SlotDone(o, img', pe32, res, ts[e], j)
    {
      if e == d && j == i {
        forall k | at <= k < at + w ensures !Passed(pe32, ts, d, i, k) {
          NotPassed(pe32, ts, d, i, k);
        }
        LoadAgree(o, img, at, w);
      } else {
        SlotsApart(pe32, ts, e, j, d, i);
        assert SlotDone(o, img, pe32, res, ts[e], j);
        LoadAgree(img, img', ts[e].iat + Nth(pe32, j), w);
      }
    }
  }

  lemma {:induction false} NotPassed(pe32: bool, ts: seq<Table>, d: nat, i: nat, k: int)
    requires IatsApart(pe32, ts) && d < |ts| && i < ts[d].count
    requires ts[d].iat + Nth(pe32, i) <= k < ts[d].iat + Nth(pe32, i + 1)
    ensures !Passed(pe32, ts, d, i, k)
  {
    forall e | 0 <= e < d ensures !(ts[e].iat <= k < ts[e].iat + Nth(pe32, ts[e].count)) {
      assert Apart(ts[e].iat, Nth(pe32, ts[e].count), ts[d].iat, Nth(pe32, ts[d].count));
    }
  }

  // The descriptor table itself still reads as it did.
  lemma {:induction false} DescriptorReads(o: seq<byte>, img: seq<byte>, pe32: bool, res: Resolver, ts: seq<Table>,
          d: nat, i: nat, rva: nat, e: nat)
    requires Progress(o, img, pe32, res, ts, d, i) && (d < |ts| ==> i <= ts[d].count)
    requires Clean(pe32, ts, rva, DESCRIPTOR * (|ts| + 1)) && e <= |ts| && rva + DESCRIPTOR * (e + 1) <= |o|
    ensures
      var p := rva + DESCRIPTOR * e;
      && |img| == |o| && NameRva(img, p) == NameRva(o, p) && OriginalThunk(img, p) == OriginalThunk(o, p)
      && FirstThunk(img, p) == FirstThunk(o, p)
  {
    hide Progress, Load, Clean;
    var p := rva + DESCRIPTOR * e;
    CleanAgree(o, img, pe32, res, ts, d, i, rva, DESCRIPTOR * (|ts| + 1));
    LoadAgree(o, img, p, 4);
    LoadAgree(o, img, p + 12, 4);
    LoadAgree(o, img, p + 16, 4);
  }

  // ts are the tables of the import directory at rva, laid out apart.
  predicate Ready(o: seq<byte>, pe32: bool, rva: nat, size: nat, ts: seq<Table>) {
    Layout(o, pe32, rva, ts) && ts == Tables(o, pe32, rva, size, 0)
  }

  lemma {:induction false} ReadyTable(o: seq<byte>, pe32: bool, rva: nat, size: nat, ts: seq<Table>, d: nat)
    requires Ready(o, pe32, rva, size, ts) && d < |ts|
    ensures
      var t := ts[d];
      && Describes(o, pe32, rva, size, d, t)
      && (forall j :: 0 <= j < t.count ==> ThunkLive(o, pe32, t.ilt, t.iat, j))
      && !ThunkLive(o, pe32, t.ilt, t.iat, t.count)
      && NameClean(o, pe32, ts, t.dll) && LookupClean(pe32, ts, d)
      && (forall i :: 0 <= i < t.count ==> ThunkClean(o, pe32, ts, t, i))
  {
    hide NameClean, LookupClean, ThunkClean, ThunkLive, DescriptorLive, Load;
    TablesDescribe(o, pe32, rva, size, 0);
    assert Describes(o, pe32, rva, size, 0 + d, ts[d]);
    ThunkCountMeans(o, pe32, ts[d].ilt, ts[d].iat, 0);
  }

  lemma {:induction false} ReadyApart(o: seq<byte>, pe32: bool, rva: nat, size: nat, ts: seq<Table>)
    requires Ready(o, pe32, rva, size, ts)
    ensures IatsApart(pe32, ts) && Clean(pe32, ts, rva, DESCRIPTOR * (|ts| + 1))
  {
  }

  predicate InBounds(o: seq<byte>, pe32: bool, t: Table, i: nat) {
    t.ilt + Nth(pe32, i + 1) <= |o| && t.iat + Nth(pe32, i + 1) <= |o|
  }

  function ThunkOf(o: seq<byte>, pe32: bool, t: Table, i: nat): nat
    requires InBounds(o, pe32, t, i)
  {
    Load(o, t.ilt + Nth(pe32, i), ThunkSize(pe32))
  }

  // Standing at thunk i, the walk sees what the original image says.
  lemma {:induction false} ThunkNow(o: seq<byte>, img: seq<byte>, pe32: bool, res: Resolver, rva: nat, size: nat,
          ts: seq<Table>, d: nat, i: nat)
    requires Ready(o, pe32, rva, size, ts) && d < |ts| && ts[d].dll < |o|
    requires Progress(o, img, pe32, res, ts, d, i) && i <= ts[d].count
    requires rva + DESCRIPTOR * (d + 1) <= |img| == |o|
    ensures FirstThunk(img, rva + DESCRIPTOR * d) == ts[d].iat
    ensures InBounds(o, pe32, ts[d], i) ==> ThunkOf(img, pe32, ts[d], i) == ThunkOf(o, pe32, ts[d], i)
    ensures i < ts[d].count <==> InBounds(o, pe32, ts[d], i) && ThunkOf(o, pe32, ts[d], i) != 0
    ensures i < ts[d].count ==>
      var thunk := ThunkOf(o, pe32, ts[d], i);
      && (ThunkValid(img, pe32, thunk) <==> ThunkValid(o, pe32, thunk))
      && (ThunkValid(o, pe32, thunk) ==>
          Answer(img, pe32, res, ts[d].dll, thunk) == Answer(o, pe32, res, ts[d].dll, thunk))
  {
    hide Progress, Load, Answer, ThunkValid, NameClean, LookupClean, Ready, Describes, Clean;
    var t := ts[d];
    ReadyApart(o, pe32, rva, size, ts);
    ReadyTable(o, pe32, rva, size, ts, d);
    DescriptorReads(o, img, pe32, res, ts, d, i, rva, d);
    DescribesFields(o, pe32, rva, size, d, t);
    if InBounds(o, pe32, t, i) {
      ThunkReads(o, img, pe32, res, ts, d, i);
    }
    if i < t.count {
      assert ThunkLive(o, pe32, t.ilt, t.iat, i) && ThunkClean(o, pe32, ts, t, i);
      AnswerReads(o, img, pe32, res, ts, d, i, ThunkOf(o, pe32, t, i));
    }
  }

  lemma {:induction false} ThunksOkStep(o: seq<byte>, pe32: bool, t: Table, i: nat)
    ensures i == t.count ==> (ThunksOk(o, pe32, t, i) <==> InBounds(o, pe32, t, i))
    ensures i < t.count && InBounds(o, pe32, t, i) ==>
      (ThunksOk(o, pe32, t, i) <==> ThunkValid(o, pe32, ThunkOf(o, pe32, t, i)) && ThunksOk(o, pe32, t, i + 1))
  {
    hide ThunkValid, Load;
    assert i < t.count && ThunksOk(o, pe32, t, i) ==> ThunkUsable(o, pe32, t, i);
  }

  // The walk's next move, with the table's fields as the walk reads them.
  lemma {:induction false} ThunksStep(img: seq<byte>, pe32: bool, res: Resolver, p: nat, t: Table, i: nat)
    requires p + DESCRIPTOR <= |img| && t.dll <= |img| && i <= |img| && FirstThunk(img, p) == t.iat
    ensures
      var r := Thunks(img, pe32, res, p, t.dll, t.ilt, t.iat, i);
      if !InBounds(img, pe32, t, i) then r == (false, img)
      else
        var thunk := ThunkOf(img, pe32, t, i);
        if thunk == 0 then r == (true, img)
        else if !ThunkValid(img, pe32, thunk) then r == (false, img)
        else
          var addr := Answer(img, pe32, res, t.dll, thunk);
          r == Thunks(if addr != 0 then Clip(img, t.iat + Nth(pe32, i), ThunkSize(pe32), addr) else img,
          pe32, res, p, t.dll, t.ilt, t.iat, i + 1)
  {
    hide ThunkValid, Answer, Clip, Load;
  }

  // The first thunk from i on that leaves the image or is not usable; the table's end if none.
  function FirstBad(o: seq<byte>, pe32: bool, t: Table, i: nat): (r: nat)
    requires i <= t.count
    ensures i <= r <= t.count
    ensures forall j :: i <= j < r ==> InBounds(o, pe32, t, j) && ThunkValid(o, pe32, ThunkOf(o, pe32, t, j))
    ensures r < t.count && InBounds(o, pe32, t, r) ==> !ThunkValid(o, pe32, ThunkOf(o, pe32, t, r))
    decreases t.count - i
  {
    if i < t.count && InBounds(o, pe32, t, i) && ThunkValid(o, pe32, ThunkOf(o, pe32, t, i)) then
      FirstBad(o, pe32, t, i + 1)
    else i
  }

  // One descriptor's thunks: the walk succeeds exactly when the rest of the table is
  // usable, and then it has passed the whole table; otherwise it has passed the thunks before
  // the first bad one.
  lemma {:induction false} ThunksEffect(o: seq<byte>, img: seq<byte>, pe32: bool, res: Resolver, rva: nat, size: nat,
          ts: seq<Table>, d: nat, i: nat)
    requires Ready(o, pe32, rva, size, ts) && d < |ts| && ts[d].dll < |o|
    requires Progress(o, img, pe32, res, ts, d, i) && i <= ts[d].count
    requires rva + DESCRIPTOR * (d + 1) <= |img| == |o| && i <= |o|
    ensures
      var r := Thunks(img, pe32, res, rva + DESCRIPTOR * d, ts[d].dll, ts[d].ilt, ts[d].iat, i);
      && (r.0 <==> ThunksOk(o, pe32, ts[d], i))
      && Progress(o, r.1, pe32, res, ts, d, if r.0 then ts[d].count else FirstBad(o, pe32, ts[d], i))
    decreases ts[d].count - i
  {
    hide Progress, ThunkOf, Answer, ThunkValid, Clip, Ready, FirstThunk, ThunksOk, IatsApart, Thunks;
    var t, w := ts[d], ThunkSize(pe32);
    ThunkNow(o, img, pe32, res, rva, size, ts, d, i);
    ThunksOkStep(o, pe32, t, i);
    ThunksStep(img, pe32, res, rva + DESCRIPTOR * d, t, i);
    if i < t.count {
      var thunk := ThunkOf(o, pe32, t, i);
      if ThunkValid(o, pe32, thunk) {
        var addr := Answer(o, pe32, res, t.dll, thunk);
        var img' := if addr != 0 then Clip(img, t.iat + Nth(pe32, i), w, addr) else img;
        ReadyApart(o, pe32, rva, size, ts);
        SlotStep(o, img, img', pe32, res, ts, d, i, addr);
        ThunksEffect(o, img', pe32, res, rva, size, ts, d, i + 1);
      }
    }
  }

  lemma {:induction false} DescribesFields(o: seq<byte>, pe32: bool, rva: nat, size: nat, d: nat, t: Table)
    requires Describes(o, pe32, rva, size, d, t)
    ensures
      var p := rva + DESCRIPTOR * d;
      p + DESCRIPTOR <= |o| && t.dll == NameRva(o, p) && t.ilt == LookupTable(o, p) && t.iat == FirstThunk(o, p)
        && t.dll != 0
  {
  }

  // From descriptor d on: every DLL name is terminated, every thunk is usable, every table
  // ends in a zero thunk inside the image, and the directory has room for the terminator.
  predicate WellFormed(o: seq<byte>, pe32: bool, rva: nat, size: nat, ts: seq<Table>, d: nat) {
    && (forall e :: d <= e < |ts| ==> TableOk(o, pe32, ts[e]))
    && DESCRIPTOR * (|ts| + 1) <= size && rva + DESCRIPTOR * (|ts| + 1) <= |o|
  }

  predicate TableOk(o: seq<byte>, pe32: bool, t: Table) {
    CStrValid(o, t.dll) && ThunksOk(o, pe32, t, 0)
  }

  // Where the walk from descriptor d on comes to rest: at the first DLL name that is not
  // terminated, the first bad thunk, or the end of the descriptors.
  function StopsAt(o: seq<byte>, pe32: bool, ts: seq<Table>, d: nat): (r: (nat, nat))
    requires d <= |ts|
    ensures d <= r.0 <= |ts| && (r.0 == |ts| ==> r.1 == 0) && (r.0 < |ts| ==> r.1 <= ts[r.0].count)
    ensures forall e :: d <= e < r.0 ==> TableOk(o, pe32, ts[e])
    ensures r.0 < |ts| ==> !TableOk(o, pe32, ts[r.0])
    decreases |ts| - d
  {
    if d == |ts| then (d, 0)
    else if !CStrValid(o, ts[d].dll) then (d, 0)
    else if !ThunksOk(o, pe32, ts[d], 0) then (d, FirstBad(o, pe32, ts[d], 0))
    else StopsAt(o, pe32, ts, d + 1)
  }

  lemma {:induction false} WellFormedStep(o: seq<byte>, pe32: bool, rva: nat, size: nat, ts: seq<Table>, d: nat)
    requires d < |ts|
    ensures WellFormed(o, pe32, rva, size, ts, d) <==>
      TableOk(o, pe32, ts[d]) && WellFormed(o, pe32, rva, size, ts, d + 1)
    ensures StopsAt(o, pe32, ts, d) ==
      if !CStrValid(o, ts[d].dll) then (d, 0)
      else if !ThunksOk(o, pe32, ts[d], 0) then (d, FirstBad(o, pe32, ts[d], 0))
      else StopsAt(o, pe32, ts, d + 1)
  {
    hide CStrValid, ThunksOk, FirstBad;
  }

  lemma {:induction false} WellFormedEnd(o: seq<byte>, pe32: bool, rva: nat, size: nat, ts: seq<Table>)
    ensures WellFormed(o, pe32, rva, size, ts, |ts|) <==>
      DESCRIPTOR * (|ts| + 1) <= size && rva + DESCRIPTOR * (|ts| + 1) <= |o|
    ensures StopsAt(o, pe32, ts, |ts|) == (|ts|, 0)
  {
  }

  // A descriptor that is followed by another has room for it in the image.
  lemma {:induction false} NextFits(o: seq<byte>, pe32: bool, rva: nat, size: nat, ts: seq<Table>, d: nat)
    requires Ready(o, pe32, rva, size, ts) && d < |ts|
    ensures d + 1 < |ts| ==> rva + DESCRIPTOR * (d + 2) <= |o|
  {
    hide Ready, Describes;
    if d + 1 < |ts| {
      ReadyTable(o, pe32, rva, size, ts, d + 1);
      DescribesFields(o, pe32, rva, size, d + 1, ts[d + 1]);
    }
  }

  lemma {:induction false} NextTable(o: seq<byte>, img: seq<byte>, pe32: bool, res: Resolver, ts: seq<Table>, d: nat)
    requires d < |ts| && Progress(o, img, pe32, res, ts, d, ts[d].count)
    ensures Progress(o, img, pe32, res, ts, d + 1, 0)
  {
    hide SlotDone;
    forall k | 0 <= k < |o| && !Passed(pe32, ts, d + 1, 0, k) ensures !Passed(pe32, ts, d, ts[d].count, k) {
    }
  }

  // The walk's next move at descriptor d, with its fields as the walk reads them.
  lemma {:induction false} DescriptorsStep(img: seq<byte>, pe32: bool, res: Resolver, rva: nat, size: nat, d: nat,
          t: Table)
    requires
      var p := rva + DESCRIPTOR * d;
      p + DESCRIPTOR <= |img| && NameRva(img, p) == t.dll && LookupTable(img, p) == t.ilt && FirstThunk(img, p) == t.iat
    ensures
      var p, r := rva + DESCRIPTOR * d, Descriptors(img, pe32, res, rva, size, DESCRIPTOR * d);
      if DESCRIPTOR * (d + 1) > size then r == (false, img)
      else if t.dll == 0 then r == (true, img)
      else if !CStrValid(img, t.dll) then r == (false, img)
      else
        var thunks := Thunks(img, pe32, res, p, t.dll, t.ilt, t.iat, 0);
        if !thunks.0 || p + 2 * DESCRIPTOR > |img| then r == (false, thunks.1)
        else r == Descriptors(thunks.1, pe32, res, rva, size, DESCRIPTOR * (d + 1))
  {
    hide NameRva, LookupTable, FirstThunk, CStrValid, Thunks, InBounds;
    var p := rva + DESCRIPTOR * d;
    if CStrValid(img, t.dll) {
      ThunksStep(img, pe32, res, p, t, 0);
      FirstInBounds(img, pe32, t);
    }
  }

  lemma {:induction false} FirstInBounds(img: seq<byte>, pe32: bool, t: Table)
    ensures InBounds(img, pe32, t, 0) <==>
      RangeValid(t.ilt, ThunkSize(pe32), |img|) && RangeValid(t.iat, ThunkSize(pe32), |img|)
  {
  }

  lemma {:induction false} DescriptorsEffect(o: seq<byte>, img: seq<byte>, pe32: bool, res: Resolver, rva: nat,
          size: nat, ts: seq<Table>, d: nat)
    requires Ready(o, pe32, rva, size, ts) && d <= |ts|
    requires Progress(o, img, pe32, res, ts, d, 0) && rva + DESCRIPTOR * (d + 1) <= |img| == |o|
    ensures
      var r := Descriptors(img, pe32, res, rva, size, DESCRIPTOR * d);
      var (stop, thunk) := StopsAt(o, pe32, ts, d);
      && (r.0 <==> WellFormed(o, pe32, rva, size, ts, d)) && (r.0 ==> stop == |ts|)
      && Progress(o, r.1, pe32, res, ts, stop, thunk)
    decreases |ts| - d
  {
    hide FirstBad, ThunksOk, Progress, Thunks, CStrValid, Ready, NameClean, LookupClean, ThunkClean, ThunkLive;
    hide InBounds;
    hide WellFormed, StopsAt, Descriptors, NameRva, LookupTable, FirstThunk, Describes, Clean;
    var p := rva + DESCRIPTOR * d;
    WellFormedEnd(o, pe32, rva, size, ts);
    var t := DescriptorNow(o, img, pe32, res, rva, size, ts, d);
    DescriptorsStep(img, pe32, res, rva, size, d, t);
    if d < |ts| {
      WellFormedStep(o, pe32, rva, size, ts, d);
      if CStrValid(o, t.dll) {
        ThunksEffect(o, img, pe32, res, rva, size, ts, d, 0);
        var r := Thunks(img, pe32, res, p, t.dll, t.ilt, t.iat, 0);
        if r.0 {
          NextTable(o, r.1, pe32, res, ts, d);
          NextFits(o, pe32, rva, size, ts, d);
          if rva + DESCRIPTOR * (d + 2) <= |o| {
            DescriptorsEffect(o, r.1, pe32, res, rva, size, ts, d + 1);
          }
        }
      }
    }
  }

  // Standing at descriptor d, the walk sees the table the original image has there; after the
  // last one it sees the terminator, or the end of the directory.
  lemma {:induction false} DescriptorNow(o: seq<byte>, img: seq<byte>, pe32: bool, res: Resolver, rva: nat, size: nat,
          ts: seq<Table>, d: nat)
    returns (t: Table)
    requires Ready(o, pe32, rva, size, ts) && d <= |ts|
    requires Progress(o, img, pe32, res, ts, d, 0) && rva + DESCRIPTOR * (d + 1) <= |img| == |o|
    ensures
      var p := rva + DESCRIPTOR * d;
      NameRva(img, p) == t.dll && LookupTable(img, p) == t.ilt && FirstThunk(img, p) == t.iat
    ensures d < |ts| ==>
      t == ts[d] && t.dll != 0 && DESCRIPTOR * (d + 1) <= size && (CStrValid(img, t.dll) <==> CStrValid(o, t.dll))
    ensures d < |ts| && CStrValid(o, t.dll) ==> t.dll < |o|
    ensures d == |ts| ==> DESCRIPTOR * (d + 1) > size || t.dll == 0
  {
    hide Progress, Load, CStrValid, NameClean, LookupClean, Tables, TableAt, ThunkClean, ThunkLive, Clean;
    var p := rva + DESCRIPTOR * d;
    DescriptorReads(o, img, pe32, res, ts, d, 0, rva, d);
    TablesDescribe(o, pe32, rva, size, 0);
    if d < |ts| {
      t := ts[d];
      ReadyTable(o, pe32, rva, size, ts, d);
      DescribesFields(o, pe32, rva, size, d, t);
      NameReads(o, img, pe32, res, ts, d, 0, t.dll);
    } else {
      t := Table(NameRva(img, p), LookupTable(img, p), FirstThunk(img, p), 0);
    }
  }

  // k belongs to some IAT, before its terminating thunk.
  predicate InIat(pe32: bool, ts: seq<Table>, k: int) {
    exists e :: 0 <= e < |ts| && ts[e].iat <= k < ts[e].iat + Nth(pe32, ts[e].count)
  }

  // Pass 1 succeeds exactly on well-formed tables, and then every IAT slot before the
  // first zero thunk holds the resolver's answer (or its old value if there is none)
  // and every other byte of the image is as before. On failure that holds of the slots before
  // the place where the walk stopped, and all other bytes are as before.
  lemma {:induction false} Pass1Effect(o: seq<byte>, nt: NtHeaders, res: Resolver)
    requires
      var dir := Directory(nt, IMPORT_DIRECTORY);
      && dir.Some? && dir.value.size != 0 && dir.value.rva != 0
      && RangeValid(dir.value.rva, dir.value.size, |o|) && RangeValid(dir.value.rva, DESCRIPTOR, |o|)
      && Layout(o, nt.pe32, dir.value.rva, Tables(o, nt.pe32, dir.value.rva, dir.value.size, 0))
    ensures
      var dir := Directory(nt, IMPORT_DIRECTORY).value;
      var ts, r := Tables(o, nt.pe32, dir.rva, dir.size, 0), Pass1(o, nt, res);
      && (r.0 <==> WellFormed(o, nt.pe32, dir.rva, dir.size, ts, 0))
      && (r.0 ==>
          && (forall d, j :: 0 <= d < |ts| && 0 <= j < ts[d].count ==> SlotDone(o, r.1, nt.pe32, res, ts[d], j))
          && (forall k :: 0 <= k < |o| && !InIat(nt.pe32, ts, k) ==> r.1[k] == o[k]))
      && var (stop, thunk) := StopsAt(o, nt.pe32, ts, 0);
      Progress(o, r.1, nt.pe32, res, ts, stop, thunk)
  {
    hide StopsAt, Layout, Tables, Descriptors, SlotDone, WellFormed;
    var dir := Directory(nt, IMPORT_DIRECTORY).value;
    var ts := Tables(o, nt.pe32, dir.rva, dir.size, 0);
    assert Progress(o, o, nt.pe32, res, ts, 0, 0);
    DescriptorsEffect(o, o, nt.pe32, res, dir.rva, dir.size, ts, 0);
    forall k | !InIat(nt.pe32, ts, k) ensures !Passed(nt.pe32, ts, |ts|, 0, k) {
    }
  }

  // ---- In bytes -------------------------------------------------------------------------------

  // A thunk is an ordinal, or points two bytes before a name that ends inside the image.
  lemma {:induction false} ThunkValidExactly(img: seq<byte>, pe32: bool, thunk: nat)
    ensures ThunkValid(img, pe32, thunk) <==>
      || thunk >= (if pe32 then 0x8000_0000 else 0x8000_0000_0000_0000)
      || (thunk + 2 < 0x1_0000_0000 && exists k :: thunk + 2 <= k < |img| && img[k] == 0)
  {
    hide CStrValid;
    CStrValidMeans(img, thunk + 2);
  }

  // The answer for a thunk of the DLL whose name starts at `dll`.
  function Wanted(o: seq<byte>, pe32: bool, res: Resolver, dll: nat, thunk: nat): nat
    requires dll <= |o| && ThunkValid(o, pe32, thunk)
  {
    if thunk >= (if pe32 then 0x8000_0000 else 0x8000_0000_0000_0000) then
      var name := res.ordinalName(CStr(o, dll), thunk % 0x1_0000);
      if name.None? then 0 else res.byName(CStr(o, dll), name.value)
    else res.byName(CStr(o, dll), CStr(o, thunk + 2))
  }

  // Word i of an array of 4-byte or 8-byte words; 0 outside the image.
  function WordAt(o: seq<byte>, pe32: bool, off: nat, i: nat): nat {
    if pe32 then if off + 4 * i + 4 <= |o| then Load(o, off + 4 * i, 4) else 0
    else if off + 8 * i + 8 <= |o| then Load(o, off + 8 * i, 8) else 0
  }

  // Where the lookup table of the descriptor at p starts, from its bytes.
  function LookupAt(o: seq<byte>, p: nat): nat
    requires p + 20 <= |o|
  {
    if Load(o, p, 4) != 0 then Load(o, p, 4) else Load(o, p + 16, 4)
  }

  // Thunk j of the descriptor at p and its slot lie in the image, and no thunk up to it is zero.
  predicate ThunkThere(o: seq<byte>, pe32: bool, p: nat, j: nat)
    requires p + 20 <= |o|
  {
    var end := if pe32 then 4 * j + 4 else 8 * j + 8;
    && LookupAt(o, p) + end <= |o| && Load(o, p + 16, 4) + end <= |o|
    && forall i :: 0 <= i <= j ==> WordAt(o, pe32, LookupAt(o, p), i) != 0
  }

  // Descriptor d of the directory at rva, all up to it naming a DLL.
  predicate DescriptorThere(o: seq<byte>, rva: nat, size: nat, d: nat) {
    && 20 * d + 20 <= size && rva + 20 * d + 20 <= |o|
    && forall e :: 0 <= e <= d ==> NamesDll(o, rva, e)
  }

  predicate NamesDll(o: seq<byte>, rva: nat, e: nat) {
    rva + 20 * e + 20 <= |o| && Load(o, rva + 20 * e + 12, 4) != 0
  }

  lemma {:induction false} TableThere(o: seq<byte>, pe32: bool, rva: nat, size: nat, d: nat)
    requires DescriptorThere(o, rva, size, d)
    ensures
      var ts := Tables(o, pe32, rva, size, 0);
      d < |ts| && ts[d] == TableAt(o, pe32, rva + 20 * d)
  {
    hide TableAt, Tables;
    var ts := Tables(o, pe32, rva, size, 0);
    TablesDescribe(o, pe32, rva, size, 0);
    assert |ts| <= d ==> NamesDll(o, rva, |ts|);
    assert d < |ts| ==> Describes(o, pe32, rva, size, 0 + d, ts[d]);
  }

  lemma {:induction false} CountThere(o: seq<byte>, pe32: bool, p: nat, j: nat)
    requires p + 20 <= |o| && ThunkThere(o, pe32, p, j)
    ensures j < TableAt(o, pe32, p).count
  {
    hide Load;
    var t := TableAt(o, pe32, p);
    ThunkCountMeans(o, pe32, t.ilt, t.iat, 0);
    assert t.count <= j ==> WordAt(o, pe32, t.ilt, t.count) != 0;
  }

  // Slot j of the descriptor at p holds the answer for the thunk in its lookup table, cut to the slot,
  // or its old word when there is none.
  predicate Written(o: seq<byte>, now: seq<byte>, pe32: bool, res: Resolver, p: nat, j: nat)
    requires p + 20 <= |o|
  {
    var dll, iat, thunk := Load(o, p + 12, 4), Load(o, p + 16, 4), WordAt(o, pe32, LookupAt(o, p), j);
    && dll <= |o| && ThunkValid(o, pe32, thunk)
    && var answer := Wanted(o, pe32, res, dll, thunk);
    WordAt(now, pe32, iat, j) ==
      if answer == 0 then WordAt(o, pe32, iat, j)
      else answer % if pe32 then 0x1_0000_0000 else 0x1_0000_0000_0000_0000
  }

  lemma {:induction false} DoneIsWritten(o: seq<byte>, now: seq<byte>, pe32: bool, res: Resolver, p: nat, j: nat)
    requires p + 20 <= |o| == |now| && TableOk(o, pe32, TableAt(o, pe32, p)) && j < TableAt(o, pe32, p).count
    requires SlotDone(o, now, pe32, res, TableAt(o, pe32, p), j)
    ensures Written(o, now, pe32, res, p, j)
  {
    hide CStr, ThunkValid, Load, ThunkCount;
    CapacityValues();
    assert ThunkUsable(o, pe32, TableAt(o, pe32, p), j);
    assert CStrValid(o, Load(o, p + 12, 4));
  }

  lemma {:induction false} WellFormedAt(o: seq<byte>, pe32: bool, rva: nat, size: nat, ts: seq<Table>, d: nat)
    requires WellFormed(o, pe32, rva, size, ts, 0) && d < |ts|
    ensures TableOk(o, pe32, ts[d])
  {
    hide TableOk;
  }

  // From the bytes of the import directory: what a successful pass leaves in every slot.
  lemma {:induction false} SlotWritten(o: seq<byte>, nt: NtHeaders, res: Resolver, d: nat, j: nat)
    requires |nt.directories| > 1 && nt.directories[1].size != 0 && Pass1(o, nt, res).0
    requires
      var dir := nt.directories[1];
      && Layout(o, nt.pe32, dir.rva, Tables(o, nt.pe32, dir.rva, dir.size, 0))
      && DescriptorThere(o, dir.rva, dir.size, d) && ThunkThere(o, nt.pe32, dir.rva + 20 * d, j)
    ensures Written(o, Pass1(o, nt, res).1, nt.pe32, res, nt.directories[1].rva + 20 * d, j)
  {
    hide Pass1, Layout, Tables, TableAt, SlotDone, Written, ThunkThere, StopsAt, Progress, InIat, TableOk, WellFormed;
    hide NamesDll;
    var dir := nt.directories[1];
    var ts, p := Tables(o, nt.pe32, dir.rva, dir.size, 0), dir.rva + 20 * d;
    Pass1Starts(o, nt, res);
    Pass1Effect(o, nt, res);
    TableThere(o, nt.pe32, dir.rva, dir.size, d);
    CountThere(o, nt.pe32, p, j);
    WellFormedAt(o, nt.pe32, dir.rva, dir.size, ts, d);
    DoneIsWritten(o, Pass1(o, nt, res).1, nt.pe32, res, p, j);
  }

  lemma {:induction false} Pass1Starts(o: seq<byte>, nt: NtHeaders, res: Resolver)
    requires |nt.directories| > 1 && nt.directories[1].size != 0 && Pass1(o, nt, res).0
    ensures
      var dir := nt.directories[1];
      dir.rva != 0 && dir.rva + dir.size <= |o| && dir.rva + 20 <= |o|
  {
    hide Descriptors;
  }
}
