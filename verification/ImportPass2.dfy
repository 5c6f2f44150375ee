/**
 Import resolution, pass 2 (import_resolve.c, import_flat.c): collect the slots the
 code jumps through, list all imports with what their slots hold now, and patch the
 collected slots by three strategies in turn.

 The theorem: on every image whatever, pass 2 changes no byte, so resolving imports
 is pass 1.
 */
module ImportPass2 {
  import opened Bytes
  import opened Pe
  import opened ImportPass1
  import RipScan

  const MAX_FLAT := 256
  const MAX_TARGETS := 256

  // One import: its lookup value, what its slot held when listed, and the slot.
  datatype Flat = Flat(ilt: nat, resolved: nat, slot: nat)

  // ---- Listing the imports ------------------------------------------------------------

  // A thunk the lister accepts: an ordinal, or an RVA with room for a hint and a byte.
  predicate Listable(imageSize: nat, pe32: bool, thunk: nat) {
    thunk >= OrdinalFlag(pe32) || (thunk < U32 && RangeValid(thunk, 3, imageSize))
  }

  // Every thunk pass 1 accepts is listed; a name thunk that is not has no room for a hint and a byte.
  lemma {:induction false} ListableExactly(img: seq<byte>, pe32: bool, thunk: nat)
    requires |img| < 0x1_0000_0000
    ensures ThunkValid(img, pe32, thunk) ==> Listable(|img|, pe32, thunk)
    ensures thunk < (if pe32 then 0x8000_0000 else 0x8000_0000_0000_0000) ==>
      (Listable(|img|, pe32, thunk) <==> thunk + 3 <= |img|)
  {
  }

  // Thunks i, i+1, ... appended to flat; false means the listing stops altogether.
  // The thunk is read before any bounds check.
  function FlatThunks(img: seq<byte>, pe32: bool, beyond: int -> byte, ilt: nat, iat: nat, i: nat,
          flat: seq<Flat>): (seq<Flat>, bool)
    requires i <= |img|
    decreases |img| - i
  {
    var thunk, w := Peek(img, beyond, ilt + Nth(pe32, i), ThunkSize(pe32)), ThunkSize(pe32);
    if thunk == 0 || |flat| >= MAX_FLAT then (flat, true)
    else if !RangeValid(ilt, Nth(pe32, i + 1), |img|) || !RangeValid(iat, Nth(pe32, i + 1), |img|) then (flat, false)
    else if !Listable(|img|, pe32, thunk) then (flat, false)
    else
      var slot := iat + Nth(pe32, i);
      FlatThunks(img, pe32, beyond, ilt, iat, i + 1, flat + [Flat(thunk, Load(img, slot, w), slot)])
  }

  function FlatDescriptors(img: seq<byte>, pe32: bool, beyond: int -> byte, rva: nat, size: nat, off: nat,
          flat: seq<Flat>): seq<Flat>
    requires rva + off + DESCRIPTOR <= |img|
    decreases |img| - off
  {
    var p, w := rva + off, ThunkSize(pe32);
    if off + DESCRIPTOR > size || NameRva(img, p) == 0 || |flat| >= MAX_FLAT then flat
    else if !RangeValid(NameRva(img, p), 1, |img|) then flat
    else if !RangeValid(LookupTable(img, p), w, |img|) || !RangeValid(FirstThunk(img, p), w, |img|) then flat
    else
      var (flat', more) := FlatThunks(img, pe32, beyond, LookupTable(img, p), FirstThunk(img, p), 0, flat);
      if !more || p + 2 * DESCRIPTOR > |img| then flat'
      else FlatDescriptors(img, pe32, beyond, rva, size, off + DESCRIPTOR, flat')
  }

  function FlatImports(img: seq<byte>, nt: NtHeaders, beyond: int -> byte): seq<Flat> {
    match Directory(nt, IMPORT_DIRECTORY)
    case None => []
    case Some(dir) =>
      if dir.rva == 0 || !RangeValid(dir.rva, dir.size, |img|) || !RangeValid(dir.rva, DESCRIPTOR, |img|) then []
      else FlatDescriptors(img, nt.pe32, beyond, dir.rva, dir.size, 0, [])
  }

  // Each listed value is what the slot holds in this image.
  predicate Current(img: seq<byte>, pe32: bool, flat: seq<Flat>) {
    forall f :: 0 <= f < |flat| ==>
      flat[f].slot + ThunkSize(pe32) <= |img| && flat[f].resolved == Load(img, flat[f].slot, ThunkSize(pe32))
  }

  lemma {:induction false} FlatThunksCurrent(img: seq<byte>, pe32: bool, beyond: int -> byte, ilt: nat, iat: nat,
          i: nat, flat: seq<Flat>)
    requires i <= |img| && Current(img, pe32, flat) && |flat| <= MAX_FLAT
    ensures var r := FlatThunks(img, pe32, beyond, ilt, iat, i, flat).0; Current(img, pe32, r) && |r| <= MAX_FLAT
    decreases |img| - i
  {
    hide Peek, Load, Listable;
    var thunk, w := Peek(img, beyond, ilt + Nth(pe32, i), ThunkSize(pe32)), ThunkSize(pe32);
    var slot := iat + Nth(pe32, i);
    if thunk != 0 && |flat| < MAX_FLAT && ilt + Nth(pe32, i + 1) <= |img| && iat + Nth(pe32, i + 1) <= |img|
      && Listable(|img|, pe32, thunk) {
      FlatThunksCurrent(img, pe32, beyond, ilt, iat, i + 1, flat + [Flat(thunk, Load(img, slot, w), slot)]);
    }
  }

  lemma {:induction false} FlatDescriptorsCurrent(img: seq<byte>, pe32: bool, beyond: int -> byte, rva: nat, size: nat,
          off: nat, flat: seq<Flat>)
    requires rva + off + DESCRIPTOR <= |img| && Current(img, pe32, flat) && |flat| <= MAX_FLAT
    ensures var r := FlatDescriptors(img, pe32, beyond, rva, size, off, flat); Current(img, pe32, r) && |r| <= MAX_FLAT
    decreases |img| - off
  {
    hide Load, FlatThunks, Current;
    var p := rva + off;
    FlatThunksCurrent(img, pe32, beyond, LookupTable(img, p), FirstThunk(img, p), 0, flat);
    var (flat', more) := FlatThunks(img, pe32, beyond, LookupTable(img, p), FirstThunk(img, p), 0, flat);
    if p + 2 * DESCRIPTOR <= |img| {
      FlatDescriptorsCurrent(img, pe32, beyond, rva, size, off + DESCRIPTOR, flat');
    }
  }

  lemma {:induction false} FlatImportsCurrent(img: seq<byte>, nt: NtHeaders, beyond: int -> byte)
    ensures var r := FlatImports(img, nt, beyond); Current(img, nt.pe32, r) && |r| <= 256
  {
    hide FlatDescriptors;
    var dir := Directory(nt, IMPORT_DIRECTORY);
    if dir.Some? && dir.value.rva + DESCRIPTOR <= |img| {
      FlatDescriptorsCurrent(img, nt.pe32, beyond, dir.value.rva, dir.value.size, 0, []);
    }
  }

  method ListThunks(a: array<byte>, pe32: bool, beyond: int -> byte, ilt: nat, iat: nat, flat: array<Flat>, n: nat)
    returns (n': nat, more: bool)
    requires flat.Length == MAX_FLAT && n <= MAX_FLAT
    modifies flat
    ensures n' <= MAX_FLAT && (flat[..n'], more) == FlatThunks(a[..], pe32, beyond, ilt, iat, 0, old(flat[..n]))
  {
    hide Peek, Load, Listable;
    var w, i := ThunkSize(pe32), 0;
    n' := n;
    while Peek(a[..], beyond, ilt + Nth(pe32, i), w) != 0 && n' < MAX_FLAT
      invariant i <= a.Length && n' <= MAX_FLAT
      invariant FlatThunks(a[..], pe32, beyond, ilt, iat, i, flat[..n']) ==
        FlatThunks(a[..], pe32, beyond, ilt, iat, 0, old(flat[..n]))
      decreases a.Length - i
    {
      if !RangeValid(ilt, Nth(pe32, i + 1), a.Length) || !RangeValid(iat, Nth(pe32, i + 1), a.Length) {
        return n', false;
      }
      var thunk, slot := Peek(a[..], beyond, ilt + Nth(pe32, i), w), iat + Nth(pe32, i);
      ghost var listed := flat[..n'];
      flat[n'] := Flat(thunk, Load(a[..], slot, w), slot);
      assert flat[..n'] == listed;
      if !Listable(a.Length, pe32, thunk) { return n', false; }
      n' := n' + 1;
      assert flat[..n'] == listed + [Flat(thunk, Load(a[..], slot, w), slot)];
      i := i + 1;
    }
    return n', true;
  }

  method BuildFlatImportArray(a: array<byte>, nt: NtHeaders, beyond: int -> byte, flat: array<Flat>) returns (n: nat)
    requires flat.Length == MAX_FLAT
    modifies flat
    ensures n <= MAX_FLAT && flat[..n] == FlatImports(a[..], nt, beyond)
  {
    hide FlatThunks, Load;
    n := 0;
    var d := Directory(nt, IMPORT_DIRECTORY);
    if d.None? { return 0; }
    var rva, size := d.value.rva, d.value.size;
    if rva == 0 || !RangeValid(rva, size, a.Length) || !RangeValid(rva, DESCRIPTOR, a.Length) { return 0; }
    var off, w := 0, ThunkSize(nt.pe32);
    assert flat[..n] == [];
    while off + DESCRIPTOR <= size && NameRva(a[..], rva + off) != 0 && n < MAX_FLAT
      invariant rva + off + DESCRIPTOR <= a.Length && n <= MAX_FLAT
      invariant FlatDescriptors(a[..], nt.pe32, beyond, rva, size, off, flat[..n]) ==
        FlatDescriptors(a[..], nt.pe32, beyond, rva, size, 0, [])
      decreases a.Length - off
    {
      var p := rva + off;
      if !RangeValid(NameRva(a[..], p), 1, a.Length) { break; }
      var ilt, iat := LookupTable(a[..], p), FirstThunk(a[..], p);
      if !RangeValid(ilt, w, a.Length) || !RangeValid(iat, w, a.Length) { break; }
      var more;
      n, more := ListThunks(a, nt.pe32, beyond, ilt, iat, flat, n);
      if !more { return n; }
      off := off + DESCRIPTOR;
      if !RangeValid(rva + off, DESCRIPTOR, a.Length) { break; }
    }
  }

  // ---- The three strategies -------------------------------------------------------------

  predicate Overlaps(f: Flat, slot: nat, current: nat) {
    f.slot == slot && f.resolved == current
  }

  predicate MatchesValue(f: Flat, slot: nat, current: nat) {
    f.slot == slot && f.ilt == current && f.resolved != 0
  }

  predicate MatchesSlot(f: Flat, slot: nat) {
    f.slot == slot && f.resolved != 0
  }

  // The first entry from f on that satisfies p.
  function First(flat: seq<Flat>, p: Flat -> bool, f: nat): (r: Option<nat>)
    ensures r.Some? ==> f <= r.value < |flat| && p(flat[r.value]) && forall g :: f <= g < r.value ==> !p(flat[g])
    ensures r.None? ==> forall g :: f <= g < |flat| ==> !p(flat[g])
    decreases |flat| - f
  {
    if f >= |flat| then None else if p(flat[f]) then Some(f) else First(flat, p, f + 1)
  }

  // Strategy 1 leaves the slot alone; strategies 2 and 3 write the listed value to it.
  function PatchSlot(img: seq<byte>, pe32: bool, slot: nat, flat: seq<Flat>): (r: (bool, seq<byte>))
    ensures |r.1| == |img|
  {
    var w := ThunkSize(pe32);
    if slot >= U32 || !RangeValid(slot, w, |img|) then (false, img)
    else
      var current := Load(img, slot, w);
      var same := First(flat, f => Overlaps(f, slot, current), 0);
      var value := First(flat, f => MatchesValue(f, slot, current), 0);
      var place := First(flat, f => MatchesSlot(f, slot), 0);
      if same.Some? then (true, img)
      else if current != 0 && value.Some? then (true, Store(img, slot, w, flat[value.value].resolved))
      else if current != 0 && place.Some? then (true, Store(img, slot, w, flat[place.value].resolved))
      else (false, img)
  }

  // The slots in turn, counting the matches.
  function PatchSlots(img: seq<byte>, pe32: bool, slots: seq<nat>, flat: seq<Flat>): (r: (nat, seq<byte>))
    ensures |r.1| == |img|
    decreases |slots|
  {
    if slots == [] then (0, img)
    else
      var r := PatchSlot(img, pe32, slots[0], flat);
      var rest := PatchSlots(r.1, pe32, slots[1..], flat);
      (rest.0 + if r.0 then 1 else 0, rest.1)
  }

  // A slot listed with its current value is never written: whenever strategy 2 or 3 could
  // fire, strategy 1 already has. The slots that match are exactly the listed ones.
  lemma {:induction false} PatchSlotNothing(img: seq<byte>, pe32: bool, slot: nat, flat: seq<Flat>)
    requires Current(img, pe32, flat)
    ensures PatchSlot(img, pe32, slot, flat).1 == img
    ensures slot < 0x1_0000_0000 && slot + (if pe32 then 4 else 8) <= |img| ==>
      (PatchSlot(img, pe32, slot, flat).0 <==> exists f :: 0 <= f < |flat| && flat[f].slot == slot)
  {
    hide Load, Store;
    if f :| 0 <= f < |flat| && flat[f].slot == slot {
      assert Overlaps(flat[f], slot, flat[f].resolved);
    }
  }

  lemma {:induction false} PatchSlotsNothing(img: seq<byte>, pe32: bool, slots: seq<nat>, flat: seq<Flat>)
    requires Current(img, pe32, flat)
    ensures PatchSlots(img, pe32, slots, flat).1 == img
    decreases |slots|
  {
    hide PatchSlot;
    if slots != [] {
      PatchSlotNothing(img, pe32, slots[0], flat);
      PatchSlotsNothing(img, pe32, slots[1..], flat);
    }
  }

  method StrategyResolvedOverlap(current: nat, slot: nat, flat: array<Flat>, n: nat) returns (hit: bool)
    requires n <= flat.Length
    ensures hit <==> exists f :: 0 <= f < n && flat[f].slot == slot && flat[f].resolved == current
  {
    for f := 0 to n
      invariant forall g :: 0 <= g < f ==> !Overlaps(flat[g], slot, current)
    {
      if Overlaps(flat[f], slot, current) { return true; }
    }
    return false;
  }

  // Write the first listed value of this slot whose lookup value is the current one.
  method StrategyIltValueMatch(a: array<byte>, slot: nat, current: nat, w: nat, flat: array<Flat>, n: nat)
    returns (hit: bool)
    requires n <= flat.Length && slot + w <= a.Length
    modifies a
    ensures !hit ==>
      && a[..] == old(a[..])
      && (current == 0 || forall f :: 0 <= f < n && flat[f].slot == slot && flat[f].ilt == current ==>
          flat[f].resolved == 0)
    ensures hit ==> current != 0 && exists f ::
      && 0 <= f < n && flat[f].slot == slot && flat[f].ilt == current && flat[f].resolved != 0
      && (forall g :: 0 <= g < f && flat[g].slot == slot && flat[g].ilt == current ==> flat[g].resolved == 0)
      && a[..] == Store(old(a[..]), slot, w, flat[f].resolved)
  {
    hide Store;
    if current == 0 { return false; }
    for f := 0 to n
      invariant forall g :: 0 <= g < f ==> !MatchesValue(flat[g], slot, current)
      invariant a[..] == old(a[..])
    {
      if MatchesValue(flat[f], slot, current) {
        StoreWord(a, slot, w, flat[f].resolved);
        return true;
      }
    }
    return false;
  }

  // Write the first non-null value listed for this slot.
  method StrategyIltOffsetMatch(a: array<byte>, slot: nat, current: nat, w: nat, flat: array<Flat>, n: nat)
    returns (hit: bool)
    requires n <= flat.Length && slot + w <= a.Length
    modifies a
    ensures !hit ==>
      && a[..] == old(a[..])
      && (current == 0 || forall f :: 0 <= f < n && flat[f].slot == slot ==> flat[f].resolved == 0)
    ensures hit ==> current != 0 && exists f ::
      && 0 <= f < n && flat[f].slot == slot && flat[f].resolved != 0
      && (forall g :: 0 <= g < f && flat[g].slot == slot ==> flat[g].resolved == 0)
      && a[..] == Store(old(a[..]), slot, w, flat[f].resolved)
  {
    hide Store;
    if current == 0 { return false; }
    for f := 0 to n
      invariant forall g :: 0 <= g < f ==> !MatchesSlot(flat[g], slot)
      invariant a[..] == old(a[..])
    {
      if MatchesSlot(flat[f], slot) {
        StoreWord(a, slot, w, flat[f].resolved);
        return true;
      }
    }
    return false;
  }

  method PatchThunkTarget(a: array<byte>, pe32: bool, slot: nat, flat: array<Flat>, n: nat) returns (hit: bool)
    requires n <= flat.Length
    modifies a
    ensures (hit, a[..]) == PatchSlot(old(a[..]), pe32, slot, flat[..n])
  {
    hide Load, Store, First;
    var w := ThunkSize(pe32);
    if slot >= U32 || !RangeValid(slot, w, a.Length) { return false; }
    var current := Load(a[..], slot, w);
    hit := StrategyResolvedOverlap(current, slot, flat, n);
    if !hit {
      hit := StrategyIltValueMatch(a, slot, current, w, flat, n);
      if !hit {
        hit := StrategyIltOffsetMatch(a, slot, current, w, flat, n);
      }
    }
  }

  method PatchThunkTargets(a: array<byte>, pe32: bool, targets: array<nat>, numTargets: nat, flat: array<Flat>, n: nat)
    returns (matched: nat)
    requires numTargets <= targets.Length && n <= flat.Length
    modifies a
    ensures (matched, a[..]) == PatchSlots(old(a[..]), pe32, targets[..numTargets], flat[..n])
  {
    hide PatchSlot;
    matched := 0;
    ghost var slots := targets[..numTargets];
    for t := 0 to numTargets
      invariant
        var rest := PatchSlots(a[..], pe32, slots[t..], flat[..n]);
        (matched + rest.0, rest.1) == PatchSlots(old(a[..]), pe32, slots, flat[..n])
    {
      assert slots[t..][1..] == slots[t + 1..];
      var hit := PatchThunkTarget(a, pe32, targets[t], flat, n);
      if hit { matched := matched + 1; }
    }
  }

  // ---- Pass 2 as a whole ------------------------------------------------------------------

  ghost function Pass2(img: seq<byte>, nt: NtHeaders, beyond: int -> byte, base: nat): seq<byte> {
    if nt.pe32 then img
    else
      match Directory(nt, IMPORT_DIRECTORY)
      case None => img
      case Some(dir) =>
        if dir.size == 0 then img
        else
          var slots := RipScan.Targets(img, nt.pe32, ImageSections(img, beyond, nt), base, MAX_TARGETS);
          PatchSlots(img, nt.pe32, slots, FlatImports(img, nt, beyond)).1
  }

  // Pass 2 never changes a byte, whatever the image holds and wherever the limits cut.
  lemma {:induction false} Pass2Nothing(img: seq<byte>, nt: NtHeaders, beyond: int -> byte, base: nat)
    ensures Pass2(img, nt, beyond, base) == img
  {
    hide RipScan.Targets, FlatImports, PatchSlots, ImageSections;
    FlatImportsCurrent(img, nt, beyond);
    var slots := RipScan.Targets(img, nt.pe32, ImageSections(img, beyond, nt), base, MAX_TARGETS);
    PatchSlotsNothing(img, nt.pe32, slots, FlatImports(img, nt, beyond));
  }

  method ResolveImportPass2(a: array<byte>, nt: NtHeaders, beyond: int -> byte, base: nat)
    modifies a
    ensures a[..] == Pass2(old(a[..]), nt, beyond, base)
  {
    hide FlatImports, PatchSlots, RipScan.Targets, ImageSections;
    if nt.pe32 { return; }
    var d := Directory(nt, IMPORT_DIRECTORY);
    if d.None? || d.value.size == 0 { return; }
    var targets := new nat[MAX_TARGETS];
    var numTargets := RipScan.ScanRipRelativeJumps(a, nt.pe32, ImageSections(a[..], beyond, nt), base, targets,
      MAX_TARGETS);
    if numTargets == 0 {
      NoSlots(a[..], nt.pe32, FlatImports(a[..], nt, beyond));
      return;
    }
    var flat := new Flat[MAX_FLAT](_ => Flat(0, 0, 0));
    var n := BuildFlatImportArray(a, nt, beyond, flat);
    var matched := PatchThunkTargets(a, nt.pe32, targets, numTargets, flat, n);
  }

  lemma {:induction false} NoSlots(img: seq<byte>, pe32: bool, flat: seq<Flat>)
    ensures PatchSlots(img, pe32, [], flat) == (0, img)
  {
  }

  // Resolving imports: both passes run, and the result is pass 1's.
  method ResolveImports(a: array<byte>, nt: NtHeaders, res: Resolver, beyond: int -> byte, base: nat) returns (ok: bool)
    modifies a
    ensures (ok, a[..]) == Pass1(old(a[..]), nt, res)
  {
    hide Pass1, Pass2;
    ok := ResolveImportPass1(a, nt, res);
    if !ok { return false; }
    Pass2Nothing(a[..], nt, beyond, base);
    ResolveImportPass2(a, nt, beyond, base);
  }
}
