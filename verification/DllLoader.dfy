/**
 Loading a DLL and its dependencies (dll_loader.c, import_resolve.c): map, register,
 link, recurse into the imports, and undo all of it on any failure.

 The file system, the path search and the list of built-in libraries are a fixed
 `World`; the kernel's answers, the success of the byte-level work on an image and
 the answers of DllMain are arbitrary.
 */
module DllLoader {
  import opened Bytes
  import opened Pe
  import opened CStrings
  import opened LoadPlan
  import ML = ModuleList
  import PL = PebLdr
  import DB = DllBases

  const PATH_SIZE := 512

  // The file the search finds for this name, if any, has that name, up to case.
  predicate Keeps(world: World, name: cstring) {
    world.find(name).Some? ==> SameName(ModuleName(world.find(name).value), name)
  }

  predicate ListKept(world: World, list: seq<Descriptor>) {
    forall k :: 0 <= k < |list| && list[k].Dependency? ==> Keeps(world, list[k].name)
  }

  // So it is for every name these imports ask for ...
  predicate NamesKept(world: World, imports: Imports) {
    imports.Descriptors? ==> ListKept(world, imports.list)
  }

  // ... and for the imports of every file.
  ghost predicate ImportsKept(world: World) {
    forall path :: world.file(path).Some? ==> NamesKept(world, world.file(path).value.imports)
  }

  // ---- Mappings ---------------------------------------------------------------------------------

  function Bases(slots: seq<ML.Slot>): set<nat> {
    set i | 0 <= i < |slots| && ML.Used(slots[i]) :: slots[i].base
  }

  // The main program has no header page of its own (page 0).
  function Pages(slots: seq<ML.Slot>): set<nat> {
    set i | 0 <= i < |slots| && ML.Used(slots[i]) && slots[i].page != 0 :: slots[i].page
  }

  predicate OwnPage(s: ML.Slot) {
    ML.Used(s) && s.page != 0
  }

  // No two modules share an image or a header page.
  predicate Distinct(slots: seq<ML.Slot>) {
    && (forall i, j :: 0 <= i < j < |slots| && ML.Used(slots[i]) && ML.Used(slots[j]) ==>
        slots[i].base != slots[j].base)
    && (forall i, j :: 0 <= i < j < |slots| && OwnPage(slots[i]) && OwnPage(slots[j]) ==>
        slots[i].page != slots[j].page)
    && (forall i, j :: 0 <= i < |slots| && 0 <= j < |slots| && ML.Used(slots[i]) && OwnPage(slots[j]) ==>
        slots[i].base != slots[j].page)
  }

  predicate RegionsApart(mapped: map<nat, nat>) {
    forall a, b :: a in mapped && b in mapped && a != b ==> Apart(a, mapped[a], b, mapped[b])
  }

  predicate OwnRegions(s: ML.Slot, mapped: map<nat, nat>, unowned: set<nat>) {
    && s.base in mapped && mapped[s.base] == s.size && s.base !in unowned
    && (s.page != 0 ==> s.page in mapped && mapped[s.page] == PAGE && s.page !in unowned)
  }

  // What is mapped is exactly each module's image and header page, and what no module owns.
  predicate Accounted(slots: seq<ML.Slot>, mapped: map<nat, nat>, unowned: set<nat>) {
    && Distinct(slots) && RegionsApart(mapped) && 0 !in mapped
    && (forall i :: 0 <= i < |slots| && ML.Used(slots[i]) ==> OwnRegions(slots[i], mapped, unowned))
    && mapped.Keys == Bases(slots) + Pages(slots) + unowned
  }

  function PageOf(s: ML.Slot): set<nat> {
    if s.page == 0 then {} else {s.page}
  }

  // The mappings with a module's regions added.
  function WithRegions(mapped: map<nat, nat>, s: ML.Slot): map<nat, nat> {
    if s.page == 0 then mapped[s.base := s.size] else mapped[s.base := s.size][s.page := PAGE]
  }

  lemma {:induction false} RegisterAccounted(slots: seq<ML.Slot>, mapped: map<nat, nat>, unowned: set<nat>, i: nat,
          s: ML.Slot)
    requires Accounted(slots, mapped, unowned) && i < |slots| && !ML.Used(slots[i]) && ML.Used(s)
    requires s.base !in mapped && s.page !in mapped && s.base != s.page
    requires RegionsApart(WithRegions(mapped, s))
    ensures Accounted(slots[i := s], WithRegions(mapped, s), unowned)
  {
    hide RegionsApart, Bases, Pages;
    AddOwned(slots, i, s);
  }

  lemma {:induction false} AddOwned(slots: seq<ML.Slot>, i: nat, s: ML.Slot)
    requires i < |slots| && !ML.Used(slots[i]) && ML.Used(s)
    ensures Bases(slots[i := s]) == Bases(slots) + {s.base} && Pages(slots[i := s]) == Pages(slots) + PageOf(s)
  {
    var slots' := slots[i := s];
    assert forall j :: 0 <= j < |slots| && j != i ==> slots'[j] == slots[j];
    assert slots'[i] == s;
  }

  lemma {:induction false} DropOwned(slots: seq<ML.Slot>, i: nat)
    requires i < |slots| && ML.Used(slots[i]) && Distinct(slots)
    ensures Bases(slots[i := ML.ZEROED]) == Bases(slots) - {slots[i].base}
    ensures Pages(slots[i := ML.ZEROED]) == Pages(slots) - {slots[i].page}
    ensures slots[i].page != 0 ==> slots[i].page !in Bases(slots)
    ensures slots[i].base !in Pages(slots)
  {
    var slots' := slots[i := ML.ZEROED];
    assert forall j :: 0 <= j < |slots| && j != i ==> slots'[j] == slots[j];
  }

  // Unmapping the image alone leaves the header page mapped with no owner.
  lemma {:induction false} FreeAccounted(slots: seq<ML.Slot>, mapped: map<nat, nat>, unowned: set<nat>, i: nat)
    requires Accounted(slots, mapped, unowned) && i < |slots| && ML.Used(slots[i])
    ensures Accounted(slots[i := ML.ZEROED], mapped - {slots[i].base}, unowned + PageOf(slots[i]))
    ensures slots[i].page != 0 ==> slots[i].page in mapped - {slots[i].base}
  {
    hide Bases, Pages, ML.Used;
    DropOwned(slots, i);
    PageIn(slots, i);
    DropRegions(slots, mapped, unowned, i, {slots[i].base}, unowned + PageOf(slots[i]));
  }

  lemma {:induction false} UnregisterAccounted(slots: seq<ML.Slot>, mapped: map<nat, nat>, unowned: set<nat>, i: nat)
    requires Accounted(slots, mapped, unowned) && i < |slots| && ML.Used(slots[i])
    ensures Accounted(slots[i := ML.ZEROED], mapped - {slots[i].base, slots[i].page}, unowned)
  {
    hide Bases, Pages, ML.Used;
    DropOwned(slots, i);
    PageIn(slots, i);
    DropRegions(slots, mapped, unowned, i, {slots[i].base, slots[i].page}, unowned);
  }

  lemma {:induction false} PageIn(slots: seq<ML.Slot>, i: nat)
    requires i < |slots| && ML.Used(slots[i])
    ensures slots[i].page != 0 ==> slots[i].page in Pages(slots)
    ensures 0 !in Pages(slots)
  {
  }

  // The other modules keep their regions.
  lemma {:induction false} DropRegions(slots: seq<ML.Slot>, mapped: map<nat, nat>, unowned: set<nat>, i: nat,
          gone: set<nat>, left: set<nat>)
    requires Accounted(slots, mapped, unowned) && i < |slots| && ML.Used(slots[i])
    requires gone <= {slots[i].base, slots[i].page} && left <= unowned + {slots[i].page}
    ensures
      var slots', mapped' := slots[i := ML.ZEROED], mapped - gone;
      && Distinct(slots') && RegionsApart(mapped') && 0 !in mapped'
      && forall j :: 0 <= j < |slots'| && ML.Used(slots'[j]) ==> OwnRegions(slots'[j], mapped', left)
  {
    hide Bases, Pages;
    var slots' := slots[i := ML.ZEROED];
    forall j | 0 <= j < |slots'| && ML.Used(slots'[j]) ensures OwnRegions(slots'[j], mapped - gone, left) {
      assert j != i && slots'[j] == slots[j];
      assert slots[j].base != slots[i].base && slots[j].base != 0;
    }
  }

  // ---- What every load keeps ---------------------------------------------------------------------------

  // Only registered modules are linked, and their entries say where they are.
  predicate Listed(slots: seq<ML.Slot>, entries: seq<PL.Entry>, order: seq<int>) {
    && |slots| == |entries| == ML.MAX_MODULES
    && (forall k :: 0 <= k < |order| ==> 0 <= order[k] < |slots| && ML.Used(slots[order[k]]))
    && (forall i :: 0 <= i < |slots| && ML.Used(slots[i]) ==>
        entries[i].dllBase == slots[i].base && entries[i].size == slots[i].size)
  }

  // While a module is loading, its slot and all lower ones stay used.
  predicate Reached(slots: seq<ML.Slot>, loading: set<nat>) {
    forall i :: i in loading ==> i < |slots| && forall j :: 0 <= j <= i ==> ML.Used(slots[j])
  }

  // Every module of `was` is still there, untouched.
  predicate Kept(was: seq<ML.Slot>, now: seq<ML.Slot>) {
    |was| == |now| && forall i :: 0 <= i < |was| && ML.Used(was[i]) ==> now[i] == was[i]
  }

  // A dependency is met: built in, or registered under its own name or the name of the file
  // the search finds for it.
  predicate Met(world: World, slots: seq<ML.Slot>, name: cstring) {
    || world.builtin(name).Some?
    || (exists i :: 0 <= i < |slots| && Supplies(world, slots[i], name))
  }

  predicate Supplies(world: World, s: ML.Slot, name: cstring) {
    && ML.Used(s)
    && (SameName(s.name, name) || (world.find(name).Some? && s.name == ModuleName(world.find(name).value)))
  }

  // Slot i holds a module that was not there before and supplies the name.
  predicate NewModule(world: World, was: seq<ML.Slot>, now: seq<ML.Slot>, i: nat, name: cstring, base: nat) {
    i < |was| == |now| && !ML.Used(was[i]) && Supplies(world, now[i], name) && now[i].base == base
  }

  // The request misses the lookup and is not built in, and the file the search finds for it is
  // registered already.
  predicate Doubles(world: World, slots: seq<ML.Slot>, count: int, name: cstring)
    requires count <= |slots|
  {
    && ML.ByNameSafe(slots, count, name).None? && world.builtin(name).None?
    && world.find(name).Some? && !ML.Fresh(slots, ModuleName(world.find(name).value))
  }

  // All dependencies are met, and the directory is one the loader accepts.
  predicate ImportsMet(world: World, slots: seq<ML.Slot>, imports: Imports) {
    match imports
    case NoImports => true
    case OutOfBounds => false
    case Descriptors(list, terminated) =>
      terminated && forall d :: 0 <= d < |list| ==> list[d].Dependency? && Met(world, slots, list[d].name)
  }

  lemma {:induction false} KeptSame(slots: seq<ML.Slot>)
    ensures Kept(slots, slots)
  {
  }

  lemma {:induction false} KeptAdded(was: seq<ML.Slot>, added: seq<ML.Slot>, i: nat)
    requires i < |was| == |added| && !ML.Used(was[i]) && added == was[i := added[i]]
    ensures Kept(was, added)
  {
  }

  // Modules that were there before one was admitted outlive its import step and its rollback.
  lemma {:induction false} AdmittedKept(was: seq<ML.Slot>, added: seq<ML.Slot>, now: seq<ML.Slot>, i: nat)
    requires i < |was| && !ML.Used(was[i]) && Kept(was, added) && i < |added| && ML.Used(added[i]) && Kept(added, now)
    ensures |now| == |was| && now[i] == added[i] && Kept(was, now) && Kept(was, now[i := ML.ZEROED])
  {
    forall j | 0 <= j < |was| && ML.Used(was[j]) ensures now[j] == was[j] && j != i {
      assert added[j] == was[j];
    }
  }

  lemma {:induction false} MetKept(world: World, was: seq<ML.Slot>, now: seq<ML.Slot>, name: cstring)
    requires Kept(was, now) && Met(world, was, name)
    ensures Met(world, now, name)
  {
    hide Supplies;
    if i :| 0 <= i < |was| && Supplies(world, was[i], name) {
      SuppliesUsed(world, was[i], name);
      assert Supplies(world, now[i], name);
    }
  }

  lemma {:induction false} SuppliesUsed(world: World, s: ML.Slot, name: cstring)
    requires Supplies(world, s, name)
    ensures ML.Used(s)
  {
  }

  // So lookups and removal, which stop at the count, always reach a loading module.
  lemma {:induction false} LoadingReachable(slots: seq<ML.Slot>, count: int, loading: set<nat>, i: nat)
    requires ML.Consistent(slots, count) && Reached(slots, loading) && i in loading && count <= |slots|
    ensures i < count && ML.Used(slots[i]) && ML.ByName(slots, count, slots[i].name).Some?
  {
    hide ML.UsedCount, ML.FirstSlot;
    ML.LowerUsedCount(slots, i);
  }

  lemma {:induction false} UnregisterKeeps(slots: seq<ML.Slot>, entries: seq<PL.Entry>, order: seq<int>,
          loading: set<nat>, i: nat)
    requires Listed(slots, entries, order) && Reached(slots, loading) && i in loading && i < |slots|
    requires forall j :: j in loading ==> j <= i
    ensures Listed(slots[i := ML.ZEROED], entries[i := PL.CLEARED], PL.Without(order, i))
    ensures Reached(slots[i := ML.ZEROED], loading - {i})
    ensures PL.Without([], i) == []
  {
    var order', slots' := PL.Without(order, i), slots[i := ML.ZEROED];
    forall k | 0 <= k < |order'| ensures 0 <= order'[k] < |slots| && ML.Used(slots'[order'[k]]) {
      assert order'[k] in order';
      var h :| 0 <= h < |order| && order[h] == order'[k];
    }
  }

  // ---- Loading once ------------------------------------------------------------------------------------

  predicate Added(was: seq<ML.Slot>, now: seq<ML.Slot>, j: nat) {
    j < |was| && j < |now| && ML.Used(now[j]) && !ML.Used(was[j])
  }

  // Every module added since has a name that no other module has.
  predicate AddsFresh(was: seq<ML.Slot>, now: seq<ML.Slot>) {
    |was| == |now| &&
    forall j, k :: 0 <= j < |now| && 0 <= k < |now| && j != k && Added(was, now, j) && ML.Used(now[k]) ==>
      !SameName(now[j].name, now[k].name)
  }

  lemma {:induction false} FileKept(world: World, path: cstring)
    requires ImportsKept(world) && world.file(path).Some?
    ensures NamesKept(world, world.file(path).value.imports)
  {
  }

  lemma {:induction false} AddsNothing(slots: seq<ML.Slot>)
    ensures AddsFresh(slots, slots)
  {
  }

  lemma {:induction false} AddsTrans(was: seq<ML.Slot>, mid: seq<ML.Slot>, now: seq<ML.Slot>)
    requires AddsFresh(was, mid) && Kept(mid, now) && AddsFresh(mid, now)
    ensures AddsFresh(was, now)
  {
    forall j, k | 0 <= j < |now| && 0 <= k < |now| && j != k && Added(was, now, j) && ML.Used(now[k])
      ensures !SameName(now[j].name, now[k].name)
    {
      if Added(mid, now, j) {
      } else if Added(mid, now, k) {
        assert !SameName(now[k].name, now[j].name);
      } else {
        assert Added(was, mid, j) && ML.Used(mid[k]);
      }
    }
  }

  // One registration adds a name that is nobody else's exactly when the name is fresh.
  lemma {:induction false} AddsOne(slots: seq<ML.Slot>, i: nat, s: ML.Slot)
    requires i < |slots| && !ML.Used(slots[i]) && ML.Used(s)
    ensures AddsFresh(slots, slots[i := s]) <==> ML.Fresh(slots, s.name)
  {
    var now := slots[i := s];
    assert Added(slots, now, i);
    forall k | 0 <= k < |slots| && ML.Used(slots[k]) ensures now[k] == slots[k] && k != i {
    }
  }

  // What was added on top of a module stays fresh when that module goes again.
  lemma {:induction false} AddsDropped(was: seq<ML.Slot>, added: seq<ML.Slot>, now: seq<ML.Slot>, i: nat)
    requires i < |was| == |added| && !ML.Used(was[i]) && added == was[i := added[i]] && AddsFresh(added, now)
    ensures AddsFresh(was, now[i := ML.ZEROED])
  {
    var left := now[i := ML.ZEROED];
    forall j, k | 0 <= j < |left| && 0 <= k < |left| && j != k && Added(was, left, j) && ML.Used(left[k])
      ensures !SameName(left[j].name, left[k].name)
    {
      assert Added(added, now, j);
    }
  }

  // When it stays, the whole load adds fresh names exactly when its own was fresh.
  lemma {:induction false} AddsLoaded(was: seq<ML.Slot>, added: seq<ML.Slot>, now: seq<ML.Slot>, i: nat)
    requires i < |was| == |added| && !ML.Used(was[i]) && ML.Used(added[i]) && added == was[i := added[i]]
    requires Kept(added, now) && AddsFresh(added, now)
    ensures AddsFresh(was, now) <==> ML.Fresh(was, added[i].name)
  {
    AddsOne(was, i, added[i]);
    if ML.Fresh(was, added[i].name) {
      AddsTrans(was, added, now);
    } else {
      var k :| 0 <= k < |was| && ML.Used(was[k]) && SameName(was[k].name, added[i].name);
      assert now[k] == added[k] == was[k] && now[i] == added[i] && Added(was, now, i);
    }
  }

  // Distinct names stay distinct exactly when the names added are fresh.
  lemma {:induction false} OnceAdds(was: seq<ML.Slot>, now: seq<ML.Slot>)
    requires ML.Once(was) && Kept(was, now)
    ensures ML.Once(now) <==> AddsFresh(was, now)
  {
    if AddsFresh(was, now) {
      forall i, j | 0 <= i < j < |now| && ML.Used(now[i]) && ML.Used(now[j])
        ensures !SameName(now[i].name, now[j].name)
      {
        assert Added(was, now, i) || ML.Used(was[i]);
        assert Added(was, now, j) ==> !SameName(now[j].name, now[i].name);
      }
    }
  }

  lemma {:induction false} OnceDrop(slots: seq<ML.Slot>, i: nat)
    requires ML.Once(slots) && i < |slots|
    ensures ML.Once(slots[i := ML.ZEROED])
  {
    var slots' := slots[i := ML.ZEROED];
    assert forall j :: 0 <= j < |slots| && j != i ==> slots'[j] == slots[j];
  }

  // A name the lookup misses in a packed registry, and the search keeps, gives a file that is
  // not loaded.
  lemma {:induction false} MissedFile(world: World, slots: seq<ML.Slot>, count: int, name: cstring, path: cstring)
    requires ML.Packed(slots, count) && count <= |slots| && ML.ByName(slots, count, name).None?
    requires Keeps(world, name) && world.find(name) == Some(path)
    ensures ML.Fresh(slots, ModuleName(path))
  {
    hide ML.ByName, ML.Packed, ModuleName;
    ML.MissedIsFresh(slots, count, name);
  }

  const FOO: cstring := ['f' as int, 'o' as int, 'o' as int]
  const FOO_DLL: cstring := ['f' as int, 'o' as int, 'o' as int, '.' as int, 'd' as int, 'l' as int, 'l' as int]

  // A packed registry with distinct names that holds foo.dll: neither lookup finds "foo", and
  // registering the file foo.dll that the search finds for it gives two modules of one name.
  lemma {:induction false} ExtensionReloads(slots: seq<ML.Slot>, first: ML.Slot, second: ML.Slot)
    requires |slots| == ML.MAX_MODULES && ML.Used(first) && ML.Used(second) && first.name == second.name == FOO_DLL
    requires slots[0] == first && forall i :: 1 <= i < |slots| ==> slots[i] == ML.ZEROED
    ensures ML.Packed(slots, 1) && ML.Once(slots)
    ensures ML.ByNameSafe(slots, 1, FOO).None? && ML.ByName(slots, 1, FOO).None?
    ensures ModuleName(FOO_DLL) == FOO_DLL && ML.FirstFree(slots) == Some(1) && !ML.Once(slots[1 := second])
  {
    hide ML.FirstSlot;
    assert |Folded(FOO)| != |Folded(FOO_DLL)|;
    assert slots[0].name == FOO_DLL;
    NoSlash(FOO_DLL);
    ML.PackedAfterAdd(slots, 1, second);
    var now := slots[1 := second];
    assert now[0] == first && now[1] == second;
  }

  lemma {:induction false} NoSlash(file: cstring)
    requires '/' as int !in file
    ensures BaseName(file) == file
  {
    if file != [] {
      var n := |file| - 1;
      assert file[n] in file;
      NoSlash(file[..n]);
      assert file == file[..n] + [file[n]];
    }
  }

  lemma {:induction false} AfterSlash(dir: cstring, file: cstring)
    requires '/' as int !in file
    ensures 0 !in dir + ['/' as int] + file && BaseName(dir + ['/' as int] + file) == file
  {
    var path := dir + ['/' as int] + file;
    if file == [] {
      assert path[|path| - 1] == '/' as int;
    } else {
      var n := |file| - 1;
      assert file[n] in file;
      AfterSlash(dir, file[..n]);
      assert path[..|path| - 1] == dir + ['/' as int] + file[..n];
      assert file == file[..n] + [file[n]];
    }
  }

  // ---- The path search ---------------------------------------------------------------------------------

  const UPPER_SIZE := 128

  function Upper(s: cstring): (r: cstring)
    ensures |r| == |s|
  {
    if s == [] then []
    else [if 'a' as int <= s[0] <= 'z' as int then s[0] - 32 else s[0]] + Upper(s[1..])
  }

  lemma {:induction false} UpperFolds(s: cstring)
    ensures Folded(Upper(s)) == Folded(s)
  {
    if s != [] {
      UpperFolds(s[1..]);
      assert Upper(s)[1..] == Upper(s[1..]);
    }
  }

  // Only lower-case letters change, each to its capital.
  lemma {:induction false} UpperExactly(s: cstring, i: nat)
    requires i < |s|
    ensures Upper(s)[i] == if 0x61 <= s[i] <= 0x7A then s[i] - 0x20 else s[i]
  {
    if i > 0 { UpperExactly(s[1..], i - 1); }
  }

  const DLL: cstring := ['.' as int, 'd' as int, 'l' as int, 'l' as int]

  // The file is one the search tries in a directory for this candidate.
  predicate Tried(candidate: cstring, file: cstring) {
    file == candidate || file == Upper(Truncated(candidate, UPPER_SIZE))
  }

  // The file is one the search tries for a name without separators: the name itself, and with
  // ".dll" added when it has no extension.
  predicate Candidate(name: cstring, file: cstring) {
    Tried(name, file) || ('.' as int !in name && |name| + 4 < UPPER_SIZE && Tried(name + DLL, file))
  }

  // A short name is kept exactly when the file found is the name itself, not the extended one;
  // a name with an extension always is.
  lemma {:induction false} SearchKeeps(world: World, name: cstring, dir: cstring, file: cstring)
    requires '/' as int !in name && |name| < UPPER_SIZE && Candidate(name, file)
    requires world.find(name) == Some(dir + ['/' as int] + file)
    ensures Keeps(world, name) <==> |file| == |name|
    ensures '.' as int in name ==> Keeps(world, name)
  {
    UpperFolds(name);
    UpperFolds(name + DLL);
    UpperNoSlash(name);
    UpperNoSlash(name + DLL);
    AfterSlash(dir, file);
    assert |file| == |name| ==> SameName(file, name);
    assert SameName(file, name) ==> |Folded(file)| == |Folded(name)|;
  }

  lemma {:induction false} UpperNoSlash(s: cstring)
    requires '/' as int !in s
    ensures '/' as int !in Upper(s)
  {
    if s != [] {
      assert s[0] in s;
      UpperNoSlash(s[1..]);
    }
  }

  // Unless something was refused since, the outcome and the registered names are as planned.
  predicate Planned(was: nat, now: nat, ok: bool, slots: seq<ML.Slot>, plan: (bool, Roster)) {
    was <= now && (was == now ==> (ok, Names(slots)) == plan)
  }

  lemma {:induction false} Unloadable(world: World, is32: bool, slots: seq<ML.Slot>, path: cstring, depth: nat,
          was: nat, now: nat)
    requires was <= now && (was == now ==> !Mappable(world, is32, path) || ML.FirstFree(slots).None?)
    ensures Planned(was, now, false, slots, PlanLoad(world, is32, Names(slots), path, depth))
  {
    FreeIsVacant(slots);
  }

  lemma {:induction false} Loadable(world: World, is32: bool, slots: seq<ML.Slot>, path: cstring, depth: nat, i: nat,
          s: ML.Slot)
    requires Mappable(world, is32, path) && ML.FirstFree(slots) == Some(i) && i < |slots|
    requires ML.Used(s) && s.name == ModuleName(path)
    ensures
      var imports := PlanImports(world, is32, Names(slots[i := s]), world.file(path).value.imports, depth + 1);
      i < |imports.1| && PlanLoad(world, is32, Names(slots), path, depth) == Rolled(imports, i)
  {
    hide ML.FirstFree, ModuleName, PlanImports;
    FreeIsVacant(slots);
    NamesSet(slots, i, s);
  }

  lemma {:induction false} RolledBack(was: nat, now: nat, ok: bool, slots: seq<ML.Slot>, plan: (bool, Roster), i: nat)
    requires Planned(was, now, ok, slots, plan) && i < |slots| && i < |plan.1|
    ensures ok ==> Planned(was, now, true, slots, Rolled(plan, i))
    ensures !ok ==> Planned(was, now, false, slots[i := ML.ZEROED], Rolled(plan, i))
    ensures Planned(was, now + 1, false, slots[i := ML.ZEROED], Rolled(plan, i))
  {
    NamesSet(slots, i, ML.ZEROED);
  }

  lemma {:induction false} PlannedSince(was: nat, mid: nat, now: nat, ok: bool, slots: seq<ML.Slot>,
          plan: (bool, Roster))
    requires was <= mid && Planned(mid, now, ok, slots, plan)
    ensures Planned(was, now, ok, slots, plan)
  {
  }

  // What the plan for one dependency is, by the registry's own lookup.
  lemma {:induction false} DependencyPlan(world: World, is32: bool, slots: seq<ML.Slot>, count: int, name: cstring,
          depth: nat)
    requires ML.Consistent(slots, count) && count <= |slots| && depth < MAX_IMPORT_DEPTH
    ensures PlanDependency(world, is32, Names(slots), name, depth) ==
      if ML.ByName(slots, count, name).Some? || world.builtin(name).Some? then (true, Names(slots))
      else if world.find(name).None? then (false, Names(slots))
      else PlanLoad(world, is32, Names(slots), world.find(name).value, depth + 1)
  {
    hide ML.Consistent, ML.ByName, Knows, PlanLoad;
    FoundIsKnown(slots, count, name);
  }

  // One more entry of the list is done.
  lemma {:induction false} ListStep(world: World, is32: bool, slots: seq<ML.Slot>, slots': seq<ML.Slot>,
          list: seq<Descriptor>, d: nat, depth: nat, mid: nat, now: nat, ok: bool)
    requires d < |list| && list[d].Dependency? && depth < MAX_IMPORT_DEPTH
    requires Planned(mid, now, ok, slots', PlanDependency(world, is32, Names(slots), list[d].name, depth))
    ensures
      var plan := PlanList(world, is32, Names(slots), list[d..], depth);
      && mid <= now && (!ok ==> Planned(mid, now, false, slots', plan))
      && (ok && mid == now ==> PlanList(world, is32, Names(slots'), list[d + 1..], depth) == plan)
  {
    hide PlanDependency, Names;
    assert list[d..][0] == list[d] && list[d..][1..] == list[d + 1..];
  }

  lemma {:induction false} ListEnds(world: World, is32: bool, slots: seq<ML.Slot>, list: seq<Descriptor>, d: nat,
          depth: nat)
    requires d <= |list| && depth < MAX_IMPORT_DEPTH && (d < |list| ==> list[d].Unterminated?)
    ensures PlanList(world, is32, Names(slots), list[d..], depth) == (d == |list|, Names(slots))
  {
    hide Names;
    assert d < |list| ==> list[d..][0] == list[d];
  }

  lemma {:induction false} KeptTrans(a: seq<ML.Slot>, b: seq<ML.Slot>, c: seq<ML.Slot>)
    requires Kept(a, b) && Kept(b, c)
    ensures Kept(a, c)
  {
  }

  // Every import is found or built in.
  predicate Supplied(world: World, slots: seq<ML.Slot>, count: int, list: seq<Descriptor>)
    requires count <= |slots|
  {
    forall k :: 0 <= k < |list| ==>
      list[k].Dependency? && (ML.ByName(slots, count, list[k].name).Some? || world.builtin(list[k].name).Some?)
  }

  lemma {:induction false} KeptAt(world: World, list: seq<Descriptor>, d: nat)
    requires ListKept(world, list) && d < |list| && list[d].Dependency?
    ensures Keeps(world, list[d].name)
  {
  }

  lemma {:induction false} SuppliedAt(world: World, slots: seq<ML.Slot>, count: int, list: seq<Descriptor>, d: nat)
    requires count <= |slots| && Supplied(world, slots, count, list) && d < |list|
    ensures list[d].Dependency?
    ensures ML.ByName(slots, count, list[d].name).Some? || world.builtin(list[d].name).Some?
  {
  }

  // A list of imports being worked through: where it started, and whether the search keeps the names.
  datatype Task = Task(world: World, is32: bool, list: seq<Descriptor>, depth: nat, was: seq<ML.Slot>, refused: nat,
    kept: bool)
  {
    predicate Valid() {
      depth < MAX_IMPORT_DEPTH
    }

    function Plan(): (bool, Roster)
      requires Valid()
    {
      PlanList(world, is32, Names(was), list, depth)
    }
  }

  // The first d imports are met, and the rest of the plan is what is still to do.
  predicate Progress(t: Task, d: nat, slots: seq<ML.Slot>, count: int, refusals: nat)
    requires t.Valid()
  {
    && d <= |t.list| && Kept(t.was, slots) && t.refused <= refusals
    && (forall k :: 0 <= k < d ==> t.list[k].Dependency? && Met(t.world, slots, t.list[k].name))
    && (t.kept ==> ML.Packed(slots, count) && AddsFresh(t.was, slots))
    && (refusals == t.refused ==> PlanList(t.world, t.is32, Names(slots), t.list[d..], t.depth) == t.Plan())
  }

  predicate Finished(t: Task, ok: bool, slots: seq<ML.Slot>, count: int, refusals: nat)
    requires t.Valid()
  {
    && Kept(t.was, slots) && Planned(t.refused, refusals, ok, slots, t.Plan())
    && (ok ==> forall k :: 0 <= k < |t.list| ==> t.list[k].Dependency? && Met(t.world, slots, t.list[k].name))
    && (t.kept ==> AddsFresh(t.was, slots) && (ok ==> ML.Packed(slots, count)))
  }

  lemma {:induction false} NoProgress(t: Task, count: int)
    requires t.Valid() && (t.kept ==> ML.Packed(t.was, count))
    ensures Progress(t, 0, t.was, count, t.refused)
  {
    hide PlanList, ML.Packed, AddsFresh;
    KeptSame(t.was);
    AddsNothing(t.was);
    assert t.list[0..] == t.list;
  }

  lemma {:induction false} ProgressEnds(t: Task, d: nat, slots: seq<ML.Slot>, count: int, refusals: nat)
    requires t.Valid() && Progress(t, d, slots, count, refusals) && (d < |t.list| ==> t.list[d].Unterminated?)
    ensures Finished(t, d == |t.list|, slots, count, refusals)
  {
    hide PlanList, ML.Packed, AddsFresh, Kept, Met, Names;
    ListEnds(t.world, t.is32, slots, t.list, d, t.depth);
  }

  lemma {:induction false} ProgressPacked(t: Task, d: nat, slots: seq<ML.Slot>, count: int, refusals: nat)
    requires t.Valid() && Progress(t, d, slots, count, refusals) && t.kept
    ensures ML.Packed(slots, count)
  {
  }

  lemma {:induction false} ProgressStep(t: Task, d: nat, slots: seq<ML.Slot>, count: int, mid: nat,
          slots': seq<ML.Slot>, count': int, now: nat, ok: bool)
    requires t.Valid() && Progress(t, d, slots, count, mid) && d < |t.list| && t.list[d].Dependency?
    requires Kept(slots, slots') && (ok ==> Met(t.world, slots', t.list[d].name))
    requires t.kept ==> AddsFresh(slots, slots') && (ok ==> ML.Packed(slots', count'))
    requires Planned(mid, now, ok, slots', PlanDependency(t.world, t.is32, Names(slots), t.list[d].name, t.depth))
    ensures ok ==> Progress(t, d + 1, slots', count', now)
    ensures !ok ==> Finished(t, false, slots', count', now)
  {
    hide PlanList, PlanDependency, ML.Packed, AddsFresh, Kept, Met, Names;
    ListStep(t.world, t.is32, slots, slots', t.list, d, t.depth, mid, now, ok);
    KeptTrans(t.was, slots, slots');
    if t.kept { AddsTrans(t.was, slots, slots'); }
    forall k | 0 <= k < d ensures Met(t.world, slots', t.list[k].name) {
      MetKept(t.world, slots, slots', t.list[k].name);
    }
  }

  class Loader {
    const registry: ML.Registry
    const ldr: PL.LdrData
    const ldrReady: bool
    const wordSize: nat
    var imageBase: nat
    var is32: bool
    var pePath: cstring
    var cursor: nat
    var mapped: map<nat, nat>
    // Regions that no module owns, modules being loaded, and the windows reserved so far
    // with the actions that reserved them.
    ghost var unowned: set<nat>
    ghost var loading: set<nat>
    ghost var reserved: seq<DB.Grant>
    ghost var schedule: seq<DB.Action>
    // How often the kernel, DllMain or the resolution of imports has said no.
    ghost var refusals: nat

    ghost function Repr(): set<object> {
      {this, registry, registry.slots} + ldr.Repr()
    }

    // Everything but the mappings.
    ghost predicate Steady()
      reads Repr()
    {
      && {registry, registry.slots, this} !! ldr.Repr() && DB.Reserved(cursor, reserved, schedule, wordSize)
      && registry.Valid() && ldr.Valid() && |pePath| < PATH_SIZE && (!ldrReady ==> ldr.Order() == [])
      && Listed(registry.slots[..], ldr.entries[..], ldr.Order())
      && Reached(registry.slots[..], loading)
    }

    ghost predicate Valid()
      reads Repr()
    {
      Steady() && Accounted(registry.slots[..], mapped, unowned)
    }

    // Every module is in reach of the lookups ...
    ghost predicate Packed()
      reads registry, registry.slots
    {
      ML.Packed(registry.slots[..], registry.count)
    }

    // ... and no name is registered twice.
    ghost predicate Single()
      reads registry, registry.slots
    {
      Packed() && ML.Once(registry.slots[..])
    }

    lemma {:induction false} SteadyFacts()
      requires Steady()
      ensures DB.Reserved(cursor, reserved, schedule, wordSize) && wordSize > 0 && |pePath| < PATH_SIZE
      ensures registry.slots.Length == ML.MAX_MODULES && 0 <= registry.count <= ML.MAX_MODULES
      ensures !ldrReady ==> ldr.Order() == []
    {
      hide DB.Run, ML.Consistent;
      ML.CountInRange(registry.slots[..], registry.count);
    }

    // Mapping, the saved globals and further reservations do not matter to it.
    twostate lemma {:induction false} SteadyKept()
      requires old(Steady()) && unchanged(registry) && unchanged(registry.slots) && unchanged(ldr.Repr())
      requires loading == old(loading) && |pePath| < PATH_SIZE && DB.Reserved(cursor, reserved, schedule, wordSize)
      ensures Steady()
    {
      hide ML.Consistent, PL.LdrData.Valid, Listed, Reached, DB.Reserved;
      assert registry.slots[..] == old(registry.slots[..]) && ldr.entries[..] == old(ldr.entries[..]);
    }

    // The cursor has moved by the windows added since, and in the address range no two overlap.
    twostate predicate Advanced()
      reads `cursor, `reserved
    {
      && DB.Extends(old(cursor), old(reserved), cursor, reserved, wordSize)
      && (DB.DLL_ALLOC_BASE + DB.Total(reserved) <= wordSize ==>
          DB.WindowsApart(reserved) && (DB.Coverable(reserved) ==> DB.ImagesApart(reserved)))
    }

    twostate lemma {:induction false} AdvancedSince()
      requires old(DB.Reserved(cursor, reserved, schedule, wordSize))
      requires DB.Reserved(cursor, reserved, schedule, wordSize)
      requires old(reserved) <= reserved
      ensures Advanced()
    {
      hide DB.Reserved, DB.Total, DB.WindowsApart, DB.ImagesApart, DB.Coverable, DB.Extends;
      DB.ReservedExtends(old(cursor), old(reserved), old(schedule), cursor, reserved, schedule, wordSize);
      DB.ReservedApart(cursor, reserved, schedule, wordSize);
    }

    // Modules, link order, mappings, reservations and refusals.
    ghost function Picture(): (seq<ML.Slot>, int, seq<int>, map<nat, nat>, (nat, seq<DB.Grant>, nat))
      reads Repr()
      ensures Picture().0 == registry.slots[..] && Picture().1 == registry.count
    {
      (registry.slots[..], registry.count, ldr.Order(), mapped, (cursor, reserved, refusals))
    }

    constructor (ldrReady: bool, wordSize: nat)
      requires DB.WordSize(wordSize)
      ensures Valid() && fresh(Repr()) && loading == {} && unowned == {} && Single() && registry.count == 0
      ensures this.ldrReady == ldrReady && this.wordSize == wordSize
    {
      registry := new ML.Registry();
      ldr := new PL.LdrData();
      this.ldrReady, this.wordSize := ldrReady, wordSize;
      imageBase, is32, pePath, cursor, mapped := 0, false, [], DB.DLL_ALLOC_BASE, map[];
      unowned, loading, reserved, schedule, refusals := {}, {}, [], [], 0;
      DB.ReservedStart(wordSize);
      new;
      hide PL.LdrData.Valid, DB.Reserved, ML.Consistent, Listed, Reached, Accounted, ML.Packed, ML.Once;
      NothingYet(registry.slots[..], ldr.entries[..]);
    }

    // An anonymous mapping: the kernel refuses, or picks any address apart from what is mapped.
    method Mmap(size: nat) returns (r: Option<nat>)
      modifies this`mapped, this`refusals
      ensures refusals == old(refusals) + if r.None? then 1 else 0
      ensures r.None? ==> mapped == old(mapped)
      ensures r.Some? ==> r.value != 0 && r.value !in old(mapped) && mapped == old(mapped)[r.value := size]
      ensures RegionsApart(old(mapped)) ==> RegionsApart(mapped)
    {
      var at: nat := *;
      if at == 0 || at in mapped || !(forall a :: a in mapped ==> Apart(a, mapped[a], at, size)) {
        refusals := refusals + 1;
        return None;
      }
      mapped := mapped[at := size];
      return Some(at);
    }

    method Munmap(at: nat)
      modifies this`mapped
      ensures mapped == old(mapped) - {at} && (old(Steady()) ==> Steady())
    {
      hide ML.Consistent, PL.LdrData.Valid, Listed, Reached, DB.Reserved;
      mapped := mapped - {at};
    }

    // map_image_at, seen from here: it overwrites the three globals and either leaves a new
    // image mapped or nothing.
    method MapImage(path: cstring, world: World) returns (r: Option<(nat, Dll)>)
      modifies this`imageBase, this`is32, this`pePath, this`mapped, this`refusals
      ensures pePath == Truncated(path, 512) && old(refusals) <= refusals
      ensures refusals == old(refusals) ==> (r.Some? <==> HasImage(world, path))
      ensures r.None? ==> mapped == old(mapped)
      ensures r.Some? ==>
        && HasImage(world, path) && imageBase == r.value.0 && is32 == r.value.1.pe32
        && world.file(path) == Some(r.value.1) && r.value.0 != 0
        && r.value.0 !in old(mapped) && mapped == old(mapped)[r.value.0 := r.value.1.size]
      ensures RegionsApart(old(mapped)) ==> RegionsApart(mapped)
    {
      hide RegionsApart, Steady;
      pePath := Truncated(path, PATH_SIZE);
      var file := world.file(path);
      if file.None? { return None; }
      is32 := file.value.pe32;
      if file.value.size == 0 { return None; }
      var base := Mmap(file.value.size);
      if base.None? { return None; }
      var filled: bool := *;
      if !filled {
        refusals := refusals + 1;
        Unmapped(old(mapped), base.value, file.value.size);
        Munmap(base.value);
        return None;
      }
      imageBase := base.value;
      return Some((base.value, file.value));
    }

    // The main program enters an empty registry, without a header page of its own.
    method RegisterMain(base: nat, size: nat, ghost before: map<nat, nat>)
      requires Steady() && ldrReady && loading == {} && registry.count == 0
      requires Accounted(registry.slots[..], before, unowned)
      requires base != 0 && base !in before && mapped == before[base := size] && RegionsApart(mapped)
      modifies registry, registry.slots, ldr.Repr()
      ensures Valid() && Single() && ldr.Order() == [0] && |old(registry.slots[..])| == ML.MAX_MODULES
      ensures registry.slots[..] == old(registry.slots[..])[0 := ML.Slot(base, MAIN_NAME, size, 0, 1)]
    {
      hide Accounted, RegionsApart, ML.Consistent, PL.LdrData.Valid, Listed, Reached, DB.Reserved, ML.FirstSlot;
      hide ML.Packed, ML.Once;
      ghost var slots, entries, order := registry.slots[..], ldr.entries[..], ldr.Order();
      ghost var s := ML.Slot(base, MAIN_NAME, size, 0, 1);
      SteadyFacts();
      PL.Facts(ldr);
      NothingRegistered(slots, entries, order);
      AccountedApart(slots, before, unowned);
      RegisterKeeps(slots, entries, order, {}, 0, s, PL.Entry(base, size, true));
      RegisterAccounted(slots, before, unowned, 0, s);
      FirstAlone(slots, s);
      var added := registry.AddModule(base, MAIN_NAME, size, 0);
      ldr.InitEntry(0, base, size);
      ldr.AddModule(0);
      assert ldr.entries[..] == entries[0 := PL.Entry(base, size, true)];
      StopLoading(registry.slots[..], {}, 0);
    }

    // The start of a process: the main program is mapped and, when there are loader lists,
    // registered first. The globals keep its values.
    method Start(path: cstring, world: World) returns (r: Option<(nat, Dll)>)
      requires Valid() && loading == {} && registry.count == 0
      modifies Repr()
      ensures Valid() && loading == {} && Single() && cursor == old(cursor) && reserved == old(reserved)
      ensures old(refusals) <= refusals && (refusals == old(refusals) ==> (r.Some? <==> HasImage(world, path)))
      ensures r.None? ==>
        && registry.slots[..] == old(registry.slots[..]) && mapped == old(mapped) && unowned == old(unowned)
        && ldr.Order() == []
      ensures r.Some? ==>
        var (base, dll) := r.value;
        && world.file(path) == Some(dll) && imageBase == base && is32 == dll.pe32
        && pePath == Truncated(path, PATH_SIZE)
        && base !in old(mapped) && mapped == old(mapped)[base := dll.size]
        && ldr.Order() == (if ldrReady then [0] else []) && unowned == old(unowned) + (if ldrReady then {} else {base})
        && |old(registry.slots[..])| == ML.MAX_MODULES
        && registry.slots[..] ==
           if ldrReady then old(registry.slots[..])[0 := ML.Slot(base, MAIN_NAME, dll.size, 0, 1)]
           else old(registry.slots[..])
    {
      hide Steady, Accounted, RegionsApart, DB.Reserved, ML.Packed, ML.Once;
      ghost var before := mapped;
      SteadyFacts();
      EmptyRegistry();
      AccountedApart(registry.slots[..], mapped, unowned);
      r := MapImage(path, world);
      SteadyKept();
      if r.None? { return; }
      var (base, dll) := r.value;
      if ldrReady {
        RegisterMain(base, dll.size, before);
      } else {
        UnownedAccounted(registry.slots[..], before, unowned, base, dll.size);
        unowned := unowned + {base};
        SteadyKept();
      }
    }

    lemma {:induction false} EmptyRegistry()
      requires Steady() && registry.count == 0
      ensures ldr.Order() == [] && Single()
    {
      hide ML.Consistent, PL.LdrData.Valid, Listed, Reached, DB.Reserved, ML.Packed, ML.Once;
      NothingRegistered(registry.slots[..], ldr.entries[..], ldr.Order());
    }

    method Unlink(i: nat)
      requires ldr.Valid() && i < ML.MAX_MODULES && (i in ldr.Order() ==> ldrReady)
      modifies ldr.Repr()
      ensures ldr.Valid() && ldr.Order() == PL.Without(old(ldr.Order()), i)
      ensures ldr.entries[..] == old(ldr.entries[..])[i := PL.CLEARED]
    {
      hide PL.Without, PL.LdrData.Valid;
      PL.Facts(ldr);
      if ldrReady && ldr.entries[i].linked {
        ldr.RemoveModule(i);
      } else {
        PL.WithoutAbsent(ldr.Order(), i);
      }
      ldr.ClearEntry(i);
    }

    // Out of the lists and out of the registry.
    method Deregister(i: nat)
      requires Steady() && i in loading && i < ML.MAX_MODULES && forall j :: j in loading ==> j <= i
      modifies registry, registry.slots, ldr.Repr(), this`loading
      ensures Steady() && loading == old(loading) - {i}
      ensures |old(registry.slots[..])| == ML.MAX_MODULES && ML.Used(old(registry.slots[i]))
      ensures registry.slots[..] == old(registry.slots[..])[i := ML.ZEROED]
      ensures ldr.Order() == PL.Without(old(ldr.Order()), i)
    {
      hide PL.Without, ML.Consistent, PL.LdrData.Valid, Listed, Reached, DB.Reserved;
      PL.Facts(ldr);
      ML.CountInRange(registry.slots[..], registry.count);
      UnregisterKeeps(registry.slots[..], ldr.entries[..], ldr.Order(), loading, i);
      LoadingReachable(registry.slots[..], registry.count, loading, i);
      Unlink(i);
      registry.RemoveModule(i);
      loading := loading - {i};
    }

    // Undo a registration: out of the lists and the registry, both mappings gone.
    method Unload(i: nat)
      requires Valid() && i in loading && i < ML.MAX_MODULES && forall j :: j in loading ==> j <= i
      modifies registry, registry.slots, ldr.Repr(), this`loading, this`mapped
      ensures Valid() && loading == old(loading) - {i}
      ensures registry.slots[..] == old(registry.slots[..])[i := ML.ZEROED]
      ensures ldr.Order() == PL.Without(old(ldr.Order()), i)
      ensures mapped == old(mapped) - {old(registry.slots[i]).base, old(registry.slots[i]).page}
    {
      hide Steady, Accounted, PL.Without;
      SteadyFacts();
      ghost var slots := registry.slots[..];
      var base, page := registry.slots[i].base, registry.slots[i].page;
      Deregister(i);
      UnregisterAccounted(slots, mapped, unowned, i);
      Munmap(page);
      Munmap(base);
      assert mapped == old(mapped) - {base, page};
    }

    // Reserve a base and map the image. The globals the mapper overwrites are put back whatever
    // happens. The window reserved starts at the rounded cursor, and takes one page, or the
    // image's rounded size once it is mapped.
    method Reserve(path: cstring, world: World) returns (r: Option<(nat, Dll)>)
      requires |pePath| < PATH_SIZE && DB.Reserved(cursor, reserved, schedule, wordSize)
      modifies this`imageBase, this`is32, this`pePath, this`mapped, this`cursor, this`reserved, this`schedule,
        this`refusals
      ensures imageBase == old(imageBase) && is32 == old(is32) && pePath == old(pePath)
      ensures DB.Reserved(cursor, reserved, schedule, wordSize) && wordSize > 0 && old(refusals) <= refusals
      ensures refusals == old(refusals) ==> (r.Some? <==> HasImage(world, path))
      ensures reserved == old(reserved) + [DB.Settled(DB.RoundUp(old(cursor), wordSize), SizeOf(r))]
      ensures r.None? ==> mapped == old(mapped)
      ensures r.Some? ==>
        && HasImage(world, path) && world.file(path) == Some(r.value.1) && r.value.0 != 0
        && r.value.0 !in old(mapped) && mapped == old(mapped)[r.value.0 := r.value.1.size]
      ensures RegionsApart(old(mapped)) ==> RegionsApart(mapped)
    {
      hide RegionsApart, DB.RoundUp, DB.Advance, DB.RoundedSize, DB.Reserved;
      WordSizePositive(cursor, reserved, schedule, wordSize);
      var savedBase, savedIs32, savedPath := imageBase, is32, Truncated(pePath, PATH_SIZE);
      cursor := DB.Advance(DB.RoundUp(cursor, wordSize), PAGE, wordSize);
      r := MapImage(path, world);
      imageBase, is32, pePath := savedBase, savedIs32, Truncated(savedPath, PATH_SIZE);
      if r.Some? {
        var rounded := DB.RoundedSize(r.value.1.size);
        if rounded > PAGE { cursor := DB.Advance(cursor, rounded - PAGE, wordSize); }
      }
      Settle(old(cursor), SizeOf(r));
    }

    // Reserve, map the image and a page for its headers, and check its type.
    method Prepare(path: cstring, world: World) returns (r: Option<(nat, nat, Dll)>)
      requires |pePath| < PATH_SIZE && RegionsApart(mapped) && DB.Reserved(cursor, reserved, schedule, wordSize)
      modifies this`imageBase, this`is32, this`pePath, this`mapped, this`cursor, this`reserved, this`schedule,
        this`refusals
      ensures imageBase == old(imageBase) && is32 == old(is32) && pePath == old(pePath)
      ensures DB.Reserved(cursor, reserved, schedule, wordSize) && Advanced() && old(refusals) <= refusals
      ensures refusals == old(refusals) ==> (r.Some? <==> Mappable(world, is32, path))
      ensures old(reserved) <= reserved && |reserved| == |old(reserved)| + 1
      ensures
        var last := reserved[|reserved| - 1];
        && last.Settled? && wordSize > 0 && last.base == DB.RoundUp(old(cursor), wordSize)
        && (r.Some? ==> last.size == Some(r.value.2.size))
      ensures r.None? ==> mapped == old(mapped)
      ensures r.Some? ==>
        var (base, page, dll) := r.value;
        && world.file(path) == Some(dll) && Mappable(world, is32, path) && base != 0 && page != 0 && base != page
        && base !in old(mapped) && page !in old(mapped)
        && mapped == old(mapped)[base := dll.size][page := PAGE] && RegionsApart(mapped)
    {
      hide RegionsApart, DB.RoundUp, DB.Reserved, Steady, Advanced;
      ghost var before := mapped;
      var image := Reserve(path, world);
      AdvancedSince();
      if image.None? { return None; }
      var (base, dll) := image.value;
      var page := Mmap(PAGE);
      if page.None? {
        Unmapped(before, base, dll.size);
        Munmap(base);
        return None;
      }
      if dll.pe32 != is32 {
        BothUnmapped(before, base, dll.size, page.value, PAGE);
        Munmap(page.value);
        Munmap(base);
        return None;
      }
      return Some((base, page.value, dll));
    }

    // Note the window the cursor has just been moved past.
    ghost method Settle(was: nat, size: Option<u32>)
      requires DB.Reserved(was, reserved, schedule, wordSize) && wordSize > 0
      requires
        var swapped := DB.Advance(DB.RoundUp(was, wordSize), PAGE, wordSize);
        cursor == if DB.Charge(size) > PAGE then DB.Advance(swapped, DB.Charge(size) - PAGE, wordSize) else swapped
      modifies this`reserved, this`schedule
      ensures DB.Reserved(cursor, reserved, schedule, wordSize)
      ensures reserved == old(reserved) + [DB.Settled(DB.RoundUp(was, wordSize), size)]
    {
      hide DB.Reserved, DB.Advance, DB.RoundUp, DB.Charge;
      DB.ChargePaged(size);
      DB.ReserveNext(was, reserved, schedule, size, wordSize);
      DB.NoRemainder(DB.RoundUp(was, wordSize), wordSize);
      reserved := reserved + [DB.Settled(DB.RoundUp(was, wordSize), size)];
      schedule := schedule + [DB.Load(0)] + [DB.Swap(0)] + [DB.Finish(0, size)];
    }

    // Enter a mapped image in the registry and the loader lists.
    method Register(base: nat, page: nat, dll: Dll, path: cstring, ghost before: map<nat, nat>) returns (r: Option<nat>)
      requires Steady() && Accounted(registry.slots[..], before, unowned)
      requires base != 0 && page != 0 && base !in before && page !in before && base != page
      requires mapped == before[base := dll.size][page := PAGE] && RegionsApart(mapped)
      modifies registry, registry.slots, ldr.Repr(), this`loading
      ensures r.None? ==>
        && Steady() && registry.slots[..] == old(registry.slots[..]) && registry.count == old(registry.count)
        && ldr.Order() == old(ldr.Order()) && loading == old(loading)
      ensures r.Some? ==>
        && Valid() && r.value < ML.MAX_MODULES && !ML.Used(old(registry.slots[..])[r.value])
        && registry.slots[..] == old(registry.slots[..])[r.value := ML.Slot(base, ModuleName(path), dll.size, page, 1)]
        && r.value !in old(ldr.Order())
        && ldr.Order() == (if ldrReady then old(ldr.Order()) + [r.value] else old(ldr.Order()))
        && r.value !in old(loading) && loading == old(loading) + {r.value} && forall j :: j in old(loading) ==>
            j < r.value
      ensures r == ML.FirstFree(old(registry.slots[..])) && (r.Some? ==> registry.count == old(registry.count) + 1)
    {
      hide Accounted, RegionsApart, ML.Consistent, PL.LdrData.Valid, Listed, Reached, ML.FirstSlot, BaseName;
      hide DB.Reserved;
      PL.Facts(ldr);
      ML.CountInRange(registry.slots[..], registry.count);
      ghost var slots, entries, order := registry.slots[..], ldr.entries[..], ldr.Order();
      r := registry.AddModule(base, BaseName(path), dll.size, page);
      if r.None? { return; }
      var i := r.value;
      RegisterKeeps(slots, entries, order, loading, i, registry.slots[i], PL.Entry(base, dll.size, ldrReady));
      RegisterAccounted(slots, before, unowned, i, registry.slots[i]);
      ldr.InitEntry(i, base, dll.size);
      if ldrReady { ldr.AddModule(i); }
      loading := loading + {i};
      assert ldr.entries[..] == entries[i := PL.Entry(base, dll.size, ldrReady)];
    }

    // Everything before the imports: nothing has changed, or one new module is loading. Either
    // way one more window is reserved.
    method Admit(path: cstring, world: World) returns (r: Option<(nat, Dll)>)
      requires Valid()
      modifies Repr()
      ensures Valid() && unowned == old(unowned) && old(reserved) <= reserved && |reserved| == |old(reserved)| + 1
      ensures imageBase == old(imageBase) && is32 == old(is32) && pePath == old(pePath)
      ensures r.None? ==>
        && registry.slots[..] == old(registry.slots[..]) && registry.count == old(registry.count)
        && ldr.Order() == old(ldr.Order()) && mapped == old(mapped) && loading == old(loading)
      ensures r.Some? ==>
        var (i, dll) := r.value;
        && world.file(path) == Some(dll) && Mappable(world, is32, path) && reserved[|reserved| - 1].Settled?
        && reserved[|reserved| - 1].size == Some(dll.size)
        && i < |old(registry.slots[..])| == ML.MAX_MODULES && !ML.Used(old(registry.slots[..])[i])
        && ML.Used(registry.slots[i]) && registry.slots[..] == old(registry.slots[..])[i := registry.slots[i]]
        && registry.slots[i].name == ModuleName(path)
        && i !in old(ldr.Order()) && ldr.Order() == (if ldrReady then old(ldr.Order()) + [i] else old(ldr.Order()))
        && i !in old(loading) && loading == old(loading) + {i} && forall j :: j in old(loading) ==> j < i
      ensures old(refusals) <= refusals
      ensures refusals == old(refusals) ==>
        (r.Some? <==> Mappable(world, is32, path) && ML.FirstFree(old(registry.slots[..])).Some?)
      ensures r.Some? ==> ML.FirstFree(old(registry.slots[..])) == Some(r.value.0)
      ensures r.Some? && old(Packed()) ==> Packed()
      ensures r.Some? && old(Single()) ==> (Single() <==> ML.Fresh(old(registry.slots[..]), ModuleName(path)))
    {
      hide Steady, Accounted, RegionsApart, BaseName, DB.Reserved, DB.RoundUp, Advanced, ML.Fresh, ML.Packed, ML.Once;
      hide ML.FirstFree;
      SteadyFacts();
      ghost var before, slots, count := mapped, registry.slots[..], registry.count;
      AccountedApart(registry.slots[..], mapped, unowned);
      var image := Prepare(path, world);
      SteadyKept();
      if image.None? { return None; }
      var (base, page, dll) := image.value;
      var slot := Register(base, page, dll, path, before);
      if slot.Some? { StaysSingle(slots, count, slot.value, registry.slots[slot.value]); }
      if slot.None? {
        BothUnmapped(before, base, dll.size, page, PAGE);
        Munmap(page);
        Munmap(base);
        return None;
      }
      return Some((slot.value, dll));
    }

    // Load a DLL and, recursively, what it imports. `created` is the slot number and contents
    // this call registered, if it got that far.
    method LoadDll(path: cstring, depth: nat, world: World)
      returns (r: Option<nat>, ghost created: Option<(nat, ML.Slot)>)
      requires Valid()
      modifies Repr()
      ensures Valid() && loading == old(loading) && unowned == old(unowned)
      ensures Advanced() && old(reserved) <= reserved
      ensures imageBase == old(imageBase) && is32 == old(is32) && pePath == old(pePath)
      ensures Kept(old(registry.slots[..]), registry.slots[..]) && old(ldr.Order()) <= ldr.Order()
      ensures created.None? ==>
        && r.None? && registry.slots[..] == old(registry.slots[..]) && registry.count == old(registry.count)
        && ldr.Order() == old(ldr.Order()) && mapped == old(mapped)
      ensures created.Some? ==> created.value.0 < ML.MAX_MODULES && !ML.Used(old(registry.slots[..])[created.value.0])
      ensures r.Some? ==>
        && r.value < registry.slots.Length && created == Some((r.value, registry.slots[..][r.value]))
        && registry.slots[..][r.value].name == ModuleName(path) && (r.value in ldr.Order() <==> ldrReady)
        && ML.Used(registry.slots[..][r.value]) && world.file(path).Some?
        && ImportsMet(world, registry.slots[..], world.file(path).value.imports)
      ensures r.None? && created.Some? ==>
        var (i, s) := created.value;
        && i < registry.slots.Length && !ML.Used(registry.slots[..][i]) && i !in ldr.Order()
        && s.base !in mapped && s.page !in mapped
      ensures old(Packed()) && ImportsKept(world) ==>
        && (r.Some? ==> Packed())
        && (AddsFresh(old(registry.slots[..]), registry.slots[..]) <==>
            r.None? || ML.Fresh(old(registry.slots[..]), ModuleName(path)))
      ensures Planned(old(refusals), refusals, r.Some?, registry.slots[..],
                PlanLoad(world, is32, Names(old(registry.slots[..])), path, depth))
      decreases Fuel(depth), 3
    {
      hide Steady, Accounted, BaseName, DB.Reserved, ML.Fresh, Packed, AddsFresh, ImportsKept, ImportsMet, Advanced;
      hide Kept, Planned, PlanLoad, PlanImports, Rolled, ML.FirstFree, Mappable;
      ghost var order, slots := ldr.Order(), registry.slots[..];
      SteadyFacts();
      KeptSame(slots);
      AddsNothing(slots);
      r, created := None, None;
      var admitted := Admit(path, world);
      SteadyFacts();
      if admitted.None? {
        AdvancedSince();
        Unloadable(world, is32, slots, path, depth, old(refusals), refusals);
        return;
      }
      var (i, dll) := admitted.value;
      created := Some((i, registry.slots[i]));
      KeptAdded(slots, registry.slots[..], i);
      Loadable(world, is32, slots, path, depth, i, registry.slots[i]);
      ghost var before := refusals;
      if ImportsKept(world) { FileKept(world, path); }
      assert ldrReady ==> ldr.Order()[|order|] == i;
      var ok := Complete(i, dll, depth, world, slots, order);
      SteadyFacts();
      AdvancedSince();
      assert loading == old(loading);
      PlannedSince(old(refusals), before, refusals, ok, registry.slots[..],
        PlanLoad(world, is32, Names(slots), path, depth));
      if ok { r := Some(i); }
    }

    // The rest of a load: the imports, DllMain, and on failure the rollback. `was` and `order`
    // are the modules from before this one.
    method Complete(i: nat, dll: Dll, depth: nat, world: World, ghost was: seq<ML.Slot>, ghost order: seq<int>)
      returns (ok: bool)
      requires Valid() && i in loading && i < ML.MAX_MODULES && i < registry.slots.Length
      requires forall j :: j in loading ==> j <= i
      requires Kept(was, registry.slots[..]) && i < |was| && !ML.Used(was[i]) && ML.Used(registry.slots[i])
      requires registry.slots[..] == was[i := registry.slots[..][i]]
      requires order <= ldr.Order() && i !in order
      modifies Repr()
      ensures Valid() && loading == old(loading) - {i} && unowned == old(unowned) && old(reserved) <= reserved
      ensures imageBase == old(imageBase) && is32 == old(is32) && pePath == old(pePath)
      ensures Kept(was, registry.slots[..]) && order <= ldr.Order() && i < registry.slots.Length
      ensures ok ==> old(ldr.Order()) <= ldr.Order() && registry.slots[..][i] == old(registry.slots[..])[i]
      ensures ok ==> ImportsMet(world, registry.slots[..], dll.imports)
      ensures !ok ==>
        var s := old(registry.slots[..])[i];
        !ML.Used(registry.slots[..][i]) && i !in ldr.Order() && s.base !in mapped && s.page !in mapped
      ensures old(Packed()) && NamesKept(world, dll.imports) && ImportsKept(world) ==>
        && (ok ==> Packed())
        && (AddsFresh(was, registry.slots[..]) <==> !ok || ML.Fresh(was, old(registry.slots[..])[i].name))
      ensures
        var plan := PlanImports(world, is32, Names(old(registry.slots[..])), dll.imports, depth + 1);
        i < |plan.1| && Planned(old(refusals), refusals, ok, registry.slots[..], Rolled(plan, i))
      decreases Fuel(depth), 2
    {
      hide Steady, Accounted, PL.Without, DB.Reserved, ML.Packed, ML.Fresh, AddsFresh, NamesKept, ImportsKept;
      hide ImportsMet, Advanced, Kept, Planned, PlanImports, Rolled, Names;
      ghost var slots := registry.slots[..];
      ok := ResolveModuleImports(i, dll.imports, depth + 1, world);
      SteadyFacts();
      hide Valid;
      AdmittedKept(was, slots, registry.slots[..], i);
      if AddsFresh(slots, registry.slots[..]) {
        AddsDropped(was, slots, registry.slots[..], i);
        AddsLoaded(was, slots, registry.slots[..], i);
      }
      ghost var plan := PlanImports(world, is32, Names(slots), dll.imports, depth + 1);
      RolledBack(old(refusals), refusals, ok, registry.slots[..], plan, i);
      PL.WithoutPrefix(ldr.Order(), i, order);
      ok := Conclude(i, ok, dll.pe32);
    }

    // DllMain of a PE32 DLL whose imports are resolved, and the rollback when anything failed.
    method Conclude(i: nat, resolved: bool, pe32: bool) returns (ok: bool)
      requires Valid() && i in loading && i < ML.MAX_MODULES && forall j :: j in loading ==> j <= i
      modifies registry, registry.slots, ldr.Repr(), this`loading, this`mapped, this`refusals
      ensures Valid() && loading == old(loading) - {i}
      ensures i < |old(registry.slots[..])| && (ok ==> resolved) && (resolved && !pe32 ==> ok)
      ensures ok ==>
        && registry.slots[..] == old(registry.slots[..]) && registry.count == old(registry.count)
        && ldr.Order() == old(ldr.Order()) && mapped == old(mapped) && refusals == old(refusals)
      ensures !ok ==>
        && registry.slots[..] == old(registry.slots[..])[i := ML.ZEROED]
        && ldr.Order() == PL.Without(old(ldr.Order()), i)
        && mapped == old(mapped) - {old(registry.slots[..])[i].base, old(registry.slots[..])[i].page}
        && refusals == old(refusals) + if resolved then 1 else 0
    {
      hide Steady, Accounted, PL.Without;
      SteadyFacts();
      ok := resolved;
      if ok && pe32 {
        ok := *;
        if !ok { Refuse(); }
      }
      if ok { DoneLoading(i); } else { Unload(i); }
    }

    // Registering keeps the registry packed, and the names distinct exactly when the name is new.
    lemma {:induction false} StaysSingle(slots: seq<ML.Slot>, count: int, i: nat, s: ML.Slot)
      requires 0 <= count <= |slots| && ML.FirstFree(slots) == Some(i)
      requires i < |slots| && !ML.Used(slots[i]) && ML.Used(s)
      requires registry.slots[..] == slots[i := s] && registry.count == count + 1
      ensures ML.Packed(slots, count) ==> Packed()
      ensures ML.Packed(slots, count) && ML.Once(slots) ==> (Single() <==> ML.Fresh(slots, s.name))
    {
      hide ML.Packed, ML.Once, ML.Fresh, ML.FirstFree, AddsFresh, Kept;
      if ML.Packed(slots, count) {
        ML.PackedAfterAdd(slots, count, s);
        KeptAdded(slots, slots[i := s], i);
        AddsOne(slots, i, s);
        if ML.Once(slots) { OnceAdds(slots, slots[i := s]); }
      }
    }

    ghost method Refuse()
      modifies `refusals
      ensures refusals == old(refusals) + 1 && (old(Valid()) ==> Valid())
    {
      hide Accounted, ML.Consistent, PL.LdrData.Valid, Listed, Reached, DB.Reserved;
      refusals := refusals + 1;
    }

    ghost method DoneLoading(i: nat)
      requires Valid() && i in loading
      modifies `loading
      ensures Valid() && loading == old(loading) - {i}
    {
      hide Accounted, ML.Consistent, PL.LdrData.Valid, Listed, DB.Reserved;
      loading := loading - {i};
    }

    // One import: found, built in, or loaded from the file the search gives.
    method LoadDependency(name: cstring, depth: nat, world: World) returns (ok: bool)
      requires Valid() && depth < MAX_IMPORT_DEPTH
      modifies Repr()
      ensures Valid() && loading == old(loading) && unowned == old(unowned) && old(reserved) <= reserved
      ensures imageBase == old(imageBase) && is32 == old(is32) && pePath == old(pePath)
      ensures Kept(old(registry.slots[..]), registry.slots[..]) && old(ldr.Order()) <= ldr.Order()
      ensures ok ==> Met(world, registry.slots[..], name)
      ensures old(Packed()) && Keeps(world, name) && ImportsKept(world) ==>
        AddsFresh(old(registry.slots[..]), registry.slots[..]) && (ok ==> Packed())
      ensures Planned(old(refusals), refusals, ok, registry.slots[..],
                PlanDependency(world, is32, Names(old(registry.slots[..])), name, depth))
      ensures old(registry.count) <= |old(registry.slots[..])|
      ensures ML.ByName(old(registry.slots[..]), old(registry.count), name).Some? || world.builtin(name).Some? ==>
        ok && Picture() == old(Picture())
      ensures !ok ==>
        && ML.ByName(old(registry.slots[..]), old(registry.count), name).None? && world.builtin(name).None?
        && (world.find(name).None? || refusals > old(refusals) ||
            !PlanLoad(world, is32, Names(old(registry.slots[..])), world.find(name).value, depth + 1).0)
      decreases Fuel(depth), 0, 0
    {
      hide Steady, Accounted, ML.FirstSlot, BaseName, DB.Reserved;
      hide Keeps, ImportsKept, ML.Fresh, ML.Packed, AddsFresh, Advanced, ImportsMet;
      hide PlanDependency, PlanLoad, Names;
      SteadyFacts();
      RegistryValid();
      DependencyPlan(world, is32, registry.slots[..], registry.count, name, depth);
      AddsNothing(registry.slots[..]);
      var dep := registry.FindModuleByName(name);
      if dep.Some? {
        assert Supplies(world, registry.slots[..][dep.value], name);
        return true;
      }
      if world.builtin(name).Some? { return true; }
      var path := world.find(name);
      if path.None? { return false; }
      if Packed() && Keeps(world, name) {
        MissedFile(world, registry.slots[..], registry.count, name, path.value);
      }
      ghost var created;
      dep, created := LoadDll(path.value, depth + 1, world);
      if dep.None? { return false; }
      assert Supplies(world, registry.slots[..][dep.value], name);
      return true;
    }

    // The first pass over a module's imports: load what is neither loaded nor built in.
    method LoadDependencies(list: seq<Descriptor>, depth: nat, world: World) returns (ok: bool)
      requires Valid() && depth < MAX_IMPORT_DEPTH
      modifies Repr()
      ensures Valid() && loading == old(loading) && unowned == old(unowned) && old(reserved) <= reserved
      ensures imageBase == old(imageBase) && is32 == old(is32) && pePath == old(pePath)
      ensures Kept(old(registry.slots[..]), registry.slots[..]) && old(ldr.Order()) <= ldr.Order()
      ensures ok ==> forall k :: 0 <= k < |list| ==> list[k].Dependency? && Met(world, registry.slots[..], list[k].name)
      ensures old(Packed()) && ListKept(world, list) && ImportsKept(world) ==>
        AddsFresh(old(registry.slots[..]), registry.slots[..]) && (ok ==> Packed())
      ensures Planned(old(refusals), refusals, ok, registry.slots[..],
                PlanList(world, is32, Names(old(registry.slots[..])), list, depth))
      ensures old(registry.count) <= |old(registry.slots[..])|
      ensures Supplied(world, old(registry.slots[..]), old(registry.count), list) ==> ok && Picture() == old(Picture())
      decreases Fuel(depth), 0, 1
    {
      hide Steady, Accounted, Keeps, ImportsKept, ML.Packed, AddsFresh, Met, PlanDependency, PlanList, Names;
      hide Kept, Supplied, Picture, ML.ByName, PlanLoad, Planned, ListKept, Progress;
      SteadyFacts();
      hide Valid;
      ghost var was, count, refused := registry.slots[..], registry.count, refusals;
      ghost var kept := Packed() && ListKept(world, list) && ImportsKept(world);
      ghost var task := Task(world, is32, list, depth, was, refused, kept);
      NoProgress(task, registry.count);
      for d := 0 to |list|
        invariant Valid() && loading == old(loading) && unowned == old(unowned) && old(reserved) <= reserved
        invariant imageBase == old(imageBase) && is32 == old(is32) && pePath == old(pePath)
        invariant old(ldr.Order()) <= ldr.Order()
        invariant Progress(task, d, registry.slots[..], registry.count, refusals)
        invariant Supplied(world, was, count, list) ==> Picture() == old(Picture())
      {
        ghost var slots, held, before := registry.slots[..], registry.count, refusals;
        if Supplied(world, was, count, list) { SuppliedAt(world, was, count, list, d); }
        if list[d].Unterminated? {
          ProgressEnds(task, d, registry.slots[..], registry.count, refusals);
          return false;
        }
        if kept {
          KeptAt(world, list, d);
          ProgressPacked(task, d, slots, held, before);
        }
        ok := LoadDependency(list[d].name, depth, world);
        ProgressStep(task, d, slots, held, before, registry.slots[..], registry.count, refusals, ok);
        if !ok { return false; }
      }
      ProgressEnds(task, |list|, registry.slots[..], registry.count, refusals);
      return true;
    }

    // A module's imports: load the dependencies, then resolve (an arbitrary outcome here).
    method ResolveModuleImports(i: nat, imports: Imports, depth: nat, world: World) returns (ok: bool)
      requires Valid() && i in loading
      modifies Repr()
      ensures Valid() && loading == old(loading) && unowned == old(unowned)
      ensures Advanced() && old(reserved) <= reserved
      ensures imageBase == old(imageBase) && is32 == old(is32) && pePath == old(pePath)
      ensures Kept(old(registry.slots[..]), registry.slots[..]) && old(ldr.Order()) <= ldr.Order()
      ensures depth >= MAX_IMPORT_DEPTH ==> !ok
      ensures ok ==> ImportsMet(world, registry.slots[..], imports)
      ensures old(Packed()) && NamesKept(world, imports) && ImportsKept(world) ==>
        AddsFresh(old(registry.slots[..]), registry.slots[..]) && (ok ==> Packed())
      ensures Planned(old(refusals), refusals, ok, registry.slots[..],
                PlanImports(world, is32, Names(old(registry.slots[..])), imports, depth))
      decreases Fuel(depth), 1
    {
      hide Steady, Accounted, DB.Reserved, Keeps, ImportsKept, Packed, AddsFresh, Advanced, Met;
      SteadyFacts();
      AddsNothing(registry.slots[..]);
      if depth >= MAX_IMPORT_DEPTH {
        ok := false;
      } else if imports.Descriptors? {
        ok := LoadDependencies(imports.list, depth, world);
        if ok && imports.terminated {
          ok := *;
          if !ok { Refuse(); }
        } else {
          ok := false;
        }
      } else {
        ok := imports.NoImports?;
      }
      SteadyFacts();
      AdvancedSince();
    }

    // LoadLibrary: one more reference to a module the safe lookup finds, the pseudo handle of a
    // built-in library, or a load. The safe lookup can hit a free slot, for the empty name only;
    // its load count goes up and the answer is null. In a packed registry with distinct names a
    // successful request leaves two modules of one name exactly when it doubles a module.
    method LoadLibrary(name: Option<cstring>, world: World) returns (handle: nat)
      requires Valid()
      modifies Repr()
      ensures Valid() && loading == old(loading) && unowned == old(unowned) && Advanced()
      ensures imageBase == old(imageBase) && is32 == old(is32) && pePath == old(pePath)
      ensures old(registry.count) <= |old(registry.slots[..])| == ML.MAX_MODULES && old(ldr.Order()) <= ldr.Order()
      ensures name.None? ==> handle == 0 && registry.slots[..] == old(registry.slots[..]) && mapped == old(mapped)
      ensures name.Some? ==>
        var found := ML.ByNameSafe(old(registry.slots[..]), old(registry.count), name.value);
        if found.Some? then
          var s := old(registry.slots[..])[found.value];
          && handle == s.base && mapped == old(mapped) && ldr.Order() == old(ldr.Order())
          && registry.slots[..] == old(registry.slots[..])[found.value := s.(loadCount := s.loadCount + 1)]
        else
          && Kept(old(registry.slots[..]), registry.slots[..])
          && (world.builtin(name.value).Some? ==> handle == world.builtin(name.value).value && mapped == old(mapped))
          && (world.builtin(name.value).None? && handle != 0 ==>
              exists i :: NewModule(world, old(registry.slots[..]), registry.slots[..], i, name.value, handle))
          && (world.builtin(name.value).None? ==> Planned(old(refusals), refusals, handle != 0, registry.slots[..],
              PlanRequest(world, is32, Names(old(registry.slots[..])), name.value)))
      ensures old(Single()) && ImportsKept(world) ==>
        (ML.Once(registry.slots[..]) <==>
         !(handle != 0 && name.Some? && Doubles(world, old(registry.slots[..]), old(registry.count), name.value)))
    {
      hide Steady, Accounted, ML.ByName, ML.ByNameSafe, DB.Reserved, ImportsKept, ML.Once, ML.Packed, ML.Fresh;
      hide Advanced, NewModule, ModuleName, Planned, PlanRequest;
      SteadyFacts();
      AdvancedSince();
      if name.None? { return 0; }
      RegistryValid();
      ghost var slots, count := registry.slots[..], registry.count;
      var found := registry.FindModuleByNameSafe(name.value);
      if found.Some? {
        Recount(found.value, 1);
        return registry.slots[found.value].base;
      }
      if world.builtin(name.value).Some? { return world.builtin(name.value).value; }
      handle := LoadFound(name.value, world);
      SteadyFacts();
      AdvancedSince();
    }

    // The load at the end of LoadLibrary.
    method LoadFound(name: cstring, world: World) returns (handle: nat)
      requires Valid()
      modifies Repr()
      ensures Valid() && loading == old(loading) && unowned == old(unowned) && old(reserved) <= reserved
      ensures imageBase == old(imageBase) && is32 == old(is32) && pePath == old(pePath)
      ensures Kept(old(registry.slots[..]), registry.slots[..]) && old(ldr.Order()) <= ldr.Order()
      ensures handle != 0 ==> exists i :: NewModule(world, old(registry.slots[..]), registry.slots[..], i, name, handle)
      ensures handle != 0 ==> world.find(name).Some?
      ensures Planned(old(refusals), refusals, handle != 0, registry.slots[..],
                PlanRequest(world, is32, Names(old(registry.slots[..])), name))
      ensures old(Single()) && ImportsKept(world) ==>
        (ML.Once(registry.slots[..]) <==>
         || handle == 0
         || (world.find(name).Some? && ML.Fresh(old(registry.slots[..]), ModuleName(world.find(name).value))))
    {
      hide Steady, Accounted, DB.Reserved, ImportsKept, ML.Fresh, ML.Once, ML.Packed, Advanced, BaseName, AddsFresh;
      hide ImportsMet, PlanLoad;
      SteadyFacts();
      ghost var slots := registry.slots[..];
      var path := world.find(name);
      if path.None? { return 0; }
      var r, created := LoadDll(path.value, 0, world);
      if ML.Once(slots) { OnceAdds(slots, registry.slots[..]); }
      if r.None? { return 0; }
      NotNull(registry.slots[..][r.value]);
      SteadyFacts();
      assert NewModule(world, slots, registry.slots[..], r.value, name, registry.slots[r.value].base);
      return registry.slots[r.value].base;
    }

    // The call takes no module away, or one above all that are loading.
    ghost predicate MayGo(addr: nat, world: World)
      requires registry.count <= |registry.slots[..]|
      reads this, registry, registry.slots
    {
      var found := ML.ByAddr(registry.slots[..], registry.count, addr);
      || world.handle(addr) || found.None? || registry.slots[..][found.value].loadCount > 1
      || forall j :: j in loading ==> j < found.value
    }

    lemma {:induction false} RegistryValid()
      requires Steady()
      ensures registry.Valid()
    {
    }

    // One reference more or less; nothing else about the module changes.
    method Recount(i: nat, change: int)
      requires Valid() && i < ML.MAX_MODULES && i < registry.slots.Length
      modifies registry.slots
      ensures Valid()
      ensures
        var s := old(registry.slots[..])[i];
        registry.slots[..] == old(registry.slots[..])[i := s.(loadCount := s.loadCount + change)]
      ensures old(ML.Once(registry.slots[..])) ==> ML.Once(registry.slots[..])
    {
      hide Accounted, ML.Consistent, PL.LdrData.Valid, Listed, Reached, DB.Reserved;
      ghost var slots, n := registry.slots[..], registry.slots[i].loadCount + change;
      SetLoadCount(slots, registry.count, ldr.entries[..], ldr.Order(), loading, mapped, unowned, i, n);
      registry.slots[i] := registry.slots[i].(loadCount := registry.slots[i].loadCount + change);
      assert registry.slots[..] == slots[i := slots[i].(loadCount := n)];
    }

    // The end of FreeLibrary: unlink and unregister a module and unmap its image.
    method Release(i: nat)
      requires Valid() && i < registry.count && i < ML.MAX_MODULES && ML.Used(registry.slots[..][i])
      requires forall j :: j in loading ==> j < i
      modifies registry, registry.slots, ldr.Repr(), this`unowned, this`mapped
      ensures Valid() && registry.slots[..] == old(registry.slots[..])[i := ML.ZEROED]
      ensures registry.count == old(registry.count) - 1
      ensures ldr.Order() == PL.Without(old(ldr.Order()), i)
      ensures
        var s := old(registry.slots[..])[i];
        && mapped == old(mapped) - {s.base} && unowned == old(unowned) + PageOf(s)
        && (s.page != 0 ==> s.page in mapped)
      ensures old(Packed()) ==> (Packed() <==> i == old(registry.count) - 1)
      ensures old(ML.Once(registry.slots[..])) ==> ML.Once(registry.slots[..])
    {
      hide Accounted, ML.Consistent, PL.LdrData.Valid, Listed, Reached, PL.Without, DB.Reserved, ML.Packed, ML.Once;
      ML.CountInRange(registry.slots[..], registry.count);
      if Packed() { ML.PackedAfterRemove(registry.slots[..], registry.count, i); }
      if ML.Once(registry.slots[..]) { OnceDrop(registry.slots[..], i); }
      FreeKeeps(registry.slots[..], ldr.entries[..], ldr.Order(), loading, i);
      FreeAccounted(registry.slots[..], mapped, unowned, i);
      var base := registry.slots[i].base;
      unowned := unowned + PageOf(registry.slots[i]);
      Unlink(i);
      Munmap(base);
      registry.RemoveModule(i);
    }

    // FreeLibrary: drop a reference to the module that holds the address; the last one takes it
    // out of the lists and the registry and unmaps its image, but not its header page. A packed
    // registry stays packed if and only if that module was the last one. While modules are
    // loading, only a module above them may go.
    method FreeLibrary(addr: nat, world: World) returns (ok: bool)
      requires Valid() && (loading == {} || (registry.count <= |registry.slots[..]| && MayGo(addr, world)))
      modifies Repr()
      ensures Valid() && loading == old(loading)
      ensures old(registry.count) <= |old(registry.slots[..])|
      ensures ok == (world.handle(addr) || ML.ByAddr(old(registry.slots[..]), old(registry.count), addr).Some?)
      ensures !ok || world.handle(addr) ==>
        registry.slots[..] == old(registry.slots[..]) && mapped == old(mapped) && ldr.Order() == old(ldr.Order())
      ensures ok && !world.handle(addr) ==>
        var i := ML.ByAddr(old(registry.slots[..]), old(registry.count), addr).value;
        var s := old(registry.slots[..])[i];
        if s.loadCount > 1 then
          && registry.slots[..] == old(registry.slots[..])[i := s.(loadCount := s.loadCount - 1)]
          && mapped == old(mapped) && ldr.Order() == old(ldr.Order()) && unowned == old(unowned)
        else
          && registry.slots[..] == old(registry.slots[..])[i := ML.ZEROED]
          && ldr.Order() == PL.Without(old(ldr.Order()), i)
          && mapped == old(mapped) - {s.base} && unowned == old(unowned) + PageOf(s)
          && (s.page != 0 ==> s.page in mapped)
          && (old(Packed()) ==> (Packed() <==> i == old(registry.count) - 1))
      ensures old(ML.Once(registry.slots[..])) ==> ML.Once(registry.slots[..])
    {
      hide Steady, Accounted, PL.Without, ML.ByAddr, DB.Reserved, ML.Once, ML.Packed;
      SteadyFacts();
      RegistryValid();
      if world.handle(addr) { return true; }
      ghost var slots := registry.slots[..];
      var found := registry.FindModuleByAddr(addr);
      if found.None? { return false; }
      var i := found.value;
      Recount(i, -1);
      if registry.slots[i].loadCount > 0 { return true; }
      RecountPacked(slots, registry.slots[..], registry.count);
      Release(i);
      assert registry.slots[..] == slots[i := ML.ZEROED];
      return true;
    }
  }

  // Load counts do not matter to where modules are.
  lemma {:induction false} RecountPacked(slots: seq<ML.Slot>, slots': seq<ML.Slot>, count: int)
    requires |slots| == |slots'| && forall i :: 0 <= i < |slots| ==> slots'[i].base == slots[i].base
    ensures ML.Packed(slots', count) <==> ML.Packed(slots, count)
  {
    forall i | 0 <= i < |slots| ensures ML.Used(slots'[i]) <==> ML.Used(slots[i]) {
    }
  }

  lemma {:induction false} Unmapped(before: map<nat, nat>, a: nat, m: nat)
    requires a !in before
    ensures before[a := m] - {a} == before
  {
  }

  lemma {:induction false} BothUnmapped(before: map<nat, nat>, a: nat, m: nat, b: nat, n: nat)
    requires a !in before && b !in before && a != b
    ensures before[a := m][b := n] - {b} - {a} == before
  {
    Unmapped(before[a := m], b, n);
    Unmapped(before, a, m);
  }

  function SizeOf(r: Option<(nat, Dll)>): Option<u32> {
    if r.Some? then Some(r.value.1.size) else None
  }

  const MAIN_NAME: cstring := ['m' as int, 'a' as int, 'i' as int, 'n' as int, '.' as int, 'e' as int, 'x' as int,
    'e' as int]

  lemma {:induction false} WordSizePositive(cursor: nat, grants: seq<DB.Grant>, schedule: seq<DB.Action>, wordSize: nat)
    requires DB.Reserved(cursor, grants, schedule, wordSize)
    ensures wordSize > 0
  {
    hide DB.Run;
  }

  lemma {:induction false} NothingYet(slots: seq<ML.Slot>, entries: seq<PL.Entry>)
    requires |slots| == |entries| == ML.MAX_MODULES && forall i :: 0 <= i < |slots| ==> slots[i] == ML.ZEROED
    ensures Listed(slots, entries, []) && Reached(slots, {}) && Accounted(slots, map[], {})
    ensures ML.Packed(slots, 0) && ML.Once(slots)
  {
  }

  // With a zero count nothing is registered or linked, and slot 0 is the first free one.
  lemma {:induction false} NothingRegistered(slots: seq<ML.Slot>, entries: seq<PL.Entry>, order: seq<int>)
    requires ML.Consistent(slots, 0) && Listed(slots, entries, order)
    ensures (forall i :: 0 <= i < |slots| ==> !ML.Used(slots[i])) && order == [] && ML.FirstFree(slots) == Some(0)
    ensures ML.Packed(slots, 0) && ML.Once(slots)
  {
    hide ML.UsedCount;
    var first := if order == [] then 0 else order[0];
    forall i | 0 <= i < |slots| ensures !ML.Used(slots[i]) { NoneCounted(slots, i); }
  }

  lemma {:induction false} NoneCounted(slots: seq<ML.Slot>, i: nat)
    requires i < |slots| && ML.UsedCount(slots) == 0
    ensures !ML.Used(slots[i])
  {
    if i < |slots| - 1 { NoneCounted(slots[..|slots| - 1], i); }
  }

  lemma {:induction false} FirstAlone(slots: seq<ML.Slot>, s: ML.Slot)
    requires slots != [] && ML.Used(s) && forall i :: 0 <= i < |slots| ==> !ML.Used(slots[i])
    ensures ML.Packed(slots[0 := s], 1) && ML.Once(slots[0 := s])
  {
  }

  lemma {:induction false} UnownedAccounted(slots: seq<ML.Slot>, mapped: map<nat, nat>, unowned: set<nat>, base: nat,
          size: nat)
    requires Accounted(slots, mapped, unowned) && base != 0 && base !in mapped && RegionsApart(mapped[base := size])
    ensures Accounted(slots, mapped[base := size], unowned + {base})
  {
    hide RegionsApart, Bases, Pages;
  }

  lemma {:induction false} NotNull(s: ML.Slot)
    ensures ML.Used(s) ==> s.base != 0
  {
  }

  lemma {:induction false} SetLoadCount(slots: seq<ML.Slot>, count: int, entries: seq<PL.Entry>, order: seq<int>,
          loading: set<nat>, mapped: map<nat, nat>, unowned: set<nat>, i: nat, n: int)
    requires ML.Consistent(slots, count) && Listed(slots, entries, order) && Accounted(slots, mapped, unowned)
    requires i < |slots| && Reached(slots, loading)
    ensures
      var slots' := slots[i := slots[i].(loadCount := n)];
      && ML.Consistent(slots', count) && Listed(slots', entries, order) && Accounted(slots', mapped, unowned)
      && Reached(slots', loading) && (ML.Once(slots) ==> ML.Once(slots'))
  {
    hide ML.UsedCount, Accounted;
    ML.UsedCountUpdate(slots, i, slots[i].(loadCount := n));
    SetCountAccounted(slots, mapped, unowned, i, n);
  }

  lemma {:induction false} SetCountAccounted(slots: seq<ML.Slot>, mapped: map<nat, nat>, unowned: set<nat>, i: nat,
          n: int)
    requires Accounted(slots, mapped, unowned) && i < |slots|
    ensures Accounted(slots[i := slots[i].(loadCount := n)], mapped, unowned)
  {
    hide RegionsApart, Bases, Pages;
    SameOwned(slots, i, slots[i].(loadCount := n));
  }

  lemma {:induction false} SameOwned(slots: seq<ML.Slot>, i: nat, s: ML.Slot)
    requires i < |slots| && s.base == slots[i].base && s.page == slots[i].page
    ensures Bases(slots[i := s]) == Bases(slots) && Pages(slots[i := s]) == Pages(slots)
  {
    var slots' := slots[i := s];
    forall j | 0 <= j < |slots|
      ensures slots'[j].base == slots[j].base && slots'[j].page == slots[j].page
      ensures (ML.Used(slots'[j]) <==> ML.Used(slots[j]))
    {
    }
  }

  lemma {:induction false} FreeKeeps(slots: seq<ML.Slot>, entries: seq<PL.Entry>, order: seq<int>,
          loading: set<nat>, i: nat)
    requires Listed(slots, entries, order) && i < |slots| && Reached(slots, loading)
    requires forall j :: j in loading ==> j < i
    ensures Listed(slots[i := ML.ZEROED], entries[i := PL.CLEARED], PL.Without(order, i))
    ensures Reached(slots[i := ML.ZEROED], loading)
    ensures PL.Without([], i) == []
  {
    var order', slots' := PL.Without(order, i), slots[i := ML.ZEROED];
    forall k | 0 <= k < |order'| ensures 0 <= order'[k] < |slots| && ML.Used(slots'[order'[k]]) {
      assert order'[k] in order';
      var h :| 0 <= h < |order| && order[h] == order'[k];
    }
  }

  lemma {:induction false} AccountedApart(slots: seq<ML.Slot>, mapped: map<nat, nat>, unowned: set<nat>)
    requires Accounted(slots, mapped, unowned)
    ensures RegionsApart(mapped) && 0 !in mapped
  {
  }

  lemma {:induction false} StopLoading(slots: seq<ML.Slot>, loading: set<nat>, i: nat)
    requires Reached(slots, loading + {i}) && i !in loading
    ensures Reached(slots, loading) && loading + {i} - {i} == loading
  {
  }

  lemma {:induction false} RegisterKeeps(slots: seq<ML.Slot>, entries: seq<PL.Entry>, order: seq<int>,
          loading: set<nat>, i: nat, s: ML.Slot, e: PL.Entry)
    requires Listed(slots, entries, order) && Reached(slots, loading) && ML.FirstFree(slots) == Some(i) && ML.Used(s)
    requires e.dllBase == s.base && e.size == s.size
    ensures i !in order && i !in loading && (forall j :: j in loading ==> j < i)
    ensures Reached(slots[i := s], loading + {i})
    ensures Listed(slots[i := s], entries[i := e], order) && Listed(slots[i := s], entries[i := e], order + [i])
  {
    hide ML.FirstSlot;
  }
}
