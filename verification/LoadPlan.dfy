/**
 What a load does to the names in the registry, as functions of the files, the path search and
 the built-in libraries: the outcome of loading a DLL and everything it imports when the kernel,
 DllMain and import resolution refuse nothing.
 */
module LoadPlan {
  import opened Bytes
  import opened Pe
  import opened CStrings
  import ML = ModuleList

  const MAX_IMPORT_DEPTH := 8

  // An import descriptor: its DLL name, or a name that is not terminated inside the image.
  datatype Descriptor = Unterminated | Dependency(name: cstring)

  // The import directory: absent or empty, out of bounds, or a list of descriptors that ends
  // in a terminator inside the directory or does not.
  datatype Imports = NoImports | OutOfBounds | Descriptors(list: seq<Descriptor>, terminated: bool)

  datatype Dll = Dll(pe32: bool, size: u32, imports: Imports)

  // The files, the path search, and the built-in libraries with their pseudo handles.
  datatype World = World(
    file: cstring -> Option<Dll>,
    find: cstring -> Option<cstring>,
    builtin: cstring -> Option<nat>,
    handle: nat -> bool)

  // The part of a path after its last slash.
  function BaseName(path: cstring): cstring {
    if path == [] then []
    else if path[|path| - 1] == '/' as int then []
    else BaseName(path[..|path| - 1]) + [path[|path| - 1]]
  }

  // The name a module loaded from this path is registered under.
  function ModuleName(path: cstring): (r: cstring)
    ensures |r| < ML.NAME_SIZE
  {
    Truncated(BaseName(path), ML.NAME_SIZE)
  }

  // How many more levels of imports may be followed from this depth.
  function Fuel(depth: nat): nat {
    if depth < MAX_IMPORT_DEPTH then MAX_IMPORT_DEPTH - depth else 0
  }

  // ---- The names in the registry ---------------------------------------------------------------------

  // The name in each slot; None is a free slot.
  type Roster = seq<Option<cstring>>

  function NameIn(s: ML.Slot): Option<cstring> {
    if ML.Used(s) then Some(s.name) else None
  }

  function Names(slots: seq<ML.Slot>): (r: Roster)
    ensures |r| == |slots| && forall i :: 0 <= i < |r| ==> r[i] == NameIn(slots[i])
  {
    seq(|slots|, i requires 0 <= i < |slots| => NameIn(slots[i]))
  }

  function Taken(roster: Roster): nat {
    if roster == [] then 0 else Taken(roster[..|roster| - 1]) + if roster[|roster| - 1].Some? then 1 else 0
  }

  // The name is in a slot the lookups reach.
  predicate Knows(roster: Roster, name: cstring) {
    exists i :: 0 <= i < |roster| && i < Taken(roster) && roster[i].Some? && SameName(roster[i].value, name)
  }

  // The first free slot from i on.
  function Vacant(roster: Roster, i: nat): (r: Option<nat>)
    ensures r.Some? ==> i <= r.value < |roster| && roster[r.value].None?
    ensures r.Some? ==> forall j :: i <= j < r.value ==> roster[j].Some?
    ensures r.None? ==> forall j :: i <= j < |roster| ==> roster[j].Some?
    decreases |roster| - i
  {
    if i >= |roster| then None else if roster[i].None? then Some(i) else Vacant(roster, i + 1)
  }

  lemma {:induction false} TakenIsUsed(slots: seq<ML.Slot>)
    ensures Taken(Names(slots)) == ML.UsedCount(slots)
  {
    if slots != [] {
      var n := |slots| - 1;
      assert Names(slots)[..n] == Names(slots[..n]);
      TakenIsUsed(slots[..n]);
    }
  }

  // The lookup hits exactly the names the roster knows.
  lemma {:induction false} FoundIsKnown(slots: seq<ML.Slot>, count: int, name: cstring)
    requires ML.Consistent(slots, count) && count <= |slots|
    ensures ML.ByName(slots, count, name).Some? <==> Knows(Names(slots), name)
  {
    hide ML.FirstSlot, ML.UsedCount, Taken, SameName;
    TakenIsUsed(slots);
    var roster := Names(slots);
    forall i | 0 <= i < |slots| ensures roster[i].Some? <==> ML.Used(slots[i]) {
    }
    if i :| 0 <= i < |roster| && i < Taken(roster) && roster[i].Some? && SameName(roster[i].value, name) {
      assert ML.Used(slots[i]) && SameName(slots[i].name, name);
    }
  }

  lemma {:induction false} FreeIsVacant(slots: seq<ML.Slot>)
    ensures Vacant(Names(slots), 0) == ML.FirstFree(slots)
  {
    hide ML.FirstSlot, Vacant;
    var roster := Names(slots);
    forall i | 0 <= i < |slots| ensures roster[i].None? <==> !ML.Used(slots[i]) {
    }
  }

  lemma {:induction false} NamesSet(slots: seq<ML.Slot>, i: nat, s: ML.Slot)
    requires i < |slots|
    ensures Names(slots[i := s]) == Names(slots)[i := NameIn(s)]
  {
  }

  // ---- The plan ----------------------------------------------------------------------------------------

  // There is a file with an image ...
  predicate HasImage(world: World, path: cstring) {
    world.file(path).Some? && world.file(path).value.size != 0
  }

  // ... of the main program's type.
  predicate Mappable(world: World, is32: bool, path: cstring) {
    HasImage(world, path) && world.file(path).value.pe32 == is32
  }

  // Whether a load succeeds, and the names after it: its own slot is given back when it fails,
  // those of dependencies loaded on the way are not.
  function PlanLoad(world: World, is32: bool, roster: Roster, path: cstring, depth: nat): (r: (bool, Roster))
    ensures |r.1| == |roster|
    decreases Fuel(depth), 3, 0
  {
    var free := Vacant(roster, 0);
    if !Mappable(world, is32, path) || free.None? then (false, roster)
    else
      var entered := roster[free.value := Some(ModuleName(path))];
      Rolled(PlanImports(world, is32, entered, world.file(path).value.imports, depth + 1), free.value)
  }

  // The outcome with slot i given back on failure.
  function Rolled(r: (bool, Roster), i: nat): (bool, Roster)
    requires i < |r.1|
  {
    if r.0 then r else (false, r.1[i := None])
  }

  function PlanImports(world: World, is32: bool, roster: Roster, imports: Imports, depth: nat): (r: (bool, Roster))
    ensures |r.1| == |roster|
    decreases Fuel(depth), 1, 0
  {
    if depth >= MAX_IMPORT_DEPTH then (false, roster)
    else
      match imports
      case NoImports => (true, roster)
      case OutOfBounds => (false, roster)
      case Descriptors(list, terminated) =>
        var r := PlanList(world, is32, roster, list, depth);
        (r.0 && terminated, r.1)
  }

  function PlanList(world: World, is32: bool, roster: Roster, list: seq<Descriptor>, depth: nat): (r: (bool, Roster))
    requires depth < MAX_IMPORT_DEPTH
    ensures |r.1| == |roster|
    decreases Fuel(depth), 0, |list| + 1
  {
    if list == [] then (true, roster)
    else if list[0].Unterminated? then (false, roster)
    else
      var r := PlanDependency(world, is32, roster, list[0].name, depth);
      if r.0 then PlanList(world, is32, r.1, list[1..], depth) else r
  }

  function PlanDependency(world: World, is32: bool, roster: Roster, name: cstring, depth: nat): (r: (bool, Roster))
    requires depth < MAX_IMPORT_DEPTH
    ensures |r.1| == |roster|
    decreases Fuel(depth), 0, 0
  {
    if Knows(roster, name) || world.builtin(name).Some? then (true, roster)
    else
      match world.find(name)
      case None => (false, roster)
      case Some(path) => PlanLoad(world, is32, roster, path, depth + 1)
  }

  // A request for a name that is neither registered nor built in.
  function PlanRequest(world: World, is32: bool, roster: Roster, name: cstring): (bool, Roster) {
    match world.find(name)
    case None => (false, roster)
    case Some(path) => PlanLoad(world, is32, roster, path, 0)
  }

  // A module whose imports are all known or built in needs nothing loaded.
  lemma {:induction false} SuppliedList(world: World, is32: bool, roster: Roster, list: seq<Descriptor>, depth: nat)
    requires depth < MAX_IMPORT_DEPTH
    requires forall k :: 0 <= k < |list| ==>
      list[k].Dependency? && (Knows(roster, list[k].name) || world.builtin(list[k].name).Some?)
    ensures PlanList(world, is32, roster, list, depth) == (true, roster)
    decreases |list|
  {
    hide Knows;
    if list != [] { SuppliedList(world, is32, roster, list[1..], depth); }
  }

  // ---- Import graphs that load ---------------------------------------------------------------------------

  // The taken slots are the first ones.
  predicate Packed(roster: Roster) {
    forall i, j :: 0 <= i < j < |roster| && roster[j].Some? ==> roster[i].Some?
  }

  predicate Has(roster: Roster, name: cstring) {
    exists i :: 0 <= i < |roster| && roster[i].Some? && SameName(roster[i].value, name)
  }

  // The import is built in, or the search finds one of these files for it, under its own name.
  predicate FoundIn(world: World, files: set<cstring>, d: Descriptor) {
    && d.Dependency?
    && (world.builtin(d.name).Some? ||
        (world.find(d.name).Some? && world.find(d.name).value in files
         && SameName(ModuleName(world.find(d.name).value), d.name)))
  }

  predicate ListIn(world: World, files: set<cstring>, list: seq<Descriptor>) {
    forall k :: 0 <= k < |list| ==> FoundIn(world, files, list[k])
  }

  // These files can be mapped and import only each other and built-in libraries.
  predicate Closed(world: World, is32: bool, files: set<cstring>) {
    forall p :: p in files ==>
      && Mappable(world, is32, p)
      && match world.file(p).value.imports
         case NoImports => true
         case OutOfBounds => false
         case Descriptors(list, terminated) => terminated && ListIn(world, files, list)
  }

  // The files that are not registered yet.
  function Missing(files: set<cstring>, roster: Roster): set<cstring> {
    set p | p in files && !Has(roster, ModuleName(p))
  }

  // There is room for all files that are missing.
  predicate Room(files: set<cstring>, roster: Roster) {
    Packed(roster) && Taken(roster) + |Missing(files, roster)| <= |roster|
  }

  // Nothing is lost, and each slot taken has made a file less missing.
  predicate Grown(files: set<cstring>, was: Roster, now: Roster) {
    && |was| == |now| && Room(files, now) && Missing(files, now) <= Missing(files, was)
    && forall i :: 0 <= i < |was| && was[i].Some? ==> now[i] == was[i]
  }

  lemma {:induction false} TakenPacked(roster: Roster)
    requires Packed(roster)
    ensures Taken(roster) <= |roster|
    ensures forall i :: 0 <= i < |roster| ==> (roster[i].Some? <==> i < Taken(roster))
  {
    if roster != [] {
      var n := |roster| - 1;
      TakenPacked(roster[..n]);
      assert forall i :: 0 <= i < n ==> roster[..n][i] == roster[i];
    }
  }

  lemma {:induction false} KnownIsHad(roster: Roster, name: cstring)
    requires Packed(roster)
    ensures Knows(roster, name) <==> Has(roster, name)
  {
    hide Taken, SameName;
    TakenPacked(roster);
  }

  lemma {:induction false} HasKept(was: Roster, now: Roster, name: cstring)
    requires |was| == |now| && forall i :: 0 <= i < |was| && was[i].Some? ==> now[i] == was[i]
    ensures Has(was, name) ==> Has(now, name)
  {
    hide SameName;
  }

  // Entering a missing file takes one slot and leaves at least one file less missing.
  lemma {:induction false} Enter(files: set<cstring>, roster: Roster, path: cstring)
    requires Room(files, roster) && path in Missing(files, roster)
    ensures Vacant(roster, 0).Some?
    ensures
      var entered := roster[Vacant(roster, 0).value := Some(ModuleName(path))];
      && Grown(files, roster, entered) && Has(entered, ModuleName(path))
      && |Missing(files, entered)| < |Missing(files, roster)|
  {
    hide ModuleName, SameName, Taken, Vacant;
    TakenPacked(roster);
    assert |Missing(files, roster)| > 0;
    var n := Taken(roster);
    assert roster[n].None?;
    var i := Vacant(roster, 0).value;
    assert i == n;
    var entered := roster[i := Some(ModuleName(path))];
    assert SameName(ModuleName(path), ModuleName(path)) by { NameSame(ModuleName(path)); }
    assert entered[i] == Some(ModuleName(path));
    assert Has(entered, ModuleName(path));
    forall p | p in Missing(files, entered) ensures p in Missing(files, roster) && p != path {
      HasKept(roster, entered, ModuleName(p));
    }
    assert Missing(files, entered) <= Missing(files, roster) - {path};
    Smaller(Missing(files, entered), Missing(files, roster) - {path});
    TakenPacked(entered);
    assert Taken(entered) == n + 1 by { TakenIs(entered, n + 1); }
  }

  lemma {:induction false} NameSame(a: cstring)
    ensures SameName(a, a)
  {
  }

  lemma {:induction false} TakenIs(roster: Roster, n: nat)
    requires n <= |roster| && forall i :: 0 <= i < |roster| ==> (roster[i].Some? <==> i < n)
    ensures Taken(roster) == n
  {
    if roster != [] {
      var k := |roster| - 1;
      assert forall i :: 0 <= i < k ==> roster[..k][i] == roster[i];
      TakenIs(roster[..k], if n == |roster| then k else n);
    }
  }

  lemma {:induction false} Smaller(a: set<cstring>, b: set<cstring>)
    requires a <= b
    ensures |a| <= |b|
  {
    assert b == a + (b - a);
    assert a !! (b - a);
  }

  lemma {:induction false} GrownTrans(files: set<cstring>, a: Roster, b: Roster, c: Roster)
    requires Grown(files, a, b) && Grown(files, b, c)
    ensures Grown(files, a, c)
  {
    hide Room, Missing;
  }

  // A missing file of a closed set loads, with everything it imports, whatever cycles there are,
  // when the depth leaves two levels for each file that is missing.
  lemma {:induction false} FileLoads(world: World, is32: bool, files: set<cstring>, roster: Roster, path: cstring,
          depth: nat)
    requires Closed(world, is32, files) && Room(files, roster) && path in Missing(files, roster)
    requires depth + 2 * |Missing(files, roster)| <= 8
    ensures
      var r := PlanLoad(world, is32, roster, path, depth);
      r.0 && Grown(files, roster, r.1) && Has(r.1, ModuleName(path))
    decreases Fuel(depth), 1, 0
  {
    hide Room, Missing, Has, ModuleName, PlanList, Vacant;
    Enter(files, roster, path);
    var entered := roster[Vacant(roster, 0).value := Some(ModuleName(path))];
    MissingIn(files, roster, path);
    assert Mappable(world, is32, path);
    match world.file(path).value.imports {
      case NoImports =>
      case Descriptors(list, terminated) =>
        ListLoads(world, is32, files, entered, list, depth + 1);
        var after := PlanList(world, is32, entered, list, depth + 1).1;
        GrownTrans(files, roster, entered, after);
        HasKept(entered, after, ModuleName(path));
    }
  }

  lemma {:induction false} MissingIn(files: set<cstring>, roster: Roster, path: cstring)
    requires path in Missing(files, roster)
    ensures path in files && |Missing(files, roster)| > 0
  {
  }

  lemma {:induction false} ListLoads(world: World, is32: bool, files: set<cstring>, roster: Roster,
          list: seq<Descriptor>, depth: nat)
    requires Closed(world, is32, files) && Room(files, roster) && ListIn(world, files, list)
    requires depth < MAX_IMPORT_DEPTH && depth + 2 * |Missing(files, roster)| < 8
    ensures
      var r := PlanList(world, is32, roster, list, depth);
      r.0 && Grown(files, roster, r.1)
    decreases Fuel(depth), 0, |list|
  {
    hide Room, Missing, Has, Knows, ModuleName, Closed, PlanLoad, FoundIn;
    if list != [] {
      assert FoundIn(world, files, list[0]);
      NamedIn(world, files, list[0]);
      DependencyLoads(world, is32, files, roster, list[0], depth);
      var next := PlanDependency(world, is32, roster, list[0].name, depth).1;
      Smaller(Missing(files, next), Missing(files, roster));
      ListLoads(world, is32, files, next, list[1..], depth);
      GrownTrans(files, roster, next, PlanList(world, is32, next, list[1..], depth).1);
    } else {
      GrownSame(files, roster);
    }
  }

  lemma {:induction false} NamedIn(world: World, files: set<cstring>, d: Descriptor)
    requires FoundIn(world, files, d)
    ensures d.Dependency?
  {
  }

  lemma {:induction false} GrownSame(files: set<cstring>, roster: Roster)
    requires Room(files, roster)
    ensures Grown(files, roster, roster)
  {
  }

  lemma {:induction false} DependencyLoads(world: World, is32: bool, files: set<cstring>, roster: Roster,
          d: Descriptor, depth: nat)
    requires Closed(world, is32, files) && Room(files, roster) && FoundIn(world, files, d)
    requires depth < MAX_IMPORT_DEPTH && depth + 2 * |Missing(files, roster)| < 8
    ensures
      var r := PlanDependency(world, is32, roster, d.name, depth);
      r.0 && Grown(files, roster, r.1)
    decreases Fuel(depth), 0, 0
  {
    hide Has, Knows, ModuleName, Closed, PlanLoad, Taken;
    KnownIsHad(roster, d.name);
    if Knows(roster, d.name) || world.builtin(d.name).Some? {
      GrownSame(files, roster);
    } else {
      var path := world.find(d.name).value;
      SameHad(roster, ModuleName(path), d.name);
      assert path in Missing(files, roster);
      FileLoads(world, is32, files, roster, path, depth + 1);
    }
  }

  lemma {:induction false} SameHad(roster: Roster, a: cstring, b: cstring)
    requires SameName(a, b)
    ensures Has(roster, a) ==> Has(roster, b)
  {
    hide Folded;
    if i :| 0 <= i < |roster| && roster[i].Some? && SameName(roster[i].value, a) {
      assert SameName(roster[i].value, b);
    }
  }

  // Up to four files that import only each other and built-in libraries always load, in any
  // packed registry with room for them, and take no more slots than there are files.
  lemma {:induction false} ClosedLoads(world: World, is32: bool, files: set<cstring>, roster: Roster, path: cstring)
    requires Closed(world, is32, files) && Packed(roster) && Taken(roster) + |files| <= |roster| && |files| <= 4
    requires path in files && !Has(roster, ModuleName(path))
    ensures
      var r := PlanLoad(world, is32, roster, path, 0);
      && r.0 && Has(r.1, ModuleName(path)) && Packed(r.1) && Taken(r.1) <= |roster|
      && forall i :: 0 <= i < |roster| && roster[i].Some? ==> r.1[i] == roster[i]
  {
    hide Has, Taken, ModuleName, PlanLoad, Closed;
    Smaller(Missing(files, roster), files);
    FileLoads(world, is32, files, roster, path, 0);
  }

  // The first import of the file at `path` is not at hand, the first import of the file found for it
  // neither, and so on for n files.
  predicate Chain(world: World, roster: Roster, path: cstring, n: nat)
    decreases n
  {
    n == 0 || Vacant(roster, 0).None? || world.file(path).None? ||
    (var entered := roster[Vacant(roster, 0).value := Some(ModuleName(path))];
     match world.file(path).value.imports
     case NoImports => false
     case OutOfBounds => true
     case Descriptors(list, terminated) =>
       && list != [] && list[0].Dependency?
       && !Knows(entered, list[0].name) && world.builtin(list[0].name).None?
       && (world.find(list[0].name).None? || Chain(world, entered, world.find(list[0].name).value, n - 1)))
  }

  // A chain that is four imports long does not load: the fifth file is too deep.
  lemma {:induction false} ChainFails(world: World, is32: bool, roster: Roster, path: cstring, n: nat, depth: nat)
    requires Chain(world, roster, path, n) && depth + 2 * n >= 7
    ensures !PlanLoad(world, is32, roster, path, depth).0
    decreases n
  {
    hide Knows, Vacant, ModuleName;
    var free := Vacant(roster, 0);
    if n > 0 && free.Some? && Mappable(world, is32, path) && depth + 1 < 8 {
      var entered := roster[free.value := Some(ModuleName(path))];
      match world.file(path).value.imports {
        case OutOfBounds =>
        case Descriptors(list, terminated) =>
          assert !PlanDependency(world, is32, entered, list[0].name, depth + 1).0 ==>
            !PlanList(world, is32, entered, list, depth + 1).0;
          if world.find(list[0].name).Some? {
            ChainFails(world, is32, entered, world.find(list[0].name).value, n - 1, depth + 2);
          }
      }
    }
  }
}
