/**
 Resolving an import end to end (import_lookup.c, import_resolve.c): the built-in table, then
 the exports of the registered module of that name, then the slot pass 1 writes.
 */
module Linking {
  import opened Bytes
  import opened Pe
  import opened CStrings
  import opened Sorting
  import IT = ImportTable
  import ML = ModuleList
  import EX = Exports
  import P1 = ImportPass1

  // The exports of the module in one slot: its image and its cache.
  datatype Library = Library(img: seq<byte>, cache: EX.ExportCache)

  // What the lookup consults, slot by slot.
  datatype Process = Process(table: seq<IT.Entry>, slots: seq<ML.Slot>, count: int, libraries: seq<Library>)

  predicate Ready(p: Process) {
    p.count <= |p.slots| == |p.libraries| && forall i :: 0 <= i < |p.libraries| ==> EX.Fits(p.libraries[i].cache)
  }

  type process = p: Process | Ready(p) witness Process([], [], 0, [])

  // Tier 2: the address the first registered module of the name exports; 0 is "none".
  function Exported(p: process, dll: cstring, name: cstring): nat {
    match ML.ByName(p.slots, p.count, dll)
    case None => 0
    case Some(i) =>
      match EX.ByScan(p.libraries[i].img, p.libraries[i].cache, name)
      case None => 0
      case Some(rva) => p.slots[i].base + rva
  }

  // The first entry of the name, under any DLL.
  function AnyEntry(table: seq<IT.Entry>, name: cstring): (r: Option<IT.Entry>)
    ensures r.Some? ==> r.value in table && r.value.name == name
    ensures r.None? <==> forall e :: e in table ==> e.name != name
  {
    if table == [] then None
    else
      assert table == table[..1] + table[1..];
      if table[0].name == name then Some(table[0]) else AnyEntry(table[1..], name)
  }

  // The table entry a build consults: the 32-bit build matches DLL and name, the 64-bit build,
  // which alone loads PE32+ images, the name only.
  function TableEntry(p: process, wide: bool, dll: cstring, name: cstring): Option<IT.Entry> {
    if wide then AnyEntry(p.table, name) else IT.FirstMatch(p.table, dll, name)
  }

  // The table first, then the exports.
  function ImportAddress(p: process, wide: bool, dll: cstring, name: cstring): nat {
    IT.Resolved(TableEntry(p, wide, dll, name), Exported(p, dll, name))
  }

  // On a table whose equal names share an address, the two builds give a request the same
  // address exactly when the 32-bit build finds an entry, no entry has the name, or the entry
  // of the name under another DLL is empty or happens to hold the exported address.
  lemma {:induction false} BuildsAgree(p: process, dll: cstring, name: cstring)
    requires IT.Shared(p.table)
    ensures
      var any := AnyEntry(p.table, name);
      ImportAddress(p, true, dll, name) == ImportAddress(p, false, dll, name) <==>
        || IT.FirstMatch(p.table, dll, name).Some? || any.None?
        || any.value.address == 0 || any.value.address == Exported(p, dll, name)
  {
    hide Exported, IT.FirstMatch;
    var first, any := IT.FirstMatch(p.table, dll, name), AnyEntry(p.table, name);
    if first.Some? {
      SameAddress(p.table, first.value, any.value);
    }
  }

  lemma {:induction false} SameAddress(table: seq<IT.Entry>, e: IT.Entry, f: IT.Entry)
    requires IT.Shared(table) && e in table && f in table && e.name == f.name
    ensures e.address == f.address
  {
    var i :| 0 <= i < |table| && table[i] == e;
    var j :| 0 <= j < |table| && table[j] == f;
  }

  // The resolver of pass 1, with a table of names for ordinals.
  function LoaderResolver(p: process, wide: bool, ordinalName: (cstring, nat) -> Option<cstring>): P1.Resolver {
    P1.Resolver((dll: cstring, name: cstring) => ImportAddress(p, wide, dll, name), ordinalName)
  }

  // ---- The lookups ---------------------------------------------------------------------

  function Images(modules: seq<EX.Module>): set<object>
    reads modules
  {
    set m | m in modules :: m.image
  }

  function Libraries(modules: seq<EX.Module>): (r: seq<Library>)
    reads modules, Images(modules)
    ensures |r| == |modules|
    ensures forall i :: 0 <= i < |r| ==> r[i] == Library(modules[i].image[..], modules[i].cache)
  {
    if modules == [] then []
    else
      var last := modules[|modules| - 1];
      Libraries(modules[..|modules| - 1]) + [Library(last.image[..], last.cache)]
  }

  // Every library's names are valid and strictly increasing.
  predicate AllOrdered(libraries: seq<Library>) {
    forall i :: 0 <= i < |libraries| ==> EX.Ordered(libraries[i].img, libraries[i].cache)
  }

  // The module of the name is looked up, and its export by binary search.
  method ModuleExport(registry: ML.Registry, modules: seq<EX.Module>, dll: cstring, name: cstring,
          ghost table: seq<IT.Entry>)
    returns (address: nat)
    requires registry.Valid() && |modules| == ML.MAX_MODULES && forall m :: m in modules ==> EX.Fits(m.cache)
    ensures registry.count <= |registry.slots[..]| == |modules|
    ensures
      var p := Process(table, registry.slots[..], registry.count, Libraries(modules));
      Ready(p) && (AllOrdered(p.libraries) ==> address == Exported(p, dll, name))
  {
    hide ML.FirstSlot, EX.ByScan, EX.Ordered, EX.Target;
    ML.CountInRange(registry.slots[..], registry.count);
    var i := registry.FindModuleByName(dll);
    if i.None? { return 0; }
    var m := modules[i.value];
    if |m.cache.names| == 0 {
      NothingExported(m.image[..], m.cache, name);
      return 0;
    }
    var rva := m.LookupExport(name);
    return if rva.Some? then registry.slots[i.value].base + rva.value else 0;
  }

  lemma {:induction false} NothingExported(img: seq<byte>, cache: EX.ExportCache, name: cstring)
    requires EX.Fits(cache) && |cache.names| == 0
    ensures EX.ByScan(img, cache, name).None?
  {
  }

  method ResolveLoaderImport32(table: array<IT.Entry>, registry: ML.Registry, modules: seq<EX.Module>, dll: cstring,
          name: cstring)
    returns (address: nat)
    requires registry.Valid() && |modules| == ML.MAX_MODULES && forall m :: m in modules ==> EX.Fits(m.cache)
    ensures
      var p := Process(table[..], registry.slots[..], registry.count, Libraries(modules));
      && Ready(p)
      && (AllOrdered(p.libraries) ==> address == ImportAddress(p, false, dll, name))
  {
    hide Exported, Libraries, AllOrdered, IT.FirstMatch;
    var entry := IT.ScanTable(table, dll, name);
    var exported := ModuleExport(registry, modules, dll, name, table[..]);
    if entry.Some? && entry.value.address != 0 { return entry.value.address; }
    return exported;
  }

  // The 64-bit build, on a sorted table whose equal names share an address.
  method ResolveLoaderImport64(table: array<IT.Entry>, registry: ML.Registry, modules: seq<EX.Module>, dll: cstring,
          name: cstring)
    returns (address: nat)
    requires registry.Valid() && |modules| == ML.MAX_MODULES && forall m :: m in modules ==> EX.Fits(m.cache)
    ensures
      var p := Process(table[..], registry.slots[..], registry.count, Libraries(modules));
      && Ready(p)
      && (AllOrdered(p.libraries) && Sorted(table[..], IT.ByName) && IT.Shared(table[..]) ==>
          address == ImportAddress(p, true, dll, name))
  {
    hide Exported, Libraries, AllOrdered, Sorted, IT.Shared;
    var exported := ModuleExport(registry, modules, dll, name, table[..]);
    ghost var libraries := Libraries(modules);
    address := IT.SearchOr(table, name, exported);
    ghost var any := AnyEntry(table[..], name);
    assert Libraries(modules) == libraries;
    assert any.Some? && Sorted(table[..], IT.ByName) && IT.Shared(table[..]) ==> address == IT.Resolved(any, exported);
  }

  // ---- The slot ------------------------------------------------------------------------

  // Thunk j of table d asks for this function of this DLL.
  predicate Asks(o: seq<byte>, pe32: bool, t: P1.Table, j: nat, ordinalName: (cstring, nat) -> Option<cstring>,
          dll: cstring, name: cstring) {
    && P1.InBounds(o, pe32, t, j) && t.dll <= |o| && CStr(o, t.dll) == dll
    && var thunk := P1.ThunkOf(o, pe32, t, j);
    && P1.ThunkValid(o, pe32, thunk)
    && if thunk >= P1.OrdinalFlag(pe32) then ordinalName(dll, thunk % U16) == Some(name) else CStr(o, thunk + 2) == name
  }

  predicate Importable(o: seq<byte>, nt: NtHeaders) {
    var dir := Directory(nt, IMPORT_DIRECTORY);
    && dir.Some? && dir.value.size != 0 && dir.value.rva != 0
    && RangeValid(dir.value.rva, dir.value.size, |o|) && RangeValid(dir.value.rva, P1.DESCRIPTOR, |o|)
    && P1.Layout(o, nt.pe32, dir.value.rva, P1.Tables(o, nt.pe32, dir.value.rva, dir.value.size, 0))
  }

  // What pass 1 leaves in the slot of a thunk that asks for this function.
  lemma {:induction false} SlotAnswer(o: seq<byte>, img: seq<byte>, pe32: bool, p: process, wide: bool,
          ordinalName: (cstring, nat) -> Option<cstring>, t: P1.Table, j: nat, dll: cstring, name: cstring)
    requires |img| == |o| && P1.SlotDone(o, img, pe32, LoaderResolver(p, wide, ordinalName), t, j)
    requires Asks(o, pe32, t, j, ordinalName, dll, name)
    ensures
      var slot, w, address := t.iat + P1.Nth(pe32, j), P1.ThunkSize(pe32), ImportAddress(p, wide, dll, name);
      slot + w <= |o| && Load(img, slot, w) == if address != 0 then Wrap(address, w) else Load(o, slot, w)
  {
    hide ImportAddress, P1.ThunkValid, CStr, Load, Wrap;
  }

  // Table d of the image's import directory.
  function TableAt(o: seq<byte>, nt: NtHeaders, d: nat): Option<P1.Table> {
    var dir := Directory(nt, IMPORT_DIRECTORY);
    if dir.None? then None
    else
      var ts := P1.Tables(o, nt.pe32, dir.value.rva, dir.value.size, 0);
      if d < |ts| then Some(ts[d]) else None
  }

  // After a successful pass 1 the slot of every such thunk holds the address this build's lookup
  // gives, or its old value when the lookup gives none.
  lemma {:induction false} SlotHoldsAddress(o: seq<byte>, nt: NtHeaders, p: process, wide: bool,
          ordinalName: (cstring, nat) -> Option<cstring>, d: nat, j: nat, dll: cstring, name: cstring)
    requires Importable(o, nt) && P1.Pass1(o, nt, LoaderResolver(p, wide, ordinalName)).0
    requires TableAt(o, nt, d).Some? && j < TableAt(o, nt, d).value.count
    requires Asks(o, nt.pe32, TableAt(o, nt, d).value, j, ordinalName, dll, name)
    ensures
      var slot, w := TableAt(o, nt, d).value.iat + P1.Nth(nt.pe32, j), P1.ThunkSize(nt.pe32);
      var img, address := P1.Pass1(o, nt, LoaderResolver(p, wide, ordinalName)).1, ImportAddress(p, wide, dll, name);
      slot + w <= |o| && Load(img, slot, w) == if address != 0 then Wrap(address, w) else Load(o, slot, w)
  {
    hide P1.Layout, P1.Tables, P1.Pass1, P1.SlotDone, Asks, P1.WellFormed, P1.Progress, P1.StopsAt, LoaderResolver;
    hide ImportAddress, Load, P1.InIat;
    var res := LoaderResolver(p, wide, ordinalName);
    P1.Pass1Effect(o, nt, res);
    var t := TableAt(o, nt, d).value;
    SlotAnswer(o, P1.Pass1(o, nt, res).1, nt.pe32, p, wide, ordinalName, t, j, dll, name);
  }

  // In particular, an import that this build's table lookup leaves open and that a registered
  // module exports is bound to that module's base plus the exported RVA.
  lemma {:induction false} ImportBound(o: seq<byte>, nt: NtHeaders, p: process, wide: bool,
          ordinalName: (cstring, nat) -> Option<cstring>, d: nat, j: nat, dll: cstring, name: cstring, i: nat, rva: nat)
    requires Importable(o, nt) && P1.Pass1(o, nt, LoaderResolver(p, wide, ordinalName)).0
    requires TableAt(o, nt, d).Some? && j < TableAt(o, nt, d).value.count
    requires Asks(o, nt.pe32, TableAt(o, nt, d).value, j, ordinalName, dll, name)
    requires TableEntry(p, wide, dll, name).None? || TableEntry(p, wide, dll, name).value.address == 0
    requires i < |p.slots| && ML.ByName(p.slots, p.count, dll) == Some(i)
    requires EX.ByScan(p.libraries[i].img, p.libraries[i].cache, name) == Some(rva)
    ensures
      var slot, w := TableAt(o, nt, d).value.iat + P1.Nth(nt.pe32, j), P1.ThunkSize(nt.pe32);
      var img := P1.Pass1(o, nt, LoaderResolver(p, wide, ordinalName)).1;
      slot + w <= |o| && Load(img, slot, w) == Wrap(p.slots[i].base + rva, w)
  {
    hide Importable, TableAt, P1.Pass1, Asks, Load, Wrap, EX.ByScan, ML.FirstSlot, TableEntry, LoaderResolver;
    SlotHoldsAddress(o, nt, p, wide, ordinalName, d, j, dll, name);
    assert ML.Used(p.slots[i]);
  }

  // And one that the 64-bit build finds in the table under another DLL is bound to that entry.
  lemma {:induction false} StubWins(o: seq<byte>, nt: NtHeaders, p: process,
          ordinalName: (cstring, nat) -> Option<cstring>, d: nat, j: nat, dll: cstring, name: cstring, e: IT.Entry)
    requires Importable(o, nt) && P1.Pass1(o, nt, LoaderResolver(p, true, ordinalName)).0
    requires TableAt(o, nt, d).Some? && j < TableAt(o, nt, d).value.count
    requires Asks(o, nt.pe32, TableAt(o, nt, d).value, j, ordinalName, dll, name)
    requires IT.Shared(p.table) && e in p.table && e.name == name && e.address != 0
    ensures
      var slot, w := TableAt(o, nt, d).value.iat + P1.Nth(nt.pe32, j), P1.ThunkSize(nt.pe32);
      var img := P1.Pass1(o, nt, LoaderResolver(p, true, ordinalName)).1;
      slot + w <= |o| && Load(img, slot, w) == Wrap(e.address, w)
  {
    hide Importable, TableAt, P1.Pass1, Asks, Load, Wrap, LoaderResolver, IT.Shared;
    SlotHoldsAddress(o, nt, p, true, ordinalName, d, j, dll, name);
    SameAddress(p.table, e, AnyEntry(p.table, name).value);
  }
}
