/**
 The registry of loaded modules (module_list.c): sixteen slots, a count, and lookups
 that scan only the first `count` slots.
 */
module ModuleList {
  import opened Bytes
  import opened Pe
  import opened CStrings

  const MAX_MODULES := 16
  const NAME_SIZE := 260

  // A slot is free when its base is null; `page` is the address of its copy of the headers.
  datatype Slot = Slot(base: nat, name: cstring, size: nat, page: nat, loadCount: int)

  const ZEROED := Slot(0, [], 0, 0, 0)

  predicate Used(s: Slot) {
    s.base != 0
  }

  function UsedCount(slots: seq<Slot>): nat {
    if slots == [] then 0 else UsedCount(slots[..|slots| - 1]) + if Used(slots[|slots| - 1]) then 1 else 0
  }

  // A free slot is all zero, except that a load count may be left in it.
  predicate Blank(s: Slot) {
    s == ZEROED.(loadCount := s.loadCount)
  }

  // The count is the number of used slots, and free slots are blank.
  predicate Consistent(slots: seq<Slot>, count: int) {
    && |slots| == MAX_MODULES && count == UsedCount(slots)
    && forall i :: 0 <= i < |slots| && !Used(slots[i]) ==> Blank(slots[i])
  }

  // The used slots are exactly the first `count` ones.
  predicate Packed(slots: seq<Slot>, count: int) {
    forall i :: 0 <= i < |slots| ==> (Used(slots[i]) <==> i < count)
  }

  // ---- Counting ------------------------------------------------------------------------------

  lemma {:induction false} UsedCountUpdate(slots: seq<Slot>, i: nat, s: Slot)
    requires i < |slots|
    ensures UsedCount(slots[i := s]) ==
      UsedCount(slots) - (if Used(slots[i]) then 1 else 0) + (if Used(s) then 1 else 0)
  {
    var n := |slots| - 1;
    if i == n {
      assert slots[i := s][..n] == slots[..n];
    } else {
      assert slots[i := s][..n] == slots[..n][i := s];
      UsedCountUpdate(slots[..n], i, s);
    }
  }

  // If all slots up to i are used, i is below the count.
  lemma {:induction false} LowerUsedCount(slots: seq<Slot>, i: nat)
    requires i < |slots| && forall j :: 0 <= j <= i ==> Used(slots[j])
    ensures i < UsedCount(slots)
  {
    var n := |slots| - 1;
    if i < n {
      LowerUsedCount(slots[..n], i);
    } else if n > 0 {
      LowerUsedCount(slots[..n], n - 1);
    }
  }

  lemma {:induction false} UsedCountBound(slots: seq<Slot>, c: nat)
    requires c <= |slots| && forall i :: 0 <= i < |slots| && Used(slots[i]) ==> i < c
    ensures UsedCount(slots) <= c
    ensures UsedCount(slots) == c ==> forall i :: 0 <= i < c ==> Used(slots[i])
  {
    if slots != [] {
      var n := |slots| - 1;
      if c == |slots| {
        UsedCountBound(slots[..n], n);
        assert forall i :: 0 <= i < n ==> slots[..n][i] == slots[i];
      } else {
        UsedCountBound(slots[..n], c);
        assert forall i :: 0 <= i < n ==> slots[..n][i] == slots[i];
      }
    }
  }

  // Every module can be reached (its index is below the count) exactly when the registry is packed.
  lemma {:induction false} ReachableIffPacked(slots: seq<Slot>, count: int)
    requires Consistent(slots, count)
    ensures (forall i :: 0 <= i < |slots| && Used(slots[i]) ==> i < count) <==> Packed(slots, count)
  {
    hide UsedCount;
    if forall i :: 0 <= i < |slots| && Used(slots[i]) ==> i < count {
      UsedCountBound(slots, |slots|);
      UsedCountBound(slots, count);
    }
  }

  // Taking out one module of a packed registry leaves it packed exactly when it was the last.
  lemma {:induction false} PackedAfterRemove(slots: seq<Slot>, count: int, i: nat)
    requires Consistent(slots, count) && Packed(slots, count) && i < |slots| && Used(slots[i])
    ensures Packed(slots[i := ZEROED], count - 1) <==> i == count - 1
  {
    hide UsedCount;
    assert i < count;
    var r := slots[i := ZEROED];
    UsedCountBound(slots, |slots|);
    if i < count - 1 {
      assert !Used(r[i]);
    }
  }

  // ---- Lookups ----------------------------------------------------------------------------------

  // The first index from i below `limit` that satisfies p.
  function FirstSlot(slots: seq<Slot>, p: Slot -> bool, i: nat, limit: int): (r: Option<nat>)
    requires limit <= |slots|
    ensures r.Some? ==> i <= r.value < limit && p(slots[r.value]) && forall j :: i <= j < r.value ==> !p(slots[j])
    ensures r.None? ==> forall j :: i <= j < limit ==> !p(slots[j])
    decreases limit - i
  {
    if i >= limit then None else if p(slots[i]) then Some(i) else FirstSlot(slots, p, i + 1, limit)
  }

  function ByName(slots: seq<Slot>, count: int, name: cstring): Option<nat>
    requires count <= |slots|
  {
    FirstSlot(slots, (s: Slot) => Used(s) && SameName(s.name, name), 0, count)
  }

  // The variant that does not look at the base.
  function ByNameSafe(slots: seq<Slot>, count: int, name: cstring): Option<nat>
    requires count <= |slots|
  {
    FirstSlot(slots, (s: Slot) => SameName(s.name, name), 0, count)
  }

  predicate Holds(base: nat, size: nat, addr: nat) {
    base <= addr < base + size
  }

  function ByAddr(slots: seq<Slot>, count: int, addr: nat): Option<nat>
    requires count <= |slots|
  {
    FirstSlot(slots, (s: Slot) => Used(s) && Holds(s.base, s.size, addr), 0, count)
  }

  // No two modules overlap.
  predicate RangesApart(slots: seq<Slot>) {
    forall i, j :: 0 <= i < j < |slots| && Used(slots[i]) && Used(slots[j]) ==>
      Apart(slots[i].base, slots[i].size, slots[j].base, slots[j].size)
  }

  // An address is found exactly when it lies from the base of a module below the count up to, not
  // including, its base plus size; modules that do not overlap are each found by all their addresses.
  lemma {:induction false} AddressFinds(slots: seq<Slot>, count: int, addr: nat)
    requires count <= |slots|
    ensures ByAddr(slots, count, addr).None? <==> forall i :: 0 <= i < count && slots[i].base != 0 ==>
      addr < slots[i].base || slots[i].base + slots[i].size <= addr
    ensures RangesApart(slots) ==> forall i :: 0 <= i < count && slots[i].base != 0 ==>
      (ByAddr(slots, count, addr) == Some(i) <==> slots[i].base <= addr < slots[i].base + slots[i].size)
  {
    hide FirstSlot;
  }

  lemma {:induction false} CountInRange(slots: seq<Slot>, count: int)
    requires Consistent(slots, count)
    ensures 0 <= count <= |slots| == MAX_MODULES
  {
    UsedCountBound(slots, |slots|);
  }

  lemma {:induction false} FoldedEmpty(s: cstring)
    ensures Folded(s) == [] <==> s == []
  {
  }

  // The two lookups by name agree on every non-empty name. On the empty name they agree unless
  // a free slot below the count comes before the first module with an empty name.
  lemma {:induction false} SafeLookupAgrees(slots: seq<Slot>, count: int, name: cstring)
    requires Consistent(slots, count) && count <= |slots|
    ensures ByNameSafe(slots, count, name) == ByName(slots, count, name) <==>
      name != [] || forall i :: 0 <= i < count && !Used(slots[i]) ==>
        exists j :: 0 <= j < i && Used(slots[j]) && slots[j].name == []
  {
    hide UsedCount, FirstSlot;
    FoldedEmpty(name);
    forall i | 0 <= i < |slots| ensures SameName(slots[i].name, []) <==> slots[i].name == [] {
      FoldedEmpty(slots[i].name);
    }
    var a, b := ByName(slots, count, name), ByNameSafe(slots, count, name);
    if name == [] {
      if b.Some? && !Used(slots[b.value]) {
        assert a != b;
      }
    }
  }

  // In a packed registry every module is found under its own name.
  lemma {:induction false} PackedLookupComplete(slots: seq<Slot>, count: int, i: nat)
    requires Consistent(slots, count) && count <= |slots| && i < |slots| && Used(slots[i]) && Packed(slots, count)
    ensures
      var r := ByName(slots, count, slots[i].name);
      r.Some? && Used(slots[r.value]) && SameName(slots[r.value].name, slots[i].name)
  {
    hide UsedCount, FirstSlot;
  }

  // The first free slot, if any.
  function FirstFree(slots: seq<Slot>): Option<nat> {
    FirstSlot(slots, (s: Slot) => !Used(s), 0, |slots|)
  }

  // Registering in a packed registry takes the slot after the last one and keeps it packed.
  lemma {:induction false} PackedAfterAdd(slots: seq<Slot>, count: int, s: Slot)
    requires Packed(slots, count) && 0 <= count <= |slots| && Used(s)
    ensures
      var i := FirstFree(slots);
      (i.Some? <==> count < |slots|) && (i.Some? ==> i.value == count && Packed(slots[i.value := s], count + 1))
  {
    hide FirstSlot;
    var i := FirstFree(slots);
    assert i.Some? ==> forall j :: 0 <= j < i.value ==> Used(slots[j]);
    if count < |slots| {
      assert !Used(slots[count]);
    }
  }

  // ---- Loading once -----------------------------------------------------------------------------------

  // No two modules have the same name, up to case.
  predicate Once(slots: seq<Slot>) {
    forall i, j :: 0 <= i < j < |slots| && Used(slots[i]) && Used(slots[j]) ==> !SameName(slots[i].name, slots[j].name)
  }

  predicate Fresh(slots: seq<Slot>, name: cstring) {
    forall i :: 0 <= i < |slots| && Used(slots[i]) ==> !SameName(slots[i].name, name)
  }

  // The lookup misses a name although a module has it exactly when all such modules lie at or
  // beyond the count.
  lemma {:induction false} MissedExactly(slots: seq<Slot>, count: int, name: cstring)
    requires count <= |slots|
    ensures ByName(slots, count, name).None? <==>
      forall i :: 0 <= i < |slots| && Used(slots[i]) && SameName(slots[i].name, name) ==> i >= count
  {
    hide FirstSlot;
  }

  // With distinct names, every module is found under its own name, so that none is loaded a
  // second time, exactly when the registry is packed.
  lemma {:induction false} OnceExactly(slots: seq<Slot>, count: int)
    requires Consistent(slots, count) && count <= |slots| && Once(slots)
    ensures (forall i :: 0 <= i < |slots| && Used(slots[i]) ==> ByName(slots, count, slots[i].name).Some?) <==>
      Packed(slots, count)
  {
    hide FirstSlot, UsedCount;
    ReachableIffPacked(slots, count);
    forall i | 0 <= i < |slots| && Used(slots[i])
      ensures ByName(slots, count, slots[i].name).Some? <==> i < count
    {
      MissedExactly(slots, count, slots[i].name);
    }
  }

  // In a packed registry a name the lookup misses is the name of no module.
  lemma {:induction false} MissedIsFresh(slots: seq<Slot>, count: int, name: cstring)
    requires Packed(slots, count) && count <= |slots| && ByName(slots, count, name).None?
    ensures Fresh(slots, name)
  {
    hide FirstSlot;
    MissedExactly(slots, count, name);
  }

  // ---- Whole runs ----------------------------------------------------------------------------------

  // remove_module: slots from the count on are out of its reach.
  function Removed(slots: seq<Slot>, i: nat): (r: seq<Slot>)
    requires i < |slots|
    ensures |r| == |slots|
  {
    if i < UsedCount(slots) then slots[i := ZEROED] else slots
  }

  // Register a module, or remove the one registered last.
  datatype Change = Register(s: Slot) | RemoveLast

  // The slots and the registered modules' indices, oldest first.
  datatype History = History(slots: seq<Slot>, stack: seq<nat>)

  function Step(h: History, c: Change): History
    requires forall k :: 0 <= k < |h.stack| ==> h.stack[k] < |h.slots|
    ensures forall k :: 0 <= k < |Step(h, c).stack| ==> Step(h, c).stack[k] < |Step(h, c).slots|
  {
    match c
    case Register(s) =>
      var i := FirstFree(h.slots);
      if i.None? then h else History(h.slots[i.value := s], h.stack + [i.value])
    case RemoveLast =>
      if h.stack == [] then h
      else History(Removed(h.slots, h.stack[|h.stack| - 1]), h.stack[..|h.stack| - 1])
  }

  function Run(changes: seq<Change>): (h: History)
    ensures forall k :: 0 <= k < |h.stack| ==> h.stack[k] < |h.slots|
  {
    if changes == [] then History(seq(MAX_MODULES, _ => ZEROED), [])
    else Step(Run(changes[..|changes| - 1]), changes[|changes| - 1])
  }

  // Registered modules occupy slots 0, 1, 2, ... in the order of registration.
  predicate Stacked(h: History) {
    && Consistent(h.slots, |h.stack|) && Packed(h.slots, |h.stack|)
    && forall k :: 0 <= k < |h.stack| ==> h.stack[k] == k
  }

  lemma {:induction false} StepStacked(h: History, c: Change)
    requires Stacked(h) && (c.Register? ==> Used(c.s)) && forall k :: 0 <= k < |h.stack| ==> h.stack[k] < |h.slots|
    ensures Stacked(Step(h, c))
  {
    hide UsedCount, FirstSlot;
    match c
    case Register(s) =>
      var i := FirstFree(h.slots);
      CountInRange(h.slots, |h.stack|);
      PackedAfterAdd(h.slots, |h.stack|, s);
      if i.Some? { UsedCountUpdate(h.slots, i.value, s); }
    case RemoveLast =>
      if h.stack != [] {
        var i := h.stack[|h.stack| - 1];
        UsedCountUpdate(h.slots, i, ZEROED);
      }
  }

  // Over every run that removes modules last in, first out, the count is the number of
  // occupied slots and these are exactly a prefix, so lookups miss no module.
  lemma {:induction false} LifoRunPacked(changes: seq<Change>)
    requires forall c :: c in changes && c.Register? ==> Used(c.s)
    ensures Stacked(Run(changes))
  {
    hide UsedCount, Step;
    if changes == [] {
      NoneUsed(Run(changes).slots);
    } else {
      var last := changes[|changes| - 1];
      assert last in changes;
      LifoRunPacked(changes[..|changes| - 1]);
      StepStacked(Run(changes[..|changes| - 1]), last);
    }
  }

  // Any other removal from a packed registry hides the last module: no lookup returns it, and
  // removing it does nothing.
  lemma {:induction false} EarlyRemovalHides(slots: seq<Slot>, count: int, i: nat, name: cstring, addr: nat)
    requires Consistent(slots, count) && Packed(slots, count) && count <= |slots| && i < count - 1
    ensures
      var slots', count', last := Removed(slots, i), count - 1, count - 1;
      && Consistent(slots', count') && Used(slots'[last])
      && ByName(slots', count', name) != Some(last) && ByNameSafe(slots', count', name) != Some(last)
      && ByAddr(slots', count', addr) != Some(last) && Removed(slots', last) == slots'
  {
    hide UsedCount, FirstSlot;
    UsedCountUpdate(slots, i, ZEROED);
  }

  // With distinct names both lookups then miss the hidden module's name, so it would be loaded
  // a second time.
  lemma {:induction false} EarlyRemovalReloads(slots: seq<Slot>, count: int, i: nat)
    requires Consistent(slots, count) && Packed(slots, count) && Once(slots) && count <= |slots| && i < count - 1
    ensures
      var slots', count', name := Removed(slots, i), count - 1, slots[count - 1].name;
      ByName(slots', count', name).None? && (name != [] ==> ByNameSafe(slots', count', name).None?)
  {
    hide UsedCount, FirstSlot;
    UsedCountUpdate(slots, i, ZEROED);
    FoldedEmpty(slots[count - 1].name);
    FoldedEmpty([]);
  }

  // ---- The registry object -------------------------------------------------------------------------

  class Registry {
    const slots: array<Slot>
    var count: int

    ghost predicate Valid()
      reads this, slots
    {
      Consistent(slots[..], count)
    }

    constructor ()
      ensures Valid() && fresh(slots) && count == 0
      ensures slots.Length == 16 && forall i :: 0 <= i < slots.Length ==> slots[i] == Slot(0, [], 0, 0, 0)
    {
      slots := new Slot[MAX_MODULES](_ => ZEROED);
      count := 0;
      new;
      NoneUsed(slots[..]);
    }

    // Take the first free slot. The registry stays consistent unless a null base is counted.
    method AddModule(base: nat, name: cstring, size: nat, page: nat) returns (r: Option<nat>)
      requires Valid()
      modifies this, slots
      ensures r == FirstFree(old(slots[..])) && (Valid() <==> r.None? || base != 0)
      ensures r.None? ==> slots[..] == old(slots[..]) && count == old(count)
      ensures r.Some? ==>
        && slots[..] == old(slots[..])[r.value := Slot(base, Truncated(name, 260), size, page, 1)]
        && count == old(count) + 1
    {
      hide UsedCount, FirstSlot;
      for i := 0 to MAX_MODULES
        invariant forall j :: 0 <= j < i ==> Used(slots[j])
        invariant slots[..] == old(slots[..]) && count == old(count)
      {
        if !Used(slots[i]) {
          var s := Slot(base, Truncated(name, NAME_SIZE), size, page, 1);
          UsedCountUpdate(slots[..], i, s);
          slots[i] := s;
          count := count + 1;
          return Some(i);
        }
      }
      return None;
    }

    // Only the first `count` slots are searched; a module beyond them is left alone. The
    // registry stays consistent unless a free slot is counted off.
    method RemoveModule(i: nat)
      requires Valid() && i < MAX_MODULES
      modifies this, slots
      ensures Valid() <==> i >= old(count) || Used(old(slots[i]))
      ensures slots[..] == Removed(old(slots[..]), i)
      ensures i < old(count) ==> slots[..] == old(slots[..])[i := ZEROED] && count == old(count) - 1
      ensures i >= old(count) ==> slots[..] == old(slots[..]) && count == old(count)
    {
      hide UsedCount;
      CountInRange(slots[..], count);
      for j := 0 to count
        invariant i >= j && slots[..] == old(slots[..])
      {
        if j == i {
          UsedCountUpdate(slots[..], i, ZEROED);
          slots[i] := ZEROED;
          count := count - 1;
          return;
        }
      }
    }

    method FindModuleByName(name: cstring) returns (r: Option<nat>)
      requires Valid()
      ensures count <= slots.Length && r == ByName(slots[..], count, name)
    {
      hide UsedCount, FirstSlot;
      CountInRange(slots[..], count);
      for i := 0 to count
        invariant forall j :: 0 <= j < i ==> !(Used(slots[j]) && SameName(slots[j].name, name))
      {
        if Used(slots[i]) {
          var cmp := StrCaseCmp(slots[i].name, name);
          if cmp == 0 { return Some(i); }
        }
      }
      return None;
    }

    method FindModuleByNameSafe(name: cstring) returns (r: Option<nat>)
      requires Valid()
      ensures count <= slots.Length && r == ByNameSafe(slots[..], count, name) && (r.Some? ==> r.value < count)
    {
      hide UsedCount, FirstSlot;
      CountInRange(slots[..], count);
      for i := 0 to count
        invariant forall j :: 0 <= j < i ==> !SameName(slots[j].name, name)
      {
        var cmp := StrCaseCmp(slots[i].name, name);
        if cmp == 0 { return Some(i); }
      }
      return None;
    }

    method FindModuleByAddr(addr: nat) returns (r: Option<nat>)
      requires Valid()
      ensures count <= slots.Length && r == ByAddr(slots[..], count, addr)
      ensures r.Some? ==> r.value < count && Used(slots[..][r.value])
    {
      hide UsedCount, FirstSlot;
      CountInRange(slots[..], count);
      for i := 0 to count
        invariant forall j :: 0 <= j < i ==> !(Used(slots[j]) && Holds(slots[j].base, slots[j].size, addr))
      {
        if Used(slots[i]) && Holds(slots[i].base, slots[i].size, addr) { return Some(i); }
      }
      return None;
    }
  }

  lemma {:induction false} NoneUsed(slots: seq<Slot>)
    requires forall i :: 0 <= i < |slots| ==> slots[i] == ZEROED
    ensures UsedCount(slots) == 0
  {
    if slots != [] { NoneUsed(slots[..|slots| - 1]); }
  }
}
