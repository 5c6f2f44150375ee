/**
 The built-in import table (import_table.c) and the lookups in it (import_lookup.c):
 a linear scan by DLL and name in the 32-bit build, a binary search by name alone in
 the 64-bit build.
 */
module ImportTable {
  import opened Pe
  import opened CStrings
  import opened Sorting

  datatype Entry = Entry(dll: cstring, name: cstring, address: nat)

  predicate ByName(x: Entry, y: Entry) {
    Leq(x.name, y.name)
  }

  lemma {:induction false} ByNameTotal()
    ensures TotalPreorder(ByName)
  {
    hide Leq;
    LeqTotal();
  }

  // Sort the table by name (the 32-bit build's own insertion sort).
  method InitImportTable(table: array<Entry>)
    modifies table
    ensures table[..] == Sort(old(table[..]), ByName)
    ensures Sorted(table[..], ByName) && multiset(table[..]) == multiset(old(table[..]))
  {
    InsertionSort(table, table.Length, ByName);
    assert table[..] == table[..table.Length] && old(table[..]) == old(table[..table.Length]);
    ByNameTotal();
    SortSorts(old(table[..]), ByName);
  }

  // ---- The 32-bit scan ---------------------------------------------------------------------

  predicate Matches(e: Entry, dll: cstring, name: cstring) {
    SameName(dll, e.dll) && e.name == name
  }

  // The first entry for this DLL and name.
  function FirstMatch(s: seq<Entry>, dll: cstring, name: cstring): (r: Option<Entry>)
    ensures r.Some? <==> exists i :: 0 <= i < |s| && Matches(s[i], dll, name)
    ensures r.Some? ==> r.value in s && Matches(r.value, dll, name)
  {
    if s == [] then None
    else
      var r := FirstMatch(s[..|s| - 1], dll, name);
      if r.Some? then r else if Matches(s[|s| - 1], dll, name) then Some(s[|s| - 1]) else None
  }

  // The first match is the first match among the entries of that name.
  lemma {:induction false} FirstMatchFiltered(s: seq<Entry>, dll: cstring, name: cstring)
    ensures FirstMatch(s, dll, name) == FirstMatch(Filter(s, (e: Entry) => e.name == name), dll, name)
  {
    hide Matches;
    if s != [] {
      var p := (e: Entry) => e.name == name;
      var init, last := s[..|s| - 1], s[|s| - 1];
      FirstMatchFiltered(init, dll, name);
      if p(last) {
        var f := Filter(init, p);
        assert (f + [last])[..|f|] == f;
      } else {
        assert Filter(s, p) == Filter(init, p);
        NotNamed(last, dll, name);
      }
    }
  }

  lemma {:induction false} NotNamed(e: Entry, dll: cstring, name: cstring)
    ensures e.name != name ==> !Matches(e, dll, name)
  {
  }

  // Sorting does not change which entry the scan finds, for any DLL and name.
  lemma {:induction false} SortKeepsFirstMatch(s: seq<Entry>, dll: cstring, name: cstring)
    ensures FirstMatch(Sort(s, ByName), dll, name) == FirstMatch(s, dll, name)
  {
    hide FirstMatch, Sort, Filter;
    var p := (e: Entry) => e.name == name;
    CompareOrders(name, name);
    assert OneClass(p, ByName);
    SortStable(s, ByName, p);
    FirstMatchFiltered(s, dll, name);
    FirstMatchFiltered(Sort(s, ByName), dll, name);
  }

  method ScanTable(table: array<Entry>, dll: cstring, name: cstring) returns (r: Option<Entry>)
    ensures r == FirstMatch(table[..], dll, name)
  {
    hide FirstMatch, Compare;
    EmptyScan(dll, name);
    for i := 0 to table.Length
      invariant FirstMatch(table[..i], dll, name).None?
    {
      ScanStep(table[..], i, dll, name);
      var sameDll := StrCaseCmp(dll, table[i].dll);
      if sameDll != 0 { continue; }
      var cmp := StrCmp(name, table[i].name);
      CompareOrders(name, table[i].name);
      if cmp == 0 {
        ScanHit(table[..], i + 1, dll, name);
        return Some(table[i]);
      }
    }
    assert table[..] == table[..table.Length];
    return None;
  }

  lemma {:induction false} EmptyScan(dll: cstring, name: cstring)
    ensures FirstMatch([], dll, name).None?
  {
  }

  lemma {:induction false} ScanStep(s: seq<Entry>, i: nat, dll: cstring, name: cstring)
    requires i < |s| && FirstMatch(s[..i], dll, name).None?
    ensures FirstMatch(s[..i + 1], dll, name) == if Matches(s[i], dll, name) then Some(s[i]) else None
  {
    assert s[..i + 1][..i] == s[..i];
  }

  lemma {:induction false} ScanHit(s: seq<Entry>, i: nat, dll: cstring, name: cstring)
    requires i <= |s| && FirstMatch(s[..i], dll, name).Some?
    ensures FirstMatch(s, dll, name) == FirstMatch(s[..i], dll, name)
    decreases |s|
  {
    if i == |s| {
      assert s[..i] == s;
    } else {
      assert s[..|s| - 1][..i] == s[..i];
      ScanHit(s[..|s| - 1], i, dll, name);
    }
  }

  // ---- The 64-bit search -----------------------------------------------------------------------

  // On a sorted table the search finds an entry of the name if there is one.
  method SearchTable(table: array<Entry>, name: cstring) returns (r: Option<nat>)
    ensures r.Some? ==> r.value < table.Length && table[r.value].name == name
    ensures Sorted(table[..], ByName) && r.None? ==> forall i :: 0 <= i < table.Length ==> table[i].name != name
  {
    hide Compare;
    var lo, hi := 0, table.Length;
    ghost var s := table[..];
    while lo < hi
      invariant 0 <= lo <= hi <= table.Length
      invariant Sorted(s, ByName) ==> forall i :: 0 <= i < |s| && !(lo <= i < hi) ==> s[i].name != name
    {
      var mid := lo + (hi - lo) / 2;
      var cmp := StrCmp(name, table[mid].name);
      CompareOrders(name, table[mid].name);
      if cmp < 0 {
        Above(s, name, mid);
        hi := mid;
      } else if cmp > 0 {
        Below(s, name, mid);
        lo := mid + 1;
      } else {
        return Some(mid);
      }
    }
    return None;
  }

  lemma {:induction false} Above(s: seq<Entry>, name: cstring, mid: nat)
    requires mid < |s| && Compare(name, s[mid].name) < 0
    ensures Sorted(s, ByName) ==> forall i :: mid <= i < |s| ==> s[i].name != name
  {
    if Sorted(s, ByName) {
      forall i | mid <= i < |s| ensures s[i].name != name {
        if i > mid {
          assert ByName(s[mid], s[i]);
          CompareTransitive(name, s[mid].name, s[i].name);
        }
        CompareOrders(name, s[i].name);
      }
    }
  }

  lemma {:induction false} Below(s: seq<Entry>, name: cstring, mid: nat)
    requires mid < |s| && Compare(name, s[mid].name) > 0
    ensures Sorted(s, ByName) ==> forall i :: 0 <= i <= mid ==> s[i].name != name
  {
    CompareFlip(name, s[mid].name);
    if Sorted(s, ByName) {
      forall i | 0 <= i <= mid ensures s[i].name != name {
        if i < mid {
          assert ByName(s[i], s[mid]);
          CompareTransitive(s[i].name, s[mid].name, name);
        }
        CompareOrders(s[i].name, name);
      }
    }
  }

  // ---- The two builds agree ------------------------------------------------------------------------

  // Entries of one name have one address.
  predicate Shared(s: seq<Entry>) {
    forall i, j :: 0 <= i < |s| && 0 <= j < |s| && s[i].name == s[j].name ==> s[i].address == s[j].address
  }

  // In any sorted rearrangement of a shared table, whatever entry a search by name lands on
  // has the address of the scan's hit in the original order, for every DLL that has one.
  lemma {:induction false} SearchAgreesWithScan(s: seq<Entry>, sorted: seq<Entry>, i: nat, dll: cstring, name: cstring)
    requires multiset(sorted) == multiset(s) && Shared(s)
    requires i < |sorted| && sorted[i].name == name
    ensures forall j :: 0 <= j < |s| && s[j].name == name ==> s[j].address == sorted[i].address
    ensures FirstMatch(s, dll, name).Some? ==> FirstMatch(s, dll, name).value.address == sorted[i].address
  {
    hide FirstMatch;
    assert sorted[i] in multiset(s);
    var k :| 0 <= k < |s| && s[k] == sorted[i];
  }

  // A name the scan finds under some DLL, the search finds too.
  lemma {:induction false} SearchFindsScanned(s: seq<Entry>, sorted: seq<Entry>, dll: cstring, name: cstring)
    requires multiset(sorted) == multiset(s) && FirstMatch(s, dll, name).Some?
    ensures exists i :: 0 <= i < |sorted| && sorted[i].name == name
  {
    hide FirstMatch;
    var e := FirstMatch(s, dll, name).value;
    assert e in multiset(s);
    assert e in sorted;
  }

  // ---- Setting an address ------------------------------------------------------------------------------

  // set_import: the first entry of the name gets the address; later ones keep theirs.
  function WithAddress(s: seq<Entry>, name: cstring, address: nat): (r: seq<Entry>)
    ensures |r| == |s|
  {
    if s == [] then []
    else if s[0].name == name then [s[0].(address := address)] + s[1..]
    else [s[0]] + WithAddress(s[1..], name, address)
  }

  method SetImport(table: array<Entry>, name: cstring, address: nat)
    modifies table
    ensures table[..] == WithAddress(old(table[..]), name, address)
  {
    hide Compare, WithAddress;
    ghost var s := table[..];
    for i := 0 to table.Length
      invariant table[..] == s && forall k :: 0 <= k < i ==> s[k].name != name
    {
      var cmp := StrCmp(table[i].name, name);
      CompareOrders(table[i].name, name);
      if cmp == 0 {
        table[i] := table[i].(address := address);
        WithAddressAt(s, name, address, i);
        return;
      }
    }
    WithAddressAt(s, name, address, table.Length);
  }

  lemma {:induction false} WithAddressAt(s: seq<Entry>, name: cstring, address: nat, i: nat)
    requires i <= |s| && (forall k :: 0 <= k < i ==> s[k].name != name) && (i < |s| ==> s[i].name == name)
    ensures WithAddress(s, name, address) == if i < |s| then s[i := s[i].(address := address)] else s
  {
    if i > 0 {
      WithAddressAt(s[1..], name, address, i - 1);
      assert s == [s[0]] + s[1..];
    }
  }

  // A shared table stays shared under set_import exactly when the name occurs at most once
  // or the address does not change: a second entry of the name keeps the old address.
  lemma {:induction false} SetImportShared(s: seq<Entry>, name: cstring, address: nat, i: nat)
    requires Shared(s) && i < |s| && s[i].name == name && forall k :: 0 <= k < i ==> s[k].name != name
    ensures Shared(WithAddress(s, name, address)) <==>
      s[i].address == address || forall k :: i < k < |s| ==> s[k].name != name
  {
    hide WithAddress;
    WithAddressAt(s, name, address, i);
    var r := WithAddress(s, name, address);
    assert r == s[i := s[i].(address := address)];
    if k :| i < k < |s| && s[k].name == name {
      assert r[k] == s[k] && r[i].name == r[k].name;
    }
    if s[i].address == address { assert r == s; }
  }

  // ---- The tiers ------------------------------------------------------------------------------------------

  // Tier 1 is the table, tier 2 the exports of a loaded module (0 when there are none).
  function Resolved(entry: Option<Entry>, exported: nat): nat {
    if entry.Some? && entry.value.address != 0 then entry.value.address else exported
  }

  // Tier 1 of the 64-bit build, with tier 2's answer at hand. On a sorted, shared table every
  // entry of the name decides alike, and names absent from the table go to tier 2.
  method SearchOr(table: array<Entry>, name: cstring, exported: nat) returns (address: nat)
    ensures Sorted(table[..], ByName) && Shared(table[..]) ==>
      forall e :: e in table[..] && e.name == name ==> address == Resolved(Some(e), exported)
    ensures (forall e :: e in table[..] ==> e.name != name) ==> address == exported
  {
    var i := SearchTable(table, name);
    if i.Some? {
      assert table[i.value] in table[..];
      if table[i.value].address != 0 { return table[i.value].address; }
    }
    return exported;
  }
}
