/**
 The registry value store (advapi32_registry.c): 64 slots searched by path and name, whose
 fixed-size fields cut long strings and data.  The slots refine a map of at most 64 values.
 */
module RegistryValues {
  import opened Bytes
  import opened Pe
  import opened CStrings

  const SLOTS := 64
  const PATH_SIZE := 256
  const NAME_SIZE := 128
  const DATA_SIZE := 512
  const BACKSLASH: byte := 92
  const REG_SZ := 1

  // Windows error codes.
  const OK := 0
  const NOT_FOUND := 2
  const NO_ROOM := 8
  const MORE_DATA := 234

  // A value: its buffer always has DATA_SIZE bytes, of which the first `size` are the data.
  datatype Cell = Cell(kind: nat, data: seq<byte>, size: nat)

  datatype Slot = Slot(used: bool, path: cstring, name: cstring, cell: Cell)

  const EMPTY: Cell := Cell(0, Zeros(DATA_SIZE), 0)
  const ZEROED: Slot := Slot(false, [], [], EMPTY)

  predicate CellShaped(c: Cell) {
    |c.data| == DATA_SIZE && c.size <= DATA_SIZE
  }

  // Every field fits its buffer.
  predicate Shaped(slots: seq<Slot>) {
    forall i :: 0 <= i < |slots| ==>
      |slots[i].path| < PATH_SIZE && |slots[i].name| < NAME_SIZE && CellShaped(slots[i].cell)
  }

  predicate Matches(s: Slot, path: cstring, name: cstring) {
    s.used && s.path == path && s.name == name
  }

  // No two used slots have the same key.
  predicate Unique(slots: seq<Slot>) {
    forall i, j :: 0 <= i < j < |slots| && slots[j].used ==> !Matches(slots[i], slots[j].path, slots[j].name)
  }

  // ---- Key paths -----------------------------------------------------------------------

  function Joined(prefix: cstring, subkey: cstring): cstring {
    Truncated(if subkey == [] then prefix else prefix + [BACKSLASH] + subkey, PATH_SIZE)
  }

  // Opening a subkey of a subkey is opening the joined subkey: cutting at 255 bytes on the way
  // changes nothing.
  lemma {:induction false} JoinNested(prefix: cstring, first: cstring, second: cstring)
    requires first != [] && second != []
    ensures 0 !in first + [BACKSLASH] + second
    ensures Joined(Joined(prefix, first), second) == Joined(prefix, first + [BACKSLASH] + second)
  {
    var whole := prefix + [BACKSLASH] + first;
    var tail := [BACKSLASH] + second;
    assert Joined(prefix, first) + [BACKSLASH] + second == Joined(prefix, first) + tail;
    assert prefix + [BACKSLASH] + (first + [BACKSLASH] + second) == whole + tail;
    CutTwice(whole, tail);
  }

  lemma {:induction false} CutTwice(a: cstring, b: cstring)
    ensures Truncated(Truncated(a, PATH_SIZE) + b, PATH_SIZE) == Truncated(a + b, PATH_SIZE)
  {
    if |a| >= PATH_SIZE {
      assert (a + b)[..PATH_SIZE - 1] == a[..PATH_SIZE - 1];
      assert (a[..PATH_SIZE - 1] + b)[..PATH_SIZE - 1] == a[..PATH_SIZE - 1];
    }
  }

  // A buffer that holds the front of the joined text, cut where the buffer ends.
  lemma {:induction false} JoinedFront(text: cstring, n: nat)
    requires n <= |text| && n < PATH_SIZE && (n == |text| || n == PATH_SIZE - 1)
    ensures text[..n] == Truncated(text, PATH_SIZE)
  {
  }

  lemma {:induction false} OneMore(text: seq<byte>, n: nat)
    requires n < |text|
    ensures text[..n] + [text[n]] == text[..n + 1]
  {
  }

  method JoinPath(prefix: cstring, subkey: Option<cstring>) returns (out: cstring)
    ensures out == Joined(prefix, if subkey.Some? then subkey.value else [])
    ensures
      var text := if subkey.None? || subkey.value == [] then prefix else prefix + [0x5C] + subkey.value;
      out == if |text| <= 255 then text else text[..255]
  {
    hide Truncated;
    var buffer: seq<byte>, i := [], 0;
    while i < |prefix| && i + 1 < PATH_SIZE
      invariant 0 <= i <= |prefix| && i < PATH_SIZE && buffer == prefix[..i]
    {
      OneMore(prefix, i);
      buffer := buffer + [prefix[i]];
      i := i + 1;
    }
    if subkey.None? || subkey.value == [] {
      JoinedFront(prefix, i);
      return buffer;
    }
    ghost var text: cstring := prefix + [BACKSLASH] + subkey.value;
    assert prefix[..i] == text[..i];
    if i + 1 < PATH_SIZE {
      OneMore(text, i);
      buffer := buffer + [BACKSLASH];
      i := i + 1;
    }
    var j := 0;
    while j < |subkey.value| && i + 1 < PATH_SIZE
      invariant 0 <= j <= |subkey.value| && i < PATH_SIZE && i <= |text| && buffer == text[..i]
      invariant i == |prefix| + 1 + j || i == PATH_SIZE - 1
    {
      OneMore(text, i);
      buffer := buffer + [subkey.value[j]];
      i, j := i + 1, j + 1;
    }
    JoinedFront(text, i);
    return buffer;
  }

  // ---- Searching -----------------------------------------------------------------------

  function Find(slots: seq<Slot>, path: cstring, name: cstring, i: nat): (r: Option<nat>)
    ensures r.Some? ==> i <= r.value < |slots| && Matches(slots[r.value], path, name)
    ensures r.None? ==> forall j :: i <= j < |slots| ==> !Matches(slots[j], path, name)
    decreases |slots| - i
  {
    if i >= |slots| then None else if Matches(slots[i], path, name) then Some(i) else Find(slots, path, name, i + 1)
  }

  function FindFree(slots: seq<Slot>, i: nat): (r: Option<nat>)
    ensures r.Some? ==> i <= r.value < |slots| && !slots[r.value].used
    ensures r.None? ==> forall j :: i <= j < |slots| ==> slots[j].used
    decreases |slots| - i
  {
    if i >= |slots| then None else if !slots[i].used then Some(i) else FindFree(slots, i + 1)
  }

  // ---- The operations on the slots -----------------------------------------------------

  // The slot for a key: the one that has it, or a free one claimed for the key as its fixed
  // fields hold it.
  function Ensure(slots: seq<Slot>, path: cstring, name: cstring): (r: Option<(nat, seq<Slot>)>)
    ensures r.Some? ==> r.value.0 < |slots| == |r.value.1|
  {
    var found, free := Find(slots, path, name, 0), FindFree(slots, 0);
    if found.Some? then Some((found.value, slots))
    else if free.None? then None
    else Some((free.value,
      slots[free.value := Slot(true, Truncated(path, PATH_SIZE), Truncated(name, NAME_SIZE), EMPTY)]))
  }

  function Cut(n: nat): nat {
    if n > DATA_SIZE then DATA_SIZE else n
  }

  // Overwrite the front of the buffer, or only its size when no data is given.
  function Filled(c: Cell, kind: nat, data: Option<seq<byte>>, n: nat): (r: Cell)
    requires CellShaped(c) && (data.Some? ==> n <= |data.value|)
    ensures CellShaped(r)
  {
    Cell(if kind == 0 then REG_SZ else kind,
         if data.Some? then data.value[..Cut(n)] + c.data[Cut(n)..] else c.data,
         Cut(n))
  }

  function Write(slots: seq<Slot>, i: nat, kind: nat, data: Option<seq<byte>>, n: nat): (r: seq<Slot>)
    requires i < |slots| && Shaped(slots) && (data.Some? ==> n <= |data.value|)
    ensures Shaped(r) && |r| == |slots|
  {
    slots[i := slots[i].(cell := Filled(slots[i].cell, kind, data, n))]
  }

  function Set(slots: seq<Slot>, path: cstring, name: cstring, kind: nat, data: Option<seq<byte>>,
          n: nat): (r: (nat, seq<Slot>))
    requires Shaped(slots) && (data.Some? ==> n <= |data.value|)
    ensures Shaped(r.1) && |r.1| == |slots|
  {
    var e := Ensure(slots, path, name);
    if e.None? then (NO_ROOM, slots)
    else (OK, Write(e.value.1, e.value.0, kind, data, n))
  }

  // What a query reports: the code, the type, the size written back and the bytes copied out.
  datatype Answer = Answer(rc: nat, kind: Option<nat>, size: Option<nat>, data: Option<seq<byte>>)

  function Report(c: Cell, room: Option<nat>, buffer: bool): Answer
    requires CellShaped(c)
  {
    if room.None? then Answer(OK, Some(c.kind), None, None)
    else if !buffer || room.value < c.size then Answer(MORE_DATA, Some(c.kind), Some(c.size), None)
    else Answer(OK, Some(c.kind), Some(c.size), Some(c.data[..c.size]))
  }

  function Delete(slots: seq<Slot>, path: cstring): (r: seq<Slot>)
    ensures |r| == |slots|
    ensures forall i :: 0 <= i < |slots| ==> r[i] == if slots[i].used && slots[i].path == path then ZEROED else slots[i]
  {
    seq(|slots|, i requires 0 <= i < |slots| => if slots[i].used && slots[i].path == path then ZEROED else slots[i])
  }

  // ---- The map of values ---------------------------------------------------------------

  type Key = (cstring, cstring)
  type Values = m: map<Key, Cell> | forall k :: k in m ==> CellShaped(m[k])

  // The map the slots stand for.
  ghost function Contents(slots: seq<Slot>): (m: Values)
    requires Shaped(slots) && Unique(slots)
    ensures forall i :: 0 <= i < |slots| && slots[i].used ==>
      (slots[i].path, slots[i].name) in m && m[(slots[i].path, slots[i].name)] == slots[i].cell
    ensures forall k :: k in m ==> exists i :: 0 <= i < |slots| && Matches(slots[i], k.0, k.1)
  {
    map i | 0 <= i < |slots| && slots[i].used :: (slots[i].path, slots[i].name) := slots[i].cell
  }

  function MapSet(m: Values, key: Key, kind: nat, data: Option<seq<byte>>, n: nat): (nat, Values)
    requires data.Some? ==> n <= |data.value|
  {
    if key !in m && |m| >= SLOTS then (NO_ROOM, m)
    else (OK, m[key := Filled(if key in m then m[key] else EMPTY, kind, data, n)])
  }

  function MapQuery(m: Values, key: Key, room: Option<nat>, buffer: bool): Answer {
    if key in m then Report(m[key], room, buffer) else Answer(NOT_FOUND, None, room, None)
  }

  function MapDelete(m: Values, path: cstring): Values {
    map k | k in m && k.0 != path :: m[k]
  }

  // ---- Refinement ----------------------------------------------------------------------

  lemma {:induction false} FindIsLookup(slots: seq<Slot>, path: cstring, name: cstring)
    requires Shaped(slots) && Unique(slots)
    ensures
      var r := Find(slots, path, name, 0);
      && (r.Some? <==> (path, name) in Contents(slots))
      && (r.Some? ==> Contents(slots)[(path, name)] == slots[r.value].cell)
  {
    hide Find, Contents, Shaped, Unique;
  }

  ghost function KeysOf(slots: seq<Slot>): set<Key> {
    if slots == [] then {}
    else if slots[|slots| - 1].used
      then KeysOf(slots[..|slots| - 1]) + {(slots[|slots| - 1].path, slots[|slots| - 1].name)}
    else KeysOf(slots[..|slots| - 1])
  }

  lemma {:induction false} KeyMember(slots: seq<Slot>, k: Key)
    ensures k in KeysOf(slots) <==> exists i :: 0 <= i < |slots| && Matches(slots[i], k.0, k.1)
  {
    if slots == [] {
    } else {
      var n := |slots| - 1;
      KeyMember(slots[..n], k);
      assert forall i :: 0 <= i < n ==> slots[..n][i] == slots[i];
      assert k in KeysOf(slots) <==> k in KeysOf(slots[..n]) || Matches(slots[n], k.0, k.1);
    }
  }

  lemma {:induction false} UniquePrefix(slots: seq<Slot>, n: nat)
    requires Unique(slots) && n < |slots|
    ensures Unique(slots[..n])
    ensures slots[n].used ==> (slots[n].path, slots[n].name) !in KeysOf(slots[..n])
  {
    hide KeysOf;
    KeyMember(slots[..n], (slots[n].path, slots[n].name));
  }

  lemma {:induction false} KeysFill(slots: seq<Slot>)
    requires Unique(slots)
    ensures |KeysOf(slots)| <= |slots|
    ensures |KeysOf(slots)| == |slots| <==> forall i :: 0 <= i < |slots| ==> slots[i].used
  {
    hide Unique, Matches;
    if slots == [] {
    } else {
      var n := |slots| - 1;
      UniquePrefix(slots, n);
      KeysFill(slots[..n]);
      assert forall i :: 0 <= i < n ==> slots[..n][i] == slots[i];
    }
  }

  lemma {:induction false} ContentsKeys(slots: seq<Slot>)
    requires Shaped(slots) && Unique(slots)
    ensures Contents(slots).Keys == KeysOf(slots)
  {
    hide Contents, KeysOf, Shaped, Unique;
    forall k: Key ensures k in Contents(slots) <==> k in KeysOf(slots) {
      KeyMember(slots, k);
    }
  }

  // The map holds as many values as slots exactly when no slot is free.
  lemma {:induction false} ContentsFull(slots: seq<Slot>)
    requires Shaped(slots) && Unique(slots)
    ensures |Contents(slots)| <= |slots|
    ensures |Contents(slots)| == |slots| <==> forall i :: 0 <= i < |slots| ==> slots[i].used
  {
    hide Contents, KeysOf;
    KeysFill(slots);
    ContentsKeys(slots);
  }

  // Replacing the slot of a key, or claiming a free one for a new key, keeps the keys unique.
  lemma {:induction false} SlotUnique(slots: seq<Slot>, slots': seq<Slot>, i: nat, path: cstring, name: cstring)
    requires Unique(slots) && i < |slots| == |slots'| && slots' == slots[i := slots'[i]]
    requires Matches(slots'[i], path, name)
    requires Matches(slots[i], path, name) || forall j :: 0 <= j < |slots| ==> !Matches(slots[j], path, name)
    ensures Unique(slots')
    ensures forall j :: 0 <= j < |slots'| && j != i ==> slots'[j] == slots[j] && !Matches(slots'[j], path, name)
  {
  }

  // ... and updates that key alone.
  lemma {:induction false} SlotUpdates(slots: seq<Slot>, slots': seq<Slot>, i: nat, path: cstring, name: cstring)
    requires Shaped(slots) && Unique(slots) && Shaped(slots') && Unique(slots') && i < |slots| == |slots'|
    requires Matches(slots'[i], path, name) && (!slots[i].used || Matches(slots[i], path, name))
    requires forall j :: 0 <= j < |slots'| && j != i ==> slots'[j] == slots[j] && !Matches(slots'[j], path, name)
    ensures Contents(slots') == Contents(slots)[(path, name) := slots'[i].cell]
  {
    hide Contents, Shaped, Unique;
    var was, now := Contents(slots), Contents(slots');
    var key := (path, name);
    forall k | k in now ensures k == key || (k in was && now[k] == was[k]) {
      var j :| 0 <= j < |slots'| && Matches(slots'[j], k.0, k.1);
    }
    forall k | k in was && k != key ensures k in now {
      var j :| 0 <= j < |slots| && Matches(slots[j], k.0, k.1);
    }
  }

  // Setting a value whose name fits its field is one update of the map: it fails exactly when
  // the key is absent and the map is full, and it touches no other key.
  lemma {:induction false} SetRefines(slots: seq<Slot>, path: cstring, name: cstring, kind: nat,
          data: Option<seq<byte>>, n: nat)
    requires Shaped(slots) && Unique(slots) && |slots| == SLOTS && |path| < PATH_SIZE && |name| < NAME_SIZE
    requires data.Some? ==> n <= |data.value|
    ensures
      var (rc, slots') := Set(slots, path, name, kind, data, n);
      Unique(slots') && (rc, Contents(slots')) == MapSet(Contents(slots), (path, name), kind, data, n)
  {
    hide Find, FindFree, Contents, Filled, Shaped, Unique;
    FindIsLookup(slots, path, name);
    ContentsFull(slots);
    var (rc, slots') := Set(slots, path, name, kind, data, n);
    if rc == OK {
      var i := Ensure(slots, path, name).value.0;
      SlotUnique(slots, slots', i, path, name);
      SlotUpdates(slots, slots', i, path, name);
    }
  }

  lemma {:induction false} DeleteKeeps(slots: seq<Slot>, path: cstring)
    requires Shaped(slots) && Unique(slots)
    ensures Shaped(Delete(slots, path)) && Unique(Delete(slots, path))
  {
    hide Delete;
  }

  // Deleting a key removes exactly the values with its path.
  lemma {:induction false} DeleteRefines(slots: seq<Slot>, path: cstring)
    requires Shaped(slots) && Unique(slots)
    ensures Shaped(Delete(slots, path)) && Unique(Delete(slots, path))
    ensures Contents(Delete(slots, path)) == MapDelete(Contents(slots), path)
  {
    hide Delete, Contents, Shaped, Unique;
    DeleteKeeps(slots, path);
    var slots' := Delete(slots, path);
    var was, now := Contents(slots), Contents(slots');
    forall k | k in now ensures k in was && k.0 != path && now[k] == was[k] {
      var j :| 0 <= j < |slots'| && Matches(slots'[j], k.0, k.1);
    }
    forall k | k in was && k.0 != path ensures k in now {
      var j :| 0 <= j < |slots| && Matches(slots[j], k.0, k.1);
      assert slots'[j] == slots[j];
    }
  }

  // ---- Whole runs ----------------------------------------------------------------------

  datatype Action =
    | SetValue(path: cstring, name: cstring, kind: nat, data: Option<seq<byte>>, n: nat)
    | DeleteKey(path: cstring)
  {
    predicate Sound() {
      SetValue? && data.Some? ==> n <= |data.value|
    }

    // Both strings fit their fields; a key's path always does.
    predicate Fits() {
      SetValue? ==> |path| < PATH_SIZE && |name| < NAME_SIZE
    }
  }

  function Perform(slots: seq<Slot>, a: Action): (r: seq<Slot>)
    requires Shaped(slots) && a.Sound()
    ensures Shaped(r) && |r| == |slots|
  {
    match a
    case SetValue(path, name, kind, data, n) => Set(slots, path, name, kind, data, n).1
    case DeleteKey(path) => Delete(slots, path)
  }

  function MapPerform(m: Values, a: Action): Values
    requires a.Sound()
  {
    match a
    case SetValue(path, name, kind, data, n) => MapSet(m, (path, name), kind, data, n).1
    case DeleteKey(path) => MapDelete(m, path)
  }

  function Run(actions: seq<Action>): (r: seq<Slot>)
    requires forall a :: a in actions ==> a.Sound()
    ensures Shaped(r) && |r| == SLOTS
  {
    if actions == [] then seq(SLOTS, _ => ZEROED)
    else Perform(Run(actions[..|actions| - 1]), actions[|actions| - 1])
  }

  function MapRun(actions: seq<Action>): Values
    requires forall a :: a in actions ==> a.Sound()
  {
    if actions == [] then map[]
    else MapPerform(MapRun(actions[..|actions| - 1]), actions[|actions| - 1])
  }

  // After any run of calls whose names fit, the slots have unique keys and stand for the map
  // the same calls build, and every query answers from that map.
  lemma {:induction false} RunRefines(actions: seq<Action>)
    requires forall a :: a in actions ==> a.Sound() && a.Fits()
    ensures Unique(Run(actions)) && Contents(Run(actions)) == MapRun(actions) && |MapRun(actions)| <= 64
  {
    hide Contents, Shaped, Unique, Set, MapSet, Delete, MapDelete;
    if actions == [] {
      EmptyContents();
    } else {
      var before := actions[..|actions| - 1];
      RunRefines(before);
      var last := actions[|actions| - 1];
      assert last in actions;
      match last
      case SetValue(path, name, kind, data, n) => SetRefines(Run(before), path, name, kind, data, n);
      case DeleteKey(path) => DeleteRefines(Run(before), path);
    }
    ContentsFull(Run(actions));
  }

  lemma {:induction false} EmptyContents()
    ensures var slots := seq(SLOTS, _ => ZEROED); Shaped(slots) && Unique(slots) && Contents(slots) == map[]
  {
  }

  // ---- Set, then query ------------------------------------------------------------------

  // What was set is read back: its type (a string when none is given) and its first 512 bytes; every
  // other key answers as it did before. A 65th key is refused and changes nothing.
  lemma {:induction false} SetThenQuery(m: Values, key: Key, kind: nat, data: seq<byte>, room: nat, other: Key)
    requires (room >= |data| || room >= 512) && other != key
    ensures key !in m && |m| >= 64 ==> MapSet(m, key, kind, Some(data), |data|) == (8, m)
    ensures key in m || |m| < 64 ==>
      var (rc, m') := MapSet(m, key, kind, Some(data), |data|);
      var n := if |data| <= 512 then |data| else 512;
      && rc == 0
      && MapQuery(m', key, Some(room), true) ==
          Answer(0, Some(if kind == 0 then 1 else kind), Some(n), Some(data[..n]))
      && forall r, b :: MapQuery(m', other, r, b) == MapQuery(m, other, r, b)
  {
    var m' := MapSet(m, key, kind, Some(data), |data|).1;
    assert key in m || |m| < 64 ==> m'[key].data[..m'[key].size] == data[..Cut(|data|)];
  }

  // Error 2 for a missing value, the size alone with error 234 when there is no room for the data, and
  // only the type when no size is asked for.
  lemma {:induction false} QueryCodes(m: Values, key: Key, room: nat, buffer: bool)
    ensures key !in m ==> MapQuery(m, key, Some(room), buffer) == Answer(2, None, Some(room), None)
    ensures key !in m ==> MapQuery(m, key, None, buffer) == Answer(2, None, None, None)
    ensures key in m ==>
      var c := m[key];
      && MapQuery(m, key, None, buffer) == Answer(0, Some(c.kind), None, None)
      && (MapQuery(m, key, Some(room), buffer).data.Some? <==> buffer && room >= c.size)
      && (!buffer || room < c.size ==>
          MapQuery(m, key, Some(room), buffer) == Answer(234, Some(c.kind), Some(c.size), None))
  {
  }

  // A value that was set can be found again under its name exactly when the name fits its
  // field; a longer name is stored cut, so it is never found.
  lemma {:induction false} SetThenFind(slots: seq<Slot>, path: cstring, name: cstring, kind: nat,
          data: Option<seq<byte>>, n: nat)
    requires Shaped(slots) && |path| < PATH_SIZE && (data.Some? ==> n <= |data.value|)
    ensures
      var (rc, slots') := Set(slots, path, name, kind, data, n);
      rc == 0 ==> (Find(slots', path, name, 0).Some? <==> |name| < 128)
  {
    hide Find, FindFree, Filled;
    var (rc, slots') := Set(slots, path, name, kind, data, n);
    if rc == OK {
      var i := Ensure(slots, path, name).value.0;
      var stored := slots'[i].name;
      assert stored == Truncated(name, NAME_SIZE) || stored == name;
      assert |name| < NAME_SIZE ==> Matches(slots'[i], path, name);
    }
  }

  // One call keeps the keys unique exactly when the name fits its field, there is no room, or no
  // slot has the key as the field cuts it.
  lemma {:induction false} SetUniqueExactly(slots: seq<Slot>, path: cstring, name: cstring, kind: nat,
          data: Option<seq<byte>>, n: nat)
    requires Shaped(slots) && Unique(slots) && |path| < PATH_SIZE && (data.Some? ==> n <= |data.value|)
    ensures
      var (rc, slots') := Set(slots, path, name, kind, data, n);
      Unique(slots') <==>
        || |name| < NAME_SIZE || rc == NO_ROOM
        || forall i :: 0 <= i < |slots| ==> !Matches(slots[i], path, Truncated(name, NAME_SIZE))
  {
    hide Find, FindFree, Filled, Unique;
    var (rc, slots') := Set(slots, path, name, kind, data, n);
    if rc == OK {
      var i, cut := Ensure(slots, path, name).value.0, Truncated(name, NAME_SIZE);
      if |name| >= NAME_SIZE && exists j :: 0 <= j < |slots| && Matches(slots[j], path, cut) {
        var j :| 0 <= j < |slots| && Matches(slots[j], path, cut);
        TwoAlike(slots', i, j, path, cut);
      } else {
        SlotUnique(slots, slots', i, path, cut);
      }
    }
  }

  lemma {:induction false} TwoAlike(slots: seq<Slot>, i: nat, j: nat, path: cstring, name: cstring)
    requires i < |slots| && j < |slots| && i != j && Matches(slots[i], path, name) && Matches(slots[j], path, name)
    ensures !Unique(slots)
  {
    var lo, hi := if i < j then i else j, if i < j then j else i;
    assert Matches(slots[lo], slots[hi].path, slots[hi].name);
  }

  // Setting an over-long name twice, with two slots free, leaves two slots with one key.
  lemma {:induction false} LongNameDuplicates(slots: seq<Slot>, path: cstring, name: cstring, i: nat, j: nat)
    requires Shaped(slots) && |path| < PATH_SIZE && |name| >= NAME_SIZE
    requires i < j < |slots| && !slots[i].used && !slots[j].used
    ensures
      var once := Set(slots, path, name, REG_SZ, Some([]), 0);
      var twice := Set(once.1, path, name, REG_SZ, Some([]), 0);
      once.0 == OK && twice.0 == OK && !Unique(twice.1)
  {
    hide Find, Filled;
    var once := Set(slots, path, name, REG_SZ, Some([]), 0);
    var twice := Set(once.1, path, name, REG_SZ, Some([]), 0);
    var a := FindFree(slots, 0).value;
    assert once.1[a].used && (!once.1[i].used || !once.1[j].used);
    var b := FindFree(once.1, 0).value;
    assert a != b && twice.1[a] == once.1[a];
    assert Matches(twice.1[a], twice.1[b].path, twice.1[b].name)
      && Matches(twice.1[b], twice.1[a].path, twice.1[a].name);
    var lo, hi := if a < b then a else b, if a < b then b else a;
    assert Matches(twice.1[lo], twice.1[hi].path, twice.1[hi].name);
  }

  // ---- The calls -----------------------------------------------------------------------

  function NameOf(name: Option<cstring>): cstring {
    if name.Some? then name.value else []
  }

  class Registry {
    const values: array<Slot>

    predicate Valid()
      reads this, values
    {
      values.Length == SLOTS && Shaped(values[..])
    }

    constructor ()
      ensures Valid() && fresh(values) && Unique(values[..]) && Contents(values[..]) == map[]
    {
      values := new Slot[SLOTS](_ => ZEROED);
      new;
      EmptyContents();
      assert values[..] == seq(SLOTS, _ => ZEROED);
    }

    method FindValue(path: cstring, name: Option<cstring>) returns (r: Option<nat>)
      requires Valid()
      ensures r == Find(values[..], path, NameOf(name), 0)
    {
      var i := 0;
      while i < SLOTS
        invariant 0 <= i <= SLOTS
        invariant Find(values[..], path, NameOf(name), i) == Find(values[..], path, NameOf(name), 0)
      {
        var s := values[i];
        if s.used && s.path == path && s.name == NameOf(name) {
          return Some(i);
        }
        i := i + 1;
      }
      return None;
    }

    method EnsureValue(path: cstring, name: Option<cstring>) returns (r: Option<nat>)
      requires Valid()
      modifies values
      ensures Valid()
      ensures
        var e := Ensure(old(values[..]), path, NameOf(name));
        && (r.None? <==> e.None?) && (r.None? ==> values[..] == old(values[..]))
        && (r.Some? ==> (r.value, values[..]) == e.value)
    {
      hide Find;
      r := FindValue(path, name);
      if r.Some? {
        return;
      }
      var i := 0;
      while i < SLOTS
        invariant 0 <= i <= SLOTS && values[..] == old(values[..])
        invariant FindFree(values[..], i) == FindFree(values[..], 0)
      {
        if !values[i].used {
          values[i] := Slot(true, Truncated(path, PATH_SIZE), Truncated(NameOf(name), NAME_SIZE), EMPTY);
          return Some(i);
        }
        i := i + 1;
      }
    }

    method SetValueEx(key: Option<cstring>, name: Option<cstring>, kind: u32, data: Option<seq<byte>>, cb: u32)
      returns (rc: nat)
      requires Valid() && (data.Some? ==> cb <= |data.value|)
      modifies values
      ensures Valid()
      ensures key.None? ==> rc == NOT_FOUND && values[..] == old(values[..])
      ensures key.Some? ==> (rc, values[..]) == Set(old(values[..]), key.value, NameOf(name), kind, data, cb)
    {
      hide Ensure;
      if key.None? {
        return NOT_FOUND;
      }
      var r := EnsureValue(key.value, name);
      if r.None? {
        return NO_ROOM;
      }
      var cell := values[r.value].cell;
      cell := cell.(kind := if kind != 0 then kind else REG_SZ);
      var n: nat := cb;
      if n > DATA_SIZE {
        n := DATA_SIZE;
      }
      if data.Some? && n > 0 {
        cell := cell.(data := data.value[..n] + cell.data[n..]);
      }
      cell := cell.(size := n);
      assert cell == Filled(values[r.value].cell, kind, data, cb);
      values[r.value] := values[r.value].(cell := cell);
      return OK;
    }

    // `room` is the size the caller passes in, absent when it passes none; `buffer` says
    // whether it passes a place for the data.
    method QueryValueEx(root: bool, key: Option<cstring>, name: Option<cstring>, room: Option<nat>, buffer: bool)
      returns (r: Answer)
      requires Valid()
      ensures root || key.None? ==> r == Answer(NOT_FOUND, None, room, None)
      ensures !root && key.Some? && Unique(values[..]) ==>
        r == MapQuery(Contents(values[..]), (key.value, NameOf(name)), room, buffer)
      ensures !root && key.Some? && |NameOf(name)| >= NAME_SIZE ==> r == Answer(NOT_FOUND, None, room, None)
    {
      hide Find, Contents, Unique;
      if root || key.None? {
        return Answer(NOT_FOUND, None, room, None);
      }
      if Unique(values[..]) {
        FindIsLookup(values[..], key.value, NameOf(name));
      }
      var i := FindValue(key.value, name);
      if i.None? {
        return Answer(NOT_FOUND, None, room, None);
      }
      var c := values[i.value].cell;
      if room.Some? {
        if !buffer || room.value < c.size {
          return Answer(MORE_DATA, Some(c.kind), Some(c.size), None);
        }
        return Answer(OK, Some(c.kind), Some(c.size), Some(c.data[..c.size]));
      }
      return Answer(OK, Some(c.kind), None, None);
    }

    method DeleteKeyA(prefix: cstring, subkey: Option<cstring>) returns (rc: nat)
      requires Valid()
      modifies values
      ensures Valid() && rc == OK
      ensures values[..] == Delete(old(values[..]), Joined(prefix, NameOf(subkey)))
    {
      var path := JoinPath(prefix, subkey);
      var i := 0;
      while i < SLOTS
        invariant 0 <= i <= SLOTS && Valid()
        invariant forall j :: 0 <= j < i ==> values[j] == Delete(old(values[..]), path)[j]
        invariant forall j :: i <= j < SLOTS ==> values[j] == old(values[..])[j]
      {
        if values[i].used && values[i].path == path {
          values[i] := ZEROED;
        }
        i := i + 1;
      }
      return OK;
    }
  }
}
