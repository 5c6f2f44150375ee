/**
 The loader lists of the process environment block (peb_ldr.c): three circular doubly
 linked lists threaded through the module slots. A node is a slot number, or HEAD for
 the list head; links are arrays indexed by node.
 */
module PebLdr {
  import opened Bytes
  import opened Pe
  import ML = ModuleList

  const SLOTS := ML.MAX_MODULES
  const HEAD := ML.MAX_MODULES
  const NULL := -1

  // The list without e.
  function Without(s: seq<int>, e: int): (r: seq<int>)
    ensures forall x :: x in r <==> x in s && x != e
  {
    if s == [] then [] else Without(s[..|s| - 1], e) + if s[|s| - 1] == e then [] else [s[|s| - 1]]
  }

  lemma {:induction false} WithoutAbsent(s: seq<int>, e: int)
    requires e !in s
    ensures Without(s, e) == s
  {
    if s != [] {
      assert s == s[..|s| - 1] + [s[|s| - 1]];
      WithoutAbsent(s[..|s| - 1], e);
    }
  }

  lemma {:induction false} WithoutPrefix(s: seq<int>, e: int, p: seq<int>)
    requires p <= s && e !in p
    ensures p <= Without(s, e)
  {
    if s == p {
      WithoutAbsent(s, e);
    } else {
      assert p <= s[..|s| - 1];
      WithoutPrefix(s[..|s| - 1], e, p);
    }
  }

  lemma {:induction false} WithoutAt(s: seq<int>, k: nat)
    requires k < |s| && NoRepeats(s)
    ensures Without(s, s[k]) == s[..k] + s[k + 1..]
  {
    var n := |s| - 1;
    if k == n {
      WithoutAbsent(s[..n], s[k]);
      assert s[k + 1..] == [];
    } else {
      WithoutAt(s[..n], k);
      assert s[..n][..k] == s[..k] && s[k + 1..] == s[..n][k + 1..] + [s[n]];
    }
  }

  // ---- One circular list --------------------------------------------------------------------------

  // The i-th node round the list, head first.
  function Node(order: seq<int>, i: int): int
    requires 0 <= i <= |order| + 1
  {
    if i == 0 || i == |order| + 1 then HEAD else order[i - 1]
  }

  // The i-th node and the next point at each other.
  predicate LinkAt(flink: seq<int>, blink: seq<int>, order: seq<int>, i: int)
    requires |flink| == SLOTS + 1 && |blink| == SLOTS + 1 && InRange(order) && 0 <= i <= |order|
  {
    flink[Node(order, i)] == Node(order, i + 1) && blink[Node(order, i + 1)] == Node(order, i)
  }

  predicate InRange(order: seq<int>) {
    forall i :: 0 <= i < |order| ==> 0 <= order[i] < SLOTS
  }

  // Following Flink from the head visits `order` and comes back; Blink goes the other way.
  predicate Circular(flink: seq<int>, blink: seq<int>, order: seq<int>) {
    && |flink| == SLOTS + 1 && |blink| == SLOTS + 1 && InRange(order) && NoRepeats(order)
    && forall i :: 0 <= i <= |order| ==> LinkAt(flink, blink, order, i)
  }

  lemma {:induction false} NodesDistinct(order: seq<int>, i: int, j: int)
    requires InRange(order) && NoRepeats(order) && 0 <= i <= |order| && 0 <= j <= |order| && i != j
    ensures Node(order, i) != Node(order, j)
    ensures Node(order, i + 1) != Node(order, j + 1)
  {
  }

  // list_insert_tail keeps the list circular.
  lemma {:induction false} InsertKeepsCircular(flink: seq<int>, blink: seq<int>, order: seq<int>, e: int)
    requires Circular(flink, blink, order) && 0 <= e < SLOTS && e !in order
    ensures 0 <= blink[HEAD] <= SLOTS
    ensures Circular(flink[e := HEAD][blink[HEAD] := e], blink[e := blink[HEAD]][HEAD := e], order + [e])
  {
    var n, order' := |order|, order + [e];
    assert LinkAt(flink, blink, order, n);
    var prev := blink[HEAD];
    assert prev == Node(order, n);
    var flink', blink' := flink[e := HEAD][prev := e], blink[e := prev][HEAD := e];
    forall i | 0 <= i <= n + 1 ensures LinkAt(flink', blink', order', i) {
      if i < n {
        assert LinkAt(flink, blink, order, i);
        NodesDistinct(order, i, n);
      }
    }
  }

  // list_remove keeps the list circular; the removed node may then hold anything.
  lemma {:induction false} RemoveKeepsCircular(flink: seq<int>, blink: seq<int>, order: seq<int>, k: nat, x: int)
    requires Circular(flink, blink, order) && k < |order|
    ensures 0 <= blink[order[k]] <= SLOTS && 0 <= flink[order[k]] <= SLOTS
    ensures
      var e := order[k];
      Circular(flink[blink[e] := flink[e]][e := x], blink[flink[e] := blink[e]][e := x], order[..k] + order[k + 1..])
  {
    var e, order' := order[k], order[..k] + order[k + 1..];
    assert LinkAt(flink, blink, order, k) && LinkAt(flink, blink, order, k + 1);
    var prev, next := blink[e], flink[e];
    assert prev == Node(order, k) && e == Node(order, k + 1) && next == Node(order, k + 2);
    var flink', blink' := flink[prev := next][e := x], blink[next := prev][e := x];
    assert NoRepeats(order');
    forall i | 0 <= i <= |order'| ensures LinkAt(flink', blink', order', i) {
      if i < k {
        assert LinkAt(flink, blink, order, i);
        NodesDistinct(order, i, k);
        NodesDistinct(order, i, k + 1);
      } else if i > k {
        assert LinkAt(flink, blink, order, i + 1);
        NodesDistinct(order, i + 1, k);
        NodesDistinct(order, i + 1, k + 1);
      } else {
        NodesDistinct(order, k, k + 1);
      }
    }
  }

  lemma {:induction false} ResetKeepsCircular(flink: seq<int>, blink: seq<int>, order: seq<int>, e: int, x: int)
    requires Circular(flink, blink, order) && 0 <= e < SLOTS && e !in order
    ensures Circular(flink[e := x], blink[e := x], order)
  {
    var flink', blink' := flink[e := x], blink[e := x];
    forall i | 0 <= i <= |order| ensures LinkAt(flink', blink', order, i) {
      assert LinkAt(flink, blink, order, i);
    }
  }

  class Ring {
    const flink: array<int>
    const blink: array<int>
    ghost var order: seq<int>

    ghost predicate Valid()
      reads this, flink, blink
    {
      flink != blink && Circular(flink[..], blink[..], order)
    }

    constructor ()
      ensures Valid() && fresh(flink) && fresh(blink) && order == []
    {
      flink := new int[SLOTS + 1](_ => HEAD);
      blink := new int[SLOTS + 1](_ => HEAD);
      order := [];
      new;
      assert LinkAt(flink[..], blink[..], order, 0);
    }

    // Insert e just before the head.
    method InsertTail(e: int)
      requires Valid() && 0 <= e < SLOTS && e !in order
      modifies this, flink, blink
      ensures Valid() && order == old(order) + [e]
    {
      hide Circular;
      LinksExist(flink[..], blink[..], order);
      InsertKeepsCircular(flink[..], blink[..], order, e);
      var prev := blink[HEAD];
      flink[e] := HEAD;
      blink[e] := prev;
      flink[prev] := e;
      blink[HEAD] := e;
      order := order + [e];
      assert flink[..] == old(flink[..])[e := HEAD][prev := e];
      assert blink[..] == old(blink[..])[e := prev][HEAD := e];
    }

    // Unlink e and leave it pointing at itself.
    method Remove(e: int)
      requires Valid() && e in order
      modifies this, flink, blink
      ensures Valid() && order == Without(old(order), e)
    {
      hide Circular;
      LinksExist(flink[..], blink[..], order);
      ghost var k :| 0 <= k < |order| && order[k] == e;
      RemoveKeepsCircular(flink[..], blink[..], order, k, e);
      WithoutAt(order, k);
      var prev, next := blink[e], flink[e];
      flink[prev] := next;
      blink[next] := prev;
      flink[e] := e;
      blink[e] := e;
      order := order[..k] + order[k + 1..];
      assert flink[..] == old(flink[..])[prev := next][e := e];
      assert blink[..] == old(blink[..])[next := prev][e := e];
    }

    // Write a node that is in no list: self-referencing, or all zero.
    method ResetNode(e: int, to: int)
      requires Valid() && 0 <= e < SLOTS && e !in order
      modifies flink, blink
      ensures Valid() && flink[e] == to && blink[e] == to
    {
      hide Circular;
      LinksExist(flink[..], blink[..], order);
      ResetKeepsCircular(flink[..], blink[..], order, e, to);
      flink[e] := to;
      blink[e] := to;
      assert flink[..] == old(flink[..])[e := to] && blink[..] == old(blink[..])[e := to];
    }
  }

  lemma {:induction false} LinksExist(flink: seq<int>, blink: seq<int>, order: seq<int>)
    requires Circular(flink, blink, order)
    ensures |flink| == SLOTS + 1 && |blink| == SLOTS + 1 && InRange(order) && NoRepeats(order)
  {
  }

  // ---- The three lists ---------------------------------------------------------------------------------

  // The part of a module's loader entry that matters here.
  datatype Entry = Entry(dllBase: nat, size: nat, linked: bool)

  const CLEARED := Entry(0, 0, false)

  function Linked(order: seq<int>, i: int): seq<int> {
    if i in order then order else order + [i]
  }

  predicate Covers(e: Entry, addr: nat) {
    ML.Holds(e.dllBase, e.size, addr)
  }

  // Position j is the first from k on whose entry's range holds addr.
  predicate FirstAt(order: seq<int>, entries: seq<Entry>, addr: nat, k: nat, j: nat)
    requires |entries| == SLOTS && InRange(order) && k <= j < |order|
  {
    Covers(entries[order[j]], addr) && forall h :: k <= h < j ==> !Covers(entries[order[h]], addr)
  }

  // The first entry in list order, from position k on, whose range holds addr.
  function FirstHolding(order: seq<int>, entries: seq<Entry>, addr: nat, k: nat): (r: Option<nat>)
    requires |entries| == SLOTS && InRange(order)
    ensures r.Some? ==> exists j :: k <= j < |order| && order[j] == r.value && FirstAt(order, entries, addr, k, j)
    ensures r.None? ==> forall h :: k <= h < |order| ==> !Covers(entries[order[h]], addr)
    decreases |order| - k
  {
    if k >= |order| then None
    else if Covers(entries[order[k]], addr) then Some(order[k])
    else FirstHolding(order, entries, addr, k + 1)
  }

  class LdrData {
    const loadOrder: Ring
    const memoryOrder: Ring
    const initOrder: Ring
    const entries: array<Entry>

    ghost function Repr(): set<object> {
      {loadOrder, loadOrder.flink, loadOrder.blink, memoryOrder, memoryOrder.flink, memoryOrder.blink,
       initOrder, initOrder.flink, initOrder.blink, entries}
    }

    // Three well-formed lists in the same order, holding exactly the linked entries.
    ghost predicate Valid()
      reads Repr()
    {
      && loadOrder != memoryOrder && loadOrder != initOrder && memoryOrder != initOrder
      && {loadOrder.flink, loadOrder.blink} !! {memoryOrder.flink, memoryOrder.blink} !!
         {initOrder.flink, initOrder.blink}
      && loadOrder.Valid() && memoryOrder.Valid() && initOrder.Valid()
      && memoryOrder.order == loadOrder.order && initOrder.order == loadOrder.order
      && entries.Length == SLOTS && forall i :: 0 <= i < SLOTS ==> (entries[i].linked <==> i in loadOrder.order)
    }

    ghost function Order(): seq<int>
      reads loadOrder
    {
      loadOrder.order
    }

    constructor ()
      ensures Valid() && fresh(Repr()) && Order() == []
      ensures forall i :: 0 <= i < SLOTS ==> entries[i] == CLEARED
    {
      loadOrder := new Ring();
      memoryOrder := new Ring();
      initOrder := new Ring();
      entries := new Entry[SLOTS](_ => CLEARED);
    }

    // add_module: a fresh, unlinked entry whose nodes point at themselves.
    method InitEntry(i: nat, base: nat, size: nat)
      requires Valid() && i < SLOTS && i !in Order()
      modifies Repr()
      ensures Valid() && Order() == old(Order()) && entries[..] == old(entries[..])[i := Entry(base, size, false)]
    {
      hide Circular;
      entries[i] := Entry(base, size, false);
      loadOrder.ResetNode(i, i);
      memoryOrder.ResetNode(i, i);
      initOrder.ResetNode(i, i);
    }

    // ldr_add_module: to the tail of all three lists, unless already linked.
    method AddModule(i: nat)
      requires Valid() && i < SLOTS
      modifies Repr()
      ensures Valid() && Order() == Linked(old(Order()), i)
      ensures entries[..] == old(entries[..])[i := old(entries[i]).(linked := true)]
    {
      hide Circular;
      if entries[i].linked { assert entries[..] == old(entries[..])[i := old(entries[i]).(linked := true)]; return; }
      loadOrder.InsertTail(i);
      memoryOrder.InsertTail(i);
      initOrder.InsertTail(i);
      entries[i] := entries[i].(linked := true);
    }

    // ldr_remove_module: out of all three lists, and the entry cleared; nothing if not linked.
    method RemoveModule(i: nat)
      requires Valid() && i < SLOTS
      modifies Repr()
      ensures Valid() && Order() == Without(old(Order()), i)
      ensures entries[..] == if old(entries[i]).linked then old(entries[..])[i := CLEARED] else old(entries[..])
    {
      hide Circular, Without;
      if !entries[i].linked { WithoutAbsent(Order(), i); return; }
      loadOrder.Remove(i);
      memoryOrder.Remove(i);
      initOrder.Remove(i);
      loadOrder.ResetNode(i, NULL);
      memoryOrder.ResetNode(i, NULL);
      initOrder.ResetNode(i, NULL);
      entries[i] := CLEARED;
    }

    // remove_module: the entry of a module that is in no list, cleared.
    method ClearEntry(i: nat)
      requires Valid() && i < SLOTS && i !in Order()
      modifies Repr()
      ensures Valid() && Order() == old(Order()) && entries[..] == old(entries[..])[i := Entry(0, 0, false)]
    {
      hide Circular;
      entries[i] := CLEARED;
      loadOrder.ResetNode(i, NULL);
      memoryOrder.ResetNode(i, NULL);
      initOrder.ResetNode(i, NULL);
    }

    // ldr_find_by_addr: walk the memory-order list from the head until it comes round.
    method FindByAddr(addr: nat) returns (r: Option<nat>)
      requires Valid()
      ensures InRange(Order()) && r == if addr == 0 then None else FirstHolding(Order(), entries[..], addr, 0)
    {
      hide FirstHolding, Circular;
      ghost var order := Order();
      LinksExist(memoryOrder.flink[..], memoryOrder.blink[..], order);
      if addr == 0 { return None; }
      var cursor := memoryOrder.flink[HEAD];
      ghost var k := 0;
      FollowLink(memoryOrder.flink[..], memoryOrder.blink[..], order, 0);
      while cursor != HEAD
        invariant 0 <= k <= |order| && cursor == Node(order, k + 1)
        invariant FirstHolding(order, entries[..], addr, k) == FirstHolding(order, entries[..], addr, 0)
        decreases |order| - k
      {
        HoldingStep(order, entries[..], addr, k);
        if Covers(entries[cursor], addr) { return Some(cursor); }
        FollowLink(memoryOrder.flink[..], memoryOrder.blink[..], order, k + 1);
        cursor := memoryOrder.flink[cursor];
        k := k + 1;
      }
      NodeIsHead(order, k + 1);
      HoldingStep(order, entries[..], addr, k);
      return None;
    }
  }

  lemma {:induction false} Facts(ldr: LdrData)
    requires ldr.Valid()
    ensures ldr.entries.Length == SLOTS && InRange(ldr.Order())
    ensures forall i :: 0 <= i < SLOTS ==> (ldr.entries[i].linked <==> i in ldr.Order())
  {
  }

  lemma {:induction false} FollowLink(flink: seq<int>, blink: seq<int>, order: seq<int>, i: nat)
    requires Circular(flink, blink, order) && i <= |order|
    ensures flink[Node(order, i)] == Node(order, i + 1)
  {
    assert LinkAt(flink, blink, order, i);
  }

  lemma {:induction false} NodeIsHead(order: seq<int>, i: nat)
    requires InRange(order) && 1 <= i <= |order| + 1 && Node(order, i) == HEAD
    ensures i == |order| + 1
  {
  }

  lemma {:induction false} HoldingStep(order: seq<int>, entries: seq<Entry>, addr: nat, k: nat)
    requires |entries| == SLOTS && InRange(order)
    ensures FirstHolding(order, entries, addr, k) ==
      if k >= |order| then None
      else if Covers(entries[order[k]], addr) then Some(order[k])
      else FirstHolding(order, entries, addr, k + 1)
  {
  }

  // ---- Runs -----------------------------------------------------------------------------------------------

  datatype Op = Link(i: nat) | Unlink(i: nat)

  // The modules linked after a run of operations, in link order.
  function Replay(order: seq<int>, ops: seq<Op>): seq<int> {
    if ops == [] then order
    else
      var before, op := Replay(order, ops[..|ops| - 1]), ops[|ops| - 1];
      if op.Link? then Linked(before, op.i) else Without(before, op.i)
  }

  // Any run of links and unlinks leaves three well-formed lists in the replayed order.
  method Perform(ldr: LdrData, ops: seq<Op>)
    requires ldr.Valid() && forall k :: 0 <= k < |ops| ==> ops[k].i < SLOTS
    modifies ldr.Repr()
    ensures ldr.Valid() && ldr.Order() == Replay(old(ldr.Order()), ops)
  {
    hide Circular, Without, Linked;
    assert ops[..0] == [];
    for k := 0 to |ops|
      invariant ldr.Valid() && ldr.Order() == Replay(old(ldr.Order()), ops[..k])
    {
      assert ops[..k + 1][..k] == ops[..k] && ops[..k + 1][k] == ops[k];
      match ops[k]
      case Link(i) => ldr.AddModule(i);
      case Unlink(i) => ldr.RemoveModule(i);
    }
    assert ops[..|ops|] == ops;
  }

  // x stands before y in the list.
  ghost predicate Before(order: seq<int>, x: int, y: int) {
    exists i, j :: Placed(order, i, j, x, y)
  }

  predicate Placed(order: seq<int>, i: int, j: int, x: int, y: int) {
    0 <= i < j < |order| && order[i] == x && order[j] == y
  }

  lemma {:induction false} DropPlaced(order: seq<int>, k: nat, i: int, j: int, x: int, y: int)
    requires k < |order| && x != order[k] && y != order[k]
    ensures
      var r := order[..k] + order[k + 1..];
      && (Placed(order, i, j, x, y) ==> Placed(r, if i < k then i else i - 1, if j < k then j else j - 1, x, y))
      && (Placed(r, i, j, x, y) ==> Placed(order, if i < k then i else i + 1, if j < k then j else j + 1, x, y))
  {
  }

  // Linking again changes nothing, and unlinking keeps the order of the rest.
  lemma {:induction false} UnlinkKeepsOrder(order: seq<int>, e: int, x: int, y: int)
    requires InRange(order) && NoRepeats(order) && x != e && y != e
    ensures Linked(Linked(order, e), e) == Linked(order, e)
    ensures Before(Without(order, e), x, y) <==> Before(order, x, y)
  {
    hide Without, Placed;
    if e in order {
      var k :| 0 <= k < |order| && order[k] == e;
      WithoutAt(order, k);
      var r := Without(order, e);
      if i, j :| Placed(order, i, j, x, y) {
        DropPlaced(order, k, i, j, x, y);
      }
      if i, j :| Placed(r, i, j, x, y) {
        DropPlaced(order, k, i, j, x, y);
      }
    } else {
      WithoutAbsent(order, e);
    }
  }

  // ---- The two lookups by address -----------------------------------------------------------------------------

  // On a packed registry whose modules are all linked and lie apart, walking the list and
  // scanning the slots name the same module for every address.
  lemma {:induction false} LookupsAgree(slots: seq<ML.Slot>, count: int, entries: seq<Entry>, order: seq<int>,
          addr: nat)
    requires ML.Consistent(slots, count) && ML.Packed(slots, count) && 0 <= count <= |slots| && ML.RangesApart(slots)
    requires |entries| == SLOTS && InRange(order) && forall i :: 0 <= i < SLOTS ==> (i in order <==> ML.Used(slots[i]))
    requires forall i :: 0 <= i < SLOTS && ML.Used(slots[i]) ==>
      entries[i].dllBase == slots[i].base && entries[i].size == slots[i].size
    ensures FirstHolding(order, entries, addr, 0) == ML.ByAddr(slots, count, addr)
  {
    hide FirstHolding, ML.FirstSlot, ML.UsedCount;
    var a, b := FirstHolding(order, entries, addr, 0), ML.ByAddr(slots, count, addr);
    forall k | 0 <= k < |order|
      ensures Covers(entries[order[k]], addr) <==>
        ML.Used(slots[order[k]]) && ML.Holds(slots[order[k]].base, slots[order[k]].size, addr)
    {
      assert order[k] in order;
    }
    if b.Some? {
      assert b.value in order;
      var k :| 0 <= k < |order| && order[k] == b.value;
      assert Covers(entries[order[k]], addr);
    }
    if a.Some? {
      var j :| 0 <= j < |order| && order[j] == a.value && Covers(entries[order[j]], addr);
    }
  }
}
