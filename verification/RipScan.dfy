/**
 Scanning the code section for indirect jumps (pe_rip_scan.c): which import slots
 do they go through, and which jump goes through a slot holding a given address.
 */
module RipScan {
  import opened Bytes
  import opened Pe
  import opened Sorting
  import R = Relocations

  function SlotSize(pe32: bool): nat {
    if pe32 then 4 else 8
  }

  // The scanned bytes: the code section's start and length, when there is anything to scan.
  ghost function Text(img: seq<byte>, sections: seq<Section>): (r: Option<(nat, nat)>)
    ensures r.Some? ==> r.value.0 + r.value.1 <= |img| && r.value.1 >= 6
  {
    match CodeSection(sections)
    case None => None
    case Some(i) => Extent(|img|, sections[i])
  }

  function Extent(imageSize: nat, text: Section): (r: Option<(nat, nat)>)
    ensures r.Some? ==> r.value.0 + r.value.1 <= imageSize && r.value.1 >= 6
    ensures r.Some? ==> r.value.0 == text.virtualAddress && r.value.1 in {text.virtualSize, text.sizeOfRawData}
    ensures r.Some? ==> r.value.1 <= text.sizeOfRawData && (text.virtualSize != 0 ==> r.value.1 <= text.virtualSize)
  {
    var start := text.virtualAddress;
    var len := if text.virtualSize == 0 || text.virtualSize > text.sizeOfRawData then text.sizeOfRawData
      else text.virtualSize;
    if start > U32 - 1 - len || len < 6 || !RangeValid(start, len, imageSize) then None else Some((start, len))
  }

  // An indirect jump (ff 25; in PE32 also ff 15) at `at`.
  predicate IsJump(img: seq<byte>, pe32: bool, at: nat)
    requires at + 6 <= |img|
  {
    img[at] == 0xFF && (img[at + 1] == 0x25 || (pe32 && img[at + 1] == 0x15))
  }

  // The RVA of the slot the jump at `at` goes through: PE32 operands are absolute and are
  // taken relative to the mapped base, PE32+ operands are relative to the next instruction.
  function SlotRva(img: seq<byte>, pe32: bool, base: nat, at: nat): nat
    requires at + 6 <= |img|
  {
    var disp := Load(img, at + 2, 4);
    if pe32 then (disp - base) % U32
    else (at + 6 + (if disp < 0x8000_0000 then disp else disp - U32)) % U64
  }

  // The jump at `at`, if it is one whose slot lies in the image.
  function SlotOf(img: seq<byte>, pe32: bool, base: nat, at: nat): Option<nat>
    requires at + 6 <= |img|
  {
    if !IsJump(img, pe32, at) then None
    else
      var rva := SlotRva(img, pe32, base, at);
      if rva < U32 && RangeValid(rva, SlotSize(pe32), |img|) then Some(rva) else None
  }

  // The slots of the jumps among the first n offsets, in scan order, repeats included.
  function Slots(img: seq<byte>, pe32: bool, base: nat, start: nat, n: nat): seq<nat>
    requires n > 0 ==> start + n - 1 + 6 <= |img|
  {
    if n == 0 then []
    else
      var before := Slots(img, pe32, base, start, n - 1);
      match SlotOf(img, pe32, base, start + n - 1)
      case None => before
      case Some(rva) => before + [rva]
  }

  // A section is scanned exactly when the smaller of its sizes (the raw size when the virtual one is
  // zero) is at least one jump long and ends inside the image.
  lemma {:induction false} ScannedExactly(imageSize: u32, text: Section)
    ensures Extent(imageSize, text).Some? <==>
      && text.sizeOfRawData >= 6 && (text.virtualSize == 0 || text.virtualSize >= 6)
      && (text.virtualAddress + text.sizeOfRawData <= imageSize ||
          (text.virtualSize != 0 && text.virtualAddress + text.virtualSize <= imageSize))
  {
  }

  // The bytes at `at` are a jump through the slot at rva: a PE32 operand is the slot's address at
  // `base`, a PE32+ operand the slot's signed distance from the next instruction.
  predicate Through(img: seq<byte>, pe32: bool, base: nat, at: nat, rva: nat)
    requires at + 6 <= |img|
  {
    && img[at] == 0xFF && (img[at + 1] == 0x25 || (pe32 && img[at + 1] == 0x15))
    && (pe32 ==> rva + 4 <= |img| && Load(img, at + 2, 4) == (base + rva) % 0x1_0000_0000)
    && (!pe32 ==> rva + 8 <= |img| && -0x8000_0000 <= rva - (at + 6) < 0x8000_0000)
    && (!pe32 ==> Load(img, at + 2, 4) == (rva - (at + 6)) % 0x1_0000_0000)
  }

  lemma {:induction false} SlotExactly(img: seq<byte>, pe32: bool, base: nat, at: nat, rva: nat)
    requires at + 6 <= |img| < U32
    ensures SlotOf(img, pe32, base, at) == Some(rva) <==> Through(img, pe32, base, at, rva)
  {
    hide Load;
    var disp := Load(img, at + 2, 4);
    LoadBound(img, at + 2, 4);
    CapacityValues();
    if pe32 {
      AbsoluteOperand(disp, base, rva);
    } else {
      RelativeOperand(disp, at + 6, rva);
    }
  }

  lemma {:induction false} AbsoluteOperand(disp: nat, base: nat, rva: nat)
    requires disp < U32
    ensures rva < U32 ==> ((disp - base) % U32 == rva <==> disp == (base + rva) % U32)
  {
    var q, k := (disp - base) / U32, (base + rva) / U32;
    if rva < U32 && (disp - base) % U32 == rva {
      assert disp - base == U32 * q + rva;
      ModUnique(base + rva, U32, -q, disp);
    }
    if rva < U32 && disp == (base + rva) % U32 {
      assert base + rva == U32 * k + disp;
      ModUnique(disp - base, U32, -k, rva);
    }
  }

  lemma {:induction false} RelativeOperand(disp: nat, next: nat, rva: nat)
    requires disp < U32 && next < U32
    ensures
      var d := if disp < 0x8000_0000 then disp else disp - U32;
      rva < U32 ==>
        && ((next + d) % U64 == rva <==> next + d == rva)
        && (next + d == rva <==> -0x8000_0000 <= rva - next < 0x8000_0000 && disp == (rva - next) % U32)
  {
    var d := if disp < 0x8000_0000 then disp else disp - U32;
    if next + d >= 0 {
      ModUnique(next + d, U64, 0, next + d);
    } else {
      ModUnique(next + d, U64, -1, next + d + U64);
    }
    if 0 <= rva - next < U32 {
      ModUnique(rva - next, U32, 0, rva - next);
    } else if rva < next {
      ModUnique(rva - next, U32, -1, rva - next + U32);
    }
  }

  // The scan lists a slot exactly when one of the scanned offsets is a jump through it.
  lemma {:induction false} SlotsExactly(img: seq<byte>, pe32: bool, base: nat, start: nat, n: nat, rva: nat)
    requires (n > 0 ==> start + n - 1 + 6 <= |img|) && |img| < U32
    ensures rva in Slots(img, pe32, base, start, n) <==>
      exists at: nat :: start <= at < start + n && Through(img, pe32, base, at, rva)
  {
    hide SlotOf, Through;
    if n != 0 {
      SlotsExactly(img, pe32, base, start, n - 1, rva);
      SlotExactly(img, pe32, base, start + n - 1, rva);
    }
  }

  // ---- Collecting: first occurrences, up to a limit ---------------------------

  // The distinct elements of s in order of first occurrence.
  function Distinct(s: seq<nat>): seq<nat> {
    if s == [] then []
    else
      var d, x := Distinct(s[..|s| - 1]), s[|s| - 1];
      if x in d then d else d + [x]
  }

  function Prefix(s: seq<nat>, n: nat): seq<nat> {
    if n <= |s| then s[..n] else s
  }

  // What the collecting callback has kept after seeing s.
  function Collect(s: seq<nat>, max: nat): seq<nat> {
    if s == [] then []
    else
      var kept, x := Collect(s[..|s| - 1], max), s[|s| - 1];
      if x in kept || |kept| >= max then kept else kept + [x]
  }

  lemma {:induction false} DistinctSound(s: seq<nat>)
    ensures NoRepeats(Distinct(s)) && forall x :: x in Distinct(s) <==> x in s
  {
    if s != [] {
      DistinctSound(s[..|s| - 1]);
      assert s == s[..|s| - 1] + [s[|s| - 1]];
    }
  }

  // Dropping repeats as they come, and stopping at the limit, keeps a prefix of the distinct slots.
  lemma {:induction false} CollectIsPrefix(s: seq<nat>, max: nat)
    ensures Collect(s, max) == Prefix(Distinct(s), max)
  {
    if s != [] {
      CollectIsPrefix(s[..|s| - 1], max);
      var d, x := Distinct(s[..|s| - 1]), s[|s| - 1];
      if |d| < max {
        assert Prefix(d + [x], max) == d + [x];
      } else {
        assert Prefix(d + [x], max) == d[..max];
      }
    }
  }

  // ---- The report ----------------------------------------------------------------

  predicate AtMost(x: nat, y: nat) {
    x <= y
  }

  predicate Increasing(s: seq<nat>) {
    forall i, j :: 0 <= i < j < |s| ==> s[i] < s[j]
  }

  lemma {:induction false} SortIncreasing(s: seq<nat>)
    requires NoRepeats(s)
    ensures Increasing(Sort(s, AtMost)) && forall x :: x in Sort(s, AtMost) <==> x in s
  {
    hide Sort;
    var r := Sort(s, AtMost);
    SortSorts(s, AtMost);
    forall x ensures x in r <==> x in s {
      assert x in multiset(r) <==> x in multiset(s);
    }
    forall i, j | 0 <= i < j < |r| ensures r[i] != r[j] {
      RepeatCount(r, i, j);
      NoRepeatCount(s, r[i]);
    }
  }

  lemma {:induction false} NoRepeatCount(s: seq<nat>, x: nat)
    requires NoRepeats(s)
    ensures multiset(s)[x] <= 1
  {
    if s != [] {
      var init, last := s[..|s| - 1], s[|s| - 1];
      assert s == init + [last];
      NoRepeatCount(init, x);
    }
  }

  lemma {:induction false} RepeatCount(s: seq<nat>, i: nat, j: nat)
    requires i < j < |s|
    ensures s[i] == s[j] ==> multiset(s)[s[i]] >= 2
  {
    assert s == s[..j] + [s[j]] + s[j + 1..];
    assert s[..j][i] == s[i];
    assert s[i] in multiset(s[..j]);
  }

  // The targets the scan reports.
  ghost function Targets(img: seq<byte>, pe32: bool, sections: seq<Section>, base: nat, max: nat): seq<nat> {
    match Text(img, sections)
    case None => []
    case Some((start, len)) => Sort(Collect(Slots(img, pe32, base, start, len - 5), max), AtMost)
  }

  lemma {:induction false} PrefixNoRepeats(s: seq<nat>, n: nat)
    requires NoRepeats(s)
    ensures NoRepeats(Prefix(s, n))
  {
  }

  // The report is strictly increasing and holds exactly the first `max` distinct
  // in-image slots in scan order; all of them, if they fit.
  lemma {:induction false} TargetsSpec(img: seq<byte>, pe32: bool, sections: seq<Section>, base: nat, max: nat)
    requires Text(img, sections).Some?
    ensures
      var (start, len) := Text(img, sections).value;
      var slots, found := Slots(img, pe32, base, start, len - 5), Targets(img, pe32, sections, base, max);
      && Increasing(found)
      && (forall x :: x in found <==> x in Prefix(Distinct(slots), max))
      && (|Distinct(slots)| <= max ==> forall x :: x in found <==> x in slots)
      && (|img| < U32 ==> forall x: nat :: x in slots <==>
          exists at: nat :: start <= at <= start + len - 6 && Through(img, pe32, base, at, x))
  {
    hide Through, Distinct, Collect, Sort, Slots, Increasing, NoRepeats;
    var (start, len) := Text(img, sections).value;
    var slots := Slots(img, pe32, base, start, len - 5);
    DistinctSound(slots);
    CollectIsPrefix(slots, max);
    PrefixNoRepeats(Distinct(slots), max);
    SortIncreasing(Collect(slots, max));
    forall x: nat | |img| < U32
      ensures x in slots <==> exists at: nat :: start <= at <= start + len - 6 && Through(img, pe32, base, at, x)
    {
      SlotsExactly(img, pe32, base, start, len - 5, x);
    }
  }

  lemma {:induction false} CollectSnoc(s: seq<nat>, x: nat, max: nat)
    ensures
      var kept := Collect(s, max);
      Collect(s + [x], max) == if x in kept || |kept| >= max then kept else kept + [x]
  {
    assert (s + [x])[..|s|] == s;
  }

  // The collecting callback: drop a target already kept, or past the limit.
  method CollectTarget(targets: array<nat>, n: nat, max: nat, x: nat) returns (n': nat)
    requires n <= max <= targets.Length
    modifies targets
    ensures n' <= max
    ensures
      var kept := old(targets[..n]);
      targets[..n'] == if x in kept || n >= max then kept else kept + [x]
    ensures targets[max..] == old(targets[max..])
  {
    for t := 0 to n
      invariant x !in targets[..t]
    {
      if targets[t] == x { return n; }
    }
    if n < max {
      targets[n] := x;
      return n + 1;
    }
    return n;
  }

  method ScanRipRelativeJumps(img: array<byte>, pe32: bool, sections: seq<Section>, base: nat, targets: array<nat>,
          max: nat)
    returns (n: nat)
    requires max <= targets.Length
    modifies targets
    ensures n <= max && targets[..n] == Targets(img[..], pe32, sections, base, max)
  {
    hide Sort, Collect, SlotOf;
    SortShort<nat>([], AtMost);
    var code := FindCodeSection(sections);
    if code.None? { return 0; }
    var text := Extent(img.Length, sections[code.value]);
    if text.None? { return 0; }
    var (start, len) := text.value;
    n := 0;
    EmptyCollect(max);
    for off := 0 to len - 5
      invariant n <= max && targets[..n] == Collect(Slots(img[..], pe32, base, start, off), max)
    {
      var slot := SlotOf(img[..], pe32, base, start + off);
      if slot.Some? {
        CollectSnoc(Slots(img[..], pe32, base, start, off), slot.value, max);
        n := CollectTarget(targets, n, max, slot.value);
      }
    }
    InsertionSort(targets, n, AtMost);
  }

  lemma {:induction false} EmptyCollect(max: nat)
    ensures Collect([], max) == []
  {
  }

  // ---- Finding a jump by what its slot holds --------------------------------------

  // The jump at `at` goes through an in-image slot that holds `value`.
  predicate JumpsTo(img: seq<byte>, pe32: bool, base: nat, at: nat, value: nat)
    requires at + 6 <= |img|
  {
    var slot := SlotOf(img, pe32, base, at);
    slot.Some? && Load(img, slot.value, SlotSize(pe32)) == if pe32 then value % U32 else value
  }

  lemma {:induction false} JumpsToExactly(img: seq<byte>, pe32: bool, base: nat, at: nat, value: nat)
    requires at + 6 <= |img| < U32
    ensures JumpsTo(img, pe32, base, at, value) <==> exists rva ::
      && Through(img, pe32, base, at, rva)
      && if pe32 then Load(img, rva, 4) == value % 0x1_0000_0000 else Load(img, rva, 8) == value
  {
    hide Load, SlotOf;
    var slot := SlotOf(img, pe32, base, at);
    forall rva: nat ensures SlotOf(img, pe32, base, at) == Some(rva) <==> Through(img, pe32, base, at, rva) {
      SlotExactly(img, pe32, base, at, rva);
    }
  }

  // The first jump in the code section that goes to `value`; none is reported only if there is none.
  method FindRipRelativeJumpTo(img: array<byte>, pe32: bool, sections: seq<Section>, base: nat, value: nat)
    returns (r: Option<nat>)
    ensures r.Some? ==>
      && Text(img[..], sections).Some?
      && var (start, len) := Text(img[..], sections).value;
      && start <= r.value <= start + len - 6
      && JumpsTo(img[..], pe32, base, r.value, value)
      && forall at :: start <= at < r.value ==> !JumpsTo(img[..], pe32, base, at, value)
    ensures r.None? && Text(img[..], sections).Some? ==>
      var (start, len) := Text(img[..], sections).value;
      forall at :: start <= at <= start + len - 6 ==> !JumpsTo(img[..], pe32, base, at, value)
  {
    hide JumpsTo;
    var code := FindCodeSection(sections);
    if code.None? { return None; }
    var text := Extent(img.Length, sections[code.value]);
    if text.None? { return None; }
    var (start, len) := text.value;
    for off := 0 to len - 5
      invariant forall at :: start <= at < start + off ==> !JumpsTo(img[..], pe32, base, at, value)
    {
      if JumpsTo(img[..], pe32, base, start + off, value) {
        return Some(start + off);
      }
    }
    return None;
  }

  // ---- Base independence ------------------------------------------------------------

  // Every scanned PE32 jump operand is a relocated word of its own, and relocation
  // leaves the same offsets looking like jumps.
  ghost predicate OperandsRelocated(img: seq<byte>, img': seq<byte>, start: nat, len: nat, fs: seq<R.Fixup>)
    requires |img'| == |img| && start + len <= |img|
  {
    forall at :: start <= at <= start + len - 6 ==>
      && (IsJump(img, true, at) <==> IsJump(img', true, at))
      && (IsJump(img, true, at) ==> R.Fixup(at + 2, 4, R.Full) in fs)
  }

  lemma {:induction false} OperandMoves(v: nat, base: nat, preferred: nat, wordSize: nat)
    requires wordSize == U32 || wordSize == U64
    ensures (Wrap(v + R.Delta(base, preferred, wordSize), 4) - base) % U32 == (v - preferred) % U32
  {
    CapacityValues();
    var d := R.Delta(base, preferred, wordSize);
    var q := (base - preferred) / wordSize;
    var turns := if wordSize == U32 then q else U32 * q;
    assert base - preferred == U32 * turns + d;
    var k, w := (v + d) / U32, (v + d) % U32;
    assert v + d == U32 * k + w;
    var j, r := (v - preferred) / U32, (v - preferred) % U32;
    assert v - preferred == U32 * j + r;
    assert w - base == U32 * (j - k - turns) + r;
    ModUnique(w - base, U32, j - k - turns, r);
  }

  lemma {:induction false} SlotMoves(img: seq<byte>, img': seq<byte>, fs: seq<R.Fixup>, base: nat, preferred: nat,
          wordSize: nat, at: nat)
    requires wordSize == U32 || wordSize == U64
    requires at + 6 <= |img| && R.AllInside(img, fs) && R.Moved(img, img', fs, R.Delta(base, preferred, wordSize))
    requires IsJump(img, true, at) <==> IsJump(img', true, at)
    requires IsJump(img, true, at) ==> R.Fixup(at + 2, 4, R.Full) in fs
    ensures SlotOf(img', true, base, at) == SlotOf(img, true, preferred, at)
  {
    hide Load, Wrap;
    if IsJump(img, true, at) {
      OperandMoves(Load(img, at + 2, 4), base, preferred, wordSize);
    }
  }

  lemma {:induction false} SlotsMove(img: seq<byte>, img': seq<byte>, fs: seq<R.Fixup>, base: nat, preferred: nat,
          wordSize: nat, start: nat, len: nat, n: nat)
    requires wordSize == U32 || wordSize == U64
    requires R.AllInside(img, fs) && R.Moved(img, img', fs, R.Delta(base, preferred, wordSize))
    requires start + len <= |img| && n + 5 <= len && OperandsRelocated(img, img', start, len, fs)
    ensures Slots(img', true, base, start, n) == Slots(img, true, preferred, start, n)
  {
    hide SlotOf, IsJump, R.Moved;
    if n != 0 {
      SlotsMove(img, img', fs, base, preferred, wordSize, start, len, n - 1);
      SlotMoves(img, img', fs, base, preferred, wordSize, start + n - 1);
    }
  }

  // A relocated PE32 image, scanned at the base it was mapped to, reports the same
  // targets as the untouched image at its preferred base.
  lemma {:induction false} ScanBaseIndependent(img: seq<byte>, nt: NtHeaders, beyond: int -> byte,
          sections: seq<Section>, base: nat, wordSize: nat, max: nat)
    requires |img| == nt.sizeOfImage && (wordSize == U32 || wordSize == U64)
    requires nt.pe32 && base != 0 && !nt.relocsStripped && R.Separated(img, nt, beyond)
    requires
      var text, img' := Text(img, sections), R.Relocate(img, nt, beyond, base, wordSize).1;
      text.Some? ==> OperandsRelocated(img, img', text.value.0, text.value.1, R.Fixups(img, nt, beyond).1)
    ensures
      var img' := R.Relocate(img, nt, beyond, base, wordSize).1;
      Targets(img', true, sections, base, max) == Targets(img, true, sections, nt.imageBase, max)
  {
    hide R.Relocate, R.Fixups, Slots, Sort, Collect, Extent;
    R.RelocateEffect(img, nt, beyond, base, wordSize);
    var text, img' := Text(img, sections), R.Relocate(img, nt, beyond, base, wordSize).1;
    if text.Some? {
      SlotsMove(img, img', R.Fixups(img, nt, beyond).1, base, nt.imageBase, wordSize, text.value.0, text.value.1,
        text.value.1 - 5);
    }
  }
}
