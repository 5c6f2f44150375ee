/**
 Base relocation: the block walk of relocations.c, which patches image words in
 place while it reads the relocation directory out of the same image.

 `Relocate` is the walk as the loader performs it. `Fixups` is an independent
 reading of the directory alone, and the theorems say when the walk is the same as
 applying those fixups, what it does to every byte, and exactly when moving an
 image twice equals moving it once.
 */
module Relocations {
  import opened Bytes
  import opened Pe

  // The loader's own type numbers.
  const ABSOLUTE := 0
  const HIGH := 1
  const LOW := 2
  const HIGHLOW := 3
  const DIR32 := 4
  const HIGHADJ := 5
  const DIR64 := 10

  const BLOCK_HEADER := 8

  datatype Kind = Full | HighHalf | LowHalf
  datatype Fixup = Fixup(rva: nat, width: nat, kind: Kind)

  // What one 16-bit directory entry asks for.
  datatype Request = Bad | Ignore | Patch(fixup: Fixup)

  // The type numbers that patch something, by image type.
  predicate Patches(pe32: bool, entry: nat) {
    if pe32 then 1 <= entry / 4096 <= 5 else entry / 4096 == 10
  }

  // The word an entry of such a type asks for.
  function Asked(pe32: bool, va: nat, entry: nat): Fixup {
    var kind := entry / 4096;
    Fixup(va + entry % 4096, if !pe32 then 8 else if kind == 3 || kind == 4 then 4 else 2,
      if kind == 1 || kind == 5 then HighHalf else if kind == 2 then LowHalf else Full)
  }

  // The entry ends the walk: its address leaves the 32-bit range (tested for every PE32 type but
  // padding) or its word leaves the image.
  predicate Fails(pe32: bool, imageSize: nat, va: nat, entry: nat) {
    || (pe32 && entry / 4096 != 0 && va + entry % 4096 >= U32)
    || (Patches(pe32, entry) && va + entry % 4096 >= U32)
    || (Patches(pe32, entry) && va + entry % 4096 + Asked(pe32, va, entry).width > imageSize)
  }

  function Interpret(pe32: bool, imageSize: nat, va: nat, entry: nat): (r: Request)
    ensures r.Bad? <==> Fails(pe32, imageSize, va, entry)
    ensures r.Patch? <==> Patches(pe32, entry) && !Fails(pe32, imageSize, va, entry)
    ensures r.Patch? ==> r.fixup == Asked(pe32, va, entry) && r.fixup.rva + r.fixup.width <= imageSize
    ensures r.Patch? ==> r.fixup.width in {2, 4, 8} && (r.fixup.kind.Full? <==> r.fixup.width != 2)
  {
    var kind, rva := entry / 4096, va + entry % 4096;
    if kind == ABSOLUTE then
      Ignore
    else if pe32 then
      if rva >= U32 then Bad
      else if kind == DIR32 || kind == HIGHLOW then InImage(imageSize, Fixup(rva, 4, Full))
      else if kind == HIGH || kind == HIGHADJ then InImage(imageSize, Fixup(rva, 2, HighHalf))
      else if kind == LOW then InImage(imageSize, Fixup(rva, 2, LowHalf))
      else Ignore
    else if kind == DIR64 then
      if rva >= U32 then Bad else InImage(imageSize, Fixup(rva, 8, Full))
    else
      Ignore
  }

  function InImage(imageSize: nat, f: Fixup): Request {
    if RangeValid(f.rva, f.width, imageSize) then Patch(f) else Bad
  }

  function Amount(f: Fixup, delta: nat): nat {
    match f.kind
    case Full => delta
    case HighHalf => delta / U16 % U16
    case LowHalf => delta % U16
  }

  predicate Inside(img: seq<byte>, f: Fixup) {
    f.rva + f.width <= |img|
  }

  predicate AllInside(img: seq<byte>, fs: seq<Fixup>) {
    forall i :: 0 <= i < |fs| ==> Inside(img, fs[i])
  }

  // The fixed-up word: the sum wraps at the word's width.
  function Bumped(v: nat, f: Fixup, delta: nat): nat {
    Wrap(v + Amount(f, delta), f.width)
  }

  function Add(img: seq<byte>, f: Fixup, delta: nat): (r: seq<byte>)
    requires Inside(img, f)
    ensures |r| == |img|
  {
    Store(img, f.rva, f.width, Load(img, f.rva, f.width) + Amount(f, delta))
  }

  // ---- The walk as the loader runs it -------------------------------------

  function Entries(img: seq<byte>, pe32: bool, va: nat, pos: nat, n: nat, delta: nat): (r: (bool, seq<byte>))
    requires pos + 2 * n <= |img|
    ensures |r.1| == |img|
    decreases n
  {
    if n == 0 then (true, img)
    else
      match Interpret(pe32, |img|, va, Load(img, pos, 2))
      case Bad => (false, img)
      case Ignore => Entries(img, pe32, va, pos + 2, n - 1, delta)
      case Patch(f) => Entries(Add(img, f, delta), pe32, va, pos + 2, n - 1, delta)
  }

  function Blocks(img: seq<byte>, pe32: bool, beyond: int -> byte, pos: nat, end: nat,
          delta: nat): (r: (bool, seq<byte>))
    requires end <= |img|
    ensures |r.1| == |img|
    decreases end - pos
  {
    if pos >= end then (true, img)
    else
      var size := Peek(img, beyond, pos + 4, 4);
      if size < BLOCK_HEADER then (true, img)
      else if end - pos < size then (false, img)
      else
        var r := Entries(img, pe32, Load(img, pos, 4), pos + BLOCK_HEADER, (size - BLOCK_HEADER) / 2, delta);
        if !r.0 then r else Blocks(r.1, pe32, beyond, pos + size, end, delta)
  }

  function Delta(base: nat, preferred: nat, wordSize: nat): (d: nat)
    requires wordSize > 0
    ensures d < wordSize
  {
    (base - preferred) % wordSize
  }

  // Rebase the image to `base`; wordSize is 2^32 or 2^64, the range of a host pointer.
  function Relocate(img: seq<byte>, nt: NtHeaders, beyond: int -> byte, base: nat,
          wordSize: nat): (r: (bool, seq<byte>))
    requires |img| == nt.sizeOfImage && wordSize > 0
    ensures |r.1| == |img|
  {
    var delta := Delta(base, nt.imageBase, wordSize);
    if delta == 0 then (true, img)
    else if nt.relocsStripped then (false, img)
    else
      match Directory(nt, BASERELOC_DIRECTORY)
      case None => (true, img)
      case Some(dir) =>
        if dir.rva == 0 || dir.size == 0 then (true, img)
        else if base == 0 || !RangeValid(dir.rva, dir.size, nt.sizeOfImage) then (false, img)
        else Blocks(img, nt.pe32, beyond, dir.rva, dir.rva + dir.size, delta)
  }

  method ApplyEntries(a: array<byte>, pe32: bool, va: nat, pos: nat, n: nat, delta: nat) returns (ok: bool)
    requires pos + 2 * n <= a.Length
    modifies a
    ensures (ok, a[..]) == Entries(old(a[..]), pe32, va, pos, n, delta)
  {
    hide Interpret, Value, Word, Amount, Load, Store;
    var i := 0;
    while i < n
      invariant 0 <= i <= n
      invariant Entries(a[..], pe32, va, pos + 2 * i, n - i, delta) == Entries(old(a[..]), pe32, va, pos, n, delta)
    {
      ghost var img := a[..];
      var request := Interpret(pe32, a.Length, va, Load(a[..], pos + 2 * i, 2));
      match request {
        case Bad => return false;
        case Ignore =>
        case Patch(f) =>
          StoreWord(a, f.rva, f.width, Load(a[..], f.rva, f.width) + Amount(f, delta));
          assert a[..] == Add(img, f, delta);
      }
      i := i + 1;
    }
    return true;
  }

  method ApplyRelocations(a: array<byte>, nt: NtHeaders, beyond: int -> byte, base: nat, wordSize: nat)
    returns (ok: bool)
    requires a.Length == nt.sizeOfImage && wordSize > 0
    modifies a
    ensures (ok, a[..]) == Relocate(old(a[..]), nt, beyond, base, wordSize)
  {
    hide Entries, Value, Delta;
    var delta := Delta(base, nt.imageBase, wordSize);
    if delta == 0 { return true; }
    if nt.relocsStripped { return false; }
    var d := Directory(nt, BASERELOC_DIRECTORY);
    if d.None? || d.value.rva == 0 || d.value.size == 0 { return true; }
    if base == 0 || !RangeValid(d.value.rva, d.value.size, nt.sizeOfImage) { return false; }
    var pos, end := d.value.rva, d.value.rva + d.value.size;
    while pos < end
      invariant Blocks(a[..], nt.pe32, beyond, pos, end, delta) ==
        Blocks(old(a[..]), nt.pe32, beyond, d.value.rva, end, delta)
      decreases end - pos
    {
      var size := Peek(a[..], beyond, pos + 4, 4);
      if size < BLOCK_HEADER { break; }
      if end - pos < size { return false; }
      ok := ApplyEntries(a, nt.pe32, Load(a[..], pos, 4), pos + BLOCK_HEADER, (size - BLOCK_HEADER) / 2, delta);
      if !ok { return false; }
      pos := pos + size;
    }
    return true;
  }

  // ---- The directory read on its own ---------------------------------------

  // The fixups of one block up to its first bad entry, and whether there was none.
  function EntryFixups(img: seq<byte>, pe32: bool, va: nat, pos: nat, n: nat): (r: (bool, seq<Fixup>))
    requires pos + 2 * n <= |img|
    ensures AllInside(img, r.1)
    decreases n
  {
    if n == 0 then (true, [])
    else
      match Interpret(pe32, |img|, va, Load(img, pos, 2))
      case Bad => (false, [])
      case Ignore => EntryFixups(img, pe32, va, pos + 2, n - 1)
      case Patch(f) =>
        var rest := EntryFixups(img, pe32, va, pos + 2, n - 1);
        (rest.0, [f] + rest.1)
  }

  function BlockFixups(img: seq<byte>, pe32: bool, beyond: int -> byte, pos: nat, end: nat): (r: (bool, seq<Fixup>))
    requires end <= |img|
    ensures AllInside(img, r.1)
    decreases end - pos
  {
    if pos >= end then (true, [])
    else
      var size := Peek(img, beyond, pos + 4, 4);
      if size < BLOCK_HEADER then (true, [])
      else if end - pos < size then (false, [])
      else
        var block := EntryFixups(img, pe32, Load(img, pos, 4), pos + BLOCK_HEADER, (size - BLOCK_HEADER) / 2);
        if !block.0 then block
        else
          var rest := BlockFixups(img, pe32, beyond, pos + size, end);
          (rest.0, block.1 + rest.1)
  }

  // One past the last byte the walk reads: the directory's end, or the end of a
  // block header that starts in its last seven bytes.
  function ReadEnd(img: seq<byte>, beyond: int -> byte, pos: nat, end: nat): (r: nat)
    requires end <= |img|
    ensures r >= end && (pos < end ==> pos + BLOCK_HEADER <= r)
    decreases end - pos
  {
    if pos >= end then end
    else
      var size := Peek(img, beyond, pos + 4, 4);
      if size < BLOCK_HEADER || end - pos < size then
        if pos + BLOCK_HEADER <= end then end else pos + BLOCK_HEADER
      else ReadEnd(img, beyond, pos + size, end)
  }

  // The extent of the directory the walk visits, or an empty one when it visits none.
  function DirectoryExtent(nt: NtHeaders): (r: (nat, nat)) {
    match Directory(nt, BASERELOC_DIRECTORY)
    case None => (0, 0)
    case Some(dir) =>
      if dir.rva == 0 || dir.size == 0 then (0, 0) else (dir.rva, dir.rva + dir.size)
  }

  function Fixups(img: seq<byte>, nt: NtHeaders, beyond: int -> byte): (r: (bool, seq<Fixup>))
    requires |img| == nt.sizeOfImage
    ensures AllInside(img, r.1)
  {
    var (pos, end) := DirectoryExtent(nt);
    if end > |img| then (false, []) else BlockFixups(img, nt.pe32, beyond, pos, end)
  }

  predicate Clear(fs: seq<Fixup>, lo: nat, hi: nat) {
    forall i :: 0 <= i < |fs| ==> Apart(fs[i].rva, fs[i].width, lo, hi - lo)
  }

  predicate PairwiseApart(fs: seq<Fixup>) {
    forall i, j :: 0 <= i < j < |fs| ==> Apart(fs[i].rva, fs[i].width, fs[j].rva, fs[j].width)
  }

  // No target lies in what the walk reads.
  predicate Undisturbed(img: seq<byte>, nt: NtHeaders, beyond: int -> byte)
    requires |img| == nt.sizeOfImage
  {
    var (pos, end) := DirectoryExtent(nt);
    end <= |img| && pos < end ==> Clear(Fixups(img, nt, beyond).1, pos, ReadEnd(img, beyond, pos, end))
  }

  // Nor do the targets overlap each other.
  predicate Separated(img: seq<byte>, nt: NtHeaders, beyond: int -> byte)
    requires |img| == nt.sizeOfImage
  {
    PairwiseApart(Fixups(img, nt, beyond).1) && Undisturbed(img, nt, beyond)
  }

  function ApplyAll(img: seq<byte>, fs: seq<Fixup>, delta: nat): (r: seq<byte>)
    requires AllInside(img, fs)
    ensures |r| == |img|
    decreases |fs|
  {
    if fs == [] then img else ApplyAll(Add(img, fs[0], delta), fs[1..], delta)
  }

  // ---- The walk is the fixups, applied --------------------------------------

  lemma {:induction false} AddEffect(img: seq<byte>, f: Fixup, delta: nat)
    requires Inside(img, f)
    ensures Load(Add(img, f, delta), f.rva, f.width) == Bumped(Load(img, f.rva, f.width), f, delta)
    ensures forall k :: 0 <= k < |img| && !(f.rva <= k < f.rva + f.width) ==> Add(img, f, delta)[k] == img[k]
  {
    StoreEffect(img, f.rva, f.width, Load(img, f.rva, f.width) + Amount(f, delta));
  }

  lemma {:induction false} ApplyAllConcat(img: seq<byte>, fs: seq<Fixup>, gs: seq<Fixup>, delta: nat)
    requires AllInside(img, fs) && AllInside(img, gs)
    ensures ApplyAll(img, fs + gs, delta) == ApplyAll(ApplyAll(img, fs, delta), gs, delta)
    decreases |fs|
  {
    if fs == [] {
      assert fs + gs == gs;
    } else {
      var img' := Add(img, fs[0], delta);
      assert (fs + gs)[1..] == fs[1..] + gs;
      ApplyAllConcat(img', fs[1..], gs, delta);
    }
  }

  // Bytes outside every target are left alone.
  lemma {:induction false} ApplyAllFrame(img: seq<byte>, fs: seq<Fixup>, delta: nat, lo: nat, hi: nat)
    requires AllInside(img, fs)
    requires lo <= hi && Clear(fs, lo, hi)
    ensures AgreeOn(img, ApplyAll(img, fs, delta), lo, hi)
    decreases |fs|
  {
    if fs != [] {
      AddEffect(img, fs[0], delta);
      ApplyAllFrame(Add(img, fs[0], delta), fs[1..], delta, lo, hi);
    }
  }

  lemma {:induction false} EntryFixupsAgree(s: seq<byte>, t: seq<byte>, pe32: bool, va: nat, pos: nat, n: nat)
    requires pos + 2 * n <= |s| && AgreeOn(s, t, pos, pos + 2 * n)
    ensures EntryFixups(s, pe32, va, pos, n) == EntryFixups(t, pe32, va, pos, n)
    decreases n
  {
    if n != 0 {
      LoadAgree(s, t, pos, 2);
      EntryFixupsAgree(s, t, pe32, va, pos + 2, n - 1);
    }
  }

  lemma {:induction false} BlockFixupsAgree(s: seq<byte>, t: seq<byte>, pe32: bool, beyond: int -> byte, pos: nat,
          end: nat)
    requires end <= |s| && AgreeOn(s, t, pos, ReadEnd(s, beyond, pos, end))
    ensures BlockFixups(s, pe32, beyond, pos, end) == BlockFixups(t, pe32, beyond, pos, end)
    ensures ReadEnd(s, beyond, pos, end) == ReadEnd(t, beyond, pos, end)
    decreases end - pos
  {
    hide EntryFixups, Value, Span;
    if pos < end {
      PeekAgree(s, t, beyond, pos + 4, 4);
      var size := Peek(s, beyond, pos + 4, 4);
      if BLOCK_HEADER <= size <= end - pos {
        LoadAgree(s, t, pos, 4);
        EntryFixupsAgree(s, t, pe32, Load(s, pos, 4), pos + BLOCK_HEADER, (size - BLOCK_HEADER) / 2);
        BlockFixupsAgree(s, t, pe32, beyond, pos + size, end);
      }
    }
  }

  lemma {:induction false} EntriesAreFixups(img: seq<byte>, pe32: bool, va: nat, pos: nat, n: nat, delta: nat)
    requires pos + 2 * n <= |img|
    requires Clear(EntryFixups(img, pe32, va, pos, n).1, pos, pos + 2 * n)
    ensures
      var fs := EntryFixups(img, pe32, va, pos, n);
      Entries(img, pe32, va, pos, n, delta) == (fs.0, ApplyAll(img, fs.1, delta))
    decreases n
  {
    hide Interpret, Patches, Asked, Fails, Value, Word, Add, Amount;
    if n != 0 {
      var rest := EntryFixups(img, pe32, va, pos + 2, n - 1);
      match Interpret(pe32, |img|, va, Load(img, pos, 2))
      case Bad =>
      case Ignore => EntriesAreFixups(img, pe32, va, pos + 2, n - 1, delta);
      case Patch(f) =>
        var fs := [f] + rest.1;
        assert EntryFixups(img, pe32, va, pos, n).1 == fs && fs[0] == f && fs[1..] == rest.1;
        forall i | 0 <= i < |rest.1|
          ensures Apart(rest.1[i].rva, rest.1[i].width, pos + 2, 2 * (n - 1))
        {
          assert rest.1[i] == fs[i + 1];
        }
        AddEffect(img, f, delta);
        var img' := Add(img, f, delta);
        EntryFixupsAgree(img, img', pe32, va, pos + 2, n - 1);
        EntriesAreFixups(img', pe32, va, pos + 2, n - 1, delta);
    }
  }

  lemma {:induction false} BlocksAreFixups(img: seq<byte>, pe32: bool, beyond: int -> byte, pos: nat, end: nat,
          delta: nat)
    requires pos <= end <= |img|
    requires Clear(BlockFixups(img, pe32, beyond, pos, end).1, pos, ReadEnd(img, beyond, pos, end))
    ensures
      var fs := BlockFixups(img, pe32, beyond, pos, end);
      Blocks(img, pe32, beyond, pos, end, delta) == (fs.0, ApplyAll(img, fs.1, delta))
    decreases end - pos
  {
    hide EntryFixups, Entries, Value, Span;
    var size := if pos < end then Peek(img, beyond, pos + 4, 4) else 0;
    if BLOCK_HEADER <= size <= end - pos {
      var va, first, n := Load(img, pos, 4), pos + BLOCK_HEADER, (size - BLOCK_HEADER) / 2;
      var block := EntryFixups(img, pe32, va, first, n);
      var rest := BlockFixups(img, pe32, beyond, pos + size, end);
      var all := BlockFixups(img, pe32, beyond, pos, end).1;
      var last := ReadEnd(img, beyond, pos, end);
      assert all[..|block.1|] == block.1;
      EntriesAreFixups(img, pe32, va, first, n, delta);
      if block.0 {
        assert all[|block.1|..] == rest.1;
        ApplyAllFrame(img, block.1, delta, pos, last);
        var img' := ApplyAll(img, block.1, delta);
        BlockFixupsAgree(img, img', pe32, beyond, pos + size, end);
        BlocksAreFixups(img', pe32, beyond, pos + size, end, delta);
        ApplyAllConcat(img, block.1, rest.1, delta);
      }
    }
  }

  // Reading the directory first and patching afterwards gives the same answer as the
  // loader's interleaved walk, for every base and also when targets overlap each other.
  lemma {:induction false} RelocateIsFixups(img: seq<byte>, nt: NtHeaders, beyond: int -> byte, base: nat,
          wordSize: nat)
    requires |img| == nt.sizeOfImage && wordSize > 0 && Undisturbed(img, nt, beyond)
    ensures
      var fs, delta := Fixups(img, nt, beyond), Delta(base, nt.imageBase, wordSize);
      Relocate(img, nt, beyond, base, wordSize) ==
        if delta == 0 then (true, img)
        else if nt.relocsStripped then (false, img)
        else if base == 0 then (DirectoryExtent(nt) == (0, 0), img)
        else (fs.0, ApplyAll(img, fs.1, delta))
  {
    hide Blocks, BlockFixups, ApplyAll, Delta;
    var (pos, end) := DirectoryExtent(nt);
    if pos < end <= |img| {
      BlocksAreFixups(img, nt.pe32, beyond, pos, end, Delta(base, nt.imageBase, wordSize));
    } else {
      EmptyDirectory(img, nt.pe32, beyond, pos, end, Delta(base, nt.imageBase, wordSize));
    }
  }

  lemma {:induction false} EmptyDirectory(img: seq<byte>, pe32: bool, beyond: int -> byte, pos: nat, end: nat,
          delta: nat)
    ensures pos >= end && end <= |img| ==> BlockFixups(img, pe32, beyond, pos, end) == (true, [])
    ensures ApplyAll(img, [], delta) == img
  {
  }

  // ---- What relocation does to every byte -----------------------------------

  predicate InTarget(fs: seq<Fixup>, k: int) {
    exists i :: 0 <= i < |fs| && fs[i].rva <= k < fs[i].rva + fs[i].width
  }

  lemma {:induction false} TargetOfTail(fs: seq<Fixup>, k: int)
    requires fs != []
    ensures InTarget(fs[1..], k) ==> InTarget(fs, k)
  {
    if i :| 0 <= i < |fs[1..]| && fs[1..][i].rva <= k < fs[1..][i].rva + fs[1..][i].width {
      assert fs[i + 1] == fs[1..][i];
    }
  }

  // Each target word grows by its amount modulo its width; every other byte stays.
  predicate Moved(s: seq<byte>, t: seq<byte>, fs: seq<Fixup>, delta: nat)
    requires AllInside(s, fs)
  {
    && |t| == |s|
    && (forall i :: 0 <= i < |fs| ==>
        Load(t, fs[i].rva, fs[i].width) == Bumped(Load(s, fs[i].rva, fs[i].width), fs[i], delta))
    && (forall k :: 0 <= k < |s| && !InTarget(fs, k) ==> t[k] == s[k])
  }

  lemma {:induction false} ApplyAllEffect(img: seq<byte>, fs: seq<Fixup>, delta: nat)
    requires AllInside(img, fs) && PairwiseApart(fs)
    ensures Moved(img, ApplyAll(img, fs, delta), fs, delta)
    decreases |fs|
  {
    hide Bumped, Value, Word, Load, Add;
    if fs != [] {
      var f, rest := fs[0], fs[1..];
      var mid := Add(img, f, delta);
      var out := ApplyAll(mid, rest, delta);
      AddEffect(img, f, delta);
      ApplyAllEffect(mid, rest, delta);
      ApplyAllFrame(mid, rest, delta, f.rva, f.rva + f.width);
      LoadAgree(mid, out, f.rva, f.width);
      forall i | 0 <= i < |fs|
        ensures Load(out, fs[i].rva, fs[i].width) == Bumped(Load(img, fs[i].rva, fs[i].width), fs[i], delta)
      {
        if i > 0 {
          assert rest[i - 1] == fs[i];
          assert Apart(fs[0].rva, fs[0].width, fs[i].rva, fs[i].width);
          LoadAgree(img, mid, fs[i].rva, fs[i].width);
        }
      }
      forall k | 0 <= k < |img| && !InTarget(fs, k) ensures out[k] == img[k] {
        assert !(fs[0].rva <= k < fs[0].rva + fs[0].width);
        TargetOfTail(fs, k);
      }
    }
  }

  // `Moved` pins the whole image down.
  lemma {:induction false} MovedUnique(s: seq<byte>, t: seq<byte>, t': seq<byte>, fs: seq<Fixup>, delta: nat)
    requires AllInside(s, fs) && Moved(s, t, fs, delta) && Moved(s, t', fs, delta)
    ensures t == t'
  {
    hide Bumped, Value;
    forall k | 0 <= k < |s| ensures t[k] == t'[k] {
      if InTarget(fs, k) {
        var i :| 0 <= i < |fs| && fs[i].rva <= k < fs[i].rva + fs[i].width;
        SameWord(t, t', fs[i].rva, fs[i].width);
        assert t[k] == t[fs[i].rva..fs[i].rva + fs[i].width][k - fs[i].rva];
        assert t'[k] == t'[fs[i].rva..fs[i].rva + fs[i].width][k - fs[i].rva];
      }
    }
  }

  // ---- Moving twice ----------------------------------------------------------

  // Moving by d1 and then by d2 adds the same to this fixup as moving by d3.
  predicate Composes(f: Fixup, d1: nat, d2: nat, d3: nat) {
    Wrap(Amount(f, d1) + Amount(f, d2), f.width) == Wrap(Amount(f, d3), f.width)
  }

  lemma {:induction false} BumpedTwice(v: nat, f: Fixup, d1: nat, d2: nat, d3: nat)
    ensures Bumped(Bumped(v, f, d1), f, d2) == Bumped(v, f, d3) <==> Composes(f, d1, d2, d3)
  {
    hide Amount, Wrap;
    AddTwice(v, Amount(f, d1), Amount(f, d2), Amount(f, d3), f.width);
  }

  lemma {:induction false} ApplyTwice(img: seq<byte>, fs: seq<Fixup>, d1: nat, d2: nat, d3: nat)
    requires AllInside(img, fs) && PairwiseApart(fs)
    ensures ApplyAll(ApplyAll(img, fs, d1), fs, d2) == ApplyAll(img, fs, d3) <==>
      forall i :: 0 <= i < |fs| ==> Composes(fs[i], d1, d2, d3)
  {
    hide Bumped, Composes, Value, ApplyAll, Load;
    var mid := ApplyAll(img, fs, d1);
    var twice := ApplyAll(mid, fs, d2);
    var once := ApplyAll(img, fs, d3);
    ApplyAllEffect(img, fs, d1);
    ApplyAllEffect(mid, fs, d2);
    ApplyAllEffect(img, fs, d3);
    forall i | 0 <= i < |fs|
      ensures Load(twice, fs[i].rva, fs[i].width) == Load(once, fs[i].rva, fs[i].width) <==> Composes(fs[i], d1, d2, d3)
    {
      BumpedTwice(Load(img, fs[i].rva, fs[i].width), fs[i], d1, d2, d3);
    }
    if forall i :: 0 <= i < |fs| ==> Composes(fs[i], d1, d2, d3) {
      MovedUnique(img, twice, once, fs, d3);
    }
  }

  // When does a fixup compose? Full and low words always do on their own word size; a
  // high half does exactly when the low halves of the two deltas add without a carry.
  predicate Additive(f: Fixup, d1: nat, d2: nat, wordSize: nat) {
    match f.kind
    case Full => f.width == 8 && wordSize == U32 ==> d1 + d2 < U32
    case HighHalf => d1 % U16 + d2 % U16 < U16
    case LowHalf => true
  }

  // (d1 + d2) % wordSize drops a whole number of 2^32s, if anything.
  lemma {:induction false} Wrapped(d1: nat, d2: nat, wordSize: nat) returns (turns: nat)
    requires wordSize == U32 || wordSize == U64
    requires d1 < wordSize && d2 < wordSize
    ensures d1 + d2 == (d1 + d2) % wordSize + U32 * turns
    ensures turns == 0 <==> d1 + d2 < wordSize
  {
    if d1 + d2 < wordSize {
      ModUnique(d1 + d2, wordSize, 0, d1 + d2);
      turns := 0;
    } else {
      ModUnique(d1 + d2, wordSize, 1, d1 + d2 - wordSize);
      turns := if wordSize == U32 then 1 else U32;
    }
  }

  lemma {:induction false} HighHalves(d1: nat, d2: nat, d3: nat, turns: nat)
    requires d1 + d2 == d3 + U32 * turns
    ensures Wrap(d1 / U16 % U16 + d2 / U16 % U16, 2) == Wrap(d3 / U16 % U16, 2) <==> d1 % U16 + d2 % U16 < U16
  {
    CapacityValues();
    var a, b := d1 / U16, d2 / U16;
    var carry := if d1 % U16 + d2 % U16 < U16 then 0 else 1;
    SumOfMods(a, b, U16);
    assert d3 / U16 == a + b + carry - U16 * turns;
    WholeTurns(d3 / U16, U16, turns);
    assert d3 / U16 % U16 == (a + b + carry) % U16;
    CancelMod(a + b, 0, carry, U16);
  }

  lemma {:induction false} LowHalves(d1: nat, d2: nat, d3: nat, turns: nat)
    requires d1 + d2 == d3 + U32 * turns
    ensures Wrap(d1 % U16 + d2 % U16, 2) == Wrap(d3 % U16, 2)
  {
    CapacityValues();
    SumOfMods(d1, d2, U16);
    WholeTurns(d3, U16, U16 * turns);
  }

  lemma {:induction false} ShortWords(d1: nat, d2: nat, d3: nat, turns: nat)
    requires d1 + d2 == d3 + U32 * turns
    ensures Wrap(d1 + d2, 4) == Wrap(d3, 4)
  {
    CapacityValues();
    WholeTurns(d3, U32, turns);
  }

  lemma {:induction false} LongWords(d1: nat, d2: nat, wordSize: nat)
    requires wordSize == U32 || wordSize == U64
    requires d1 < wordSize && d2 < wordSize
    ensures Wrap(d1 + d2, 8) == Wrap((d1 + d2) % wordSize, 8) <==> (wordSize == U32 ==> d1 + d2 < U32)
  {
    CapacityValues();
    var turns := Wrapped(d1, d2, wordSize);
    if wordSize == U32 {
      ModUnique(d1 + d2, U64, 0, d1 + d2);
      ModUnique((d1 + d2) % U32, U64, 0, (d1 + d2) % U32);
    } else {
      ModUnique((d1 + d2) % U64, U64, 0, (d1 + d2) % U64);
    }
  }

  lemma {:induction false} AdditiveComposes(f: Fixup, d1: nat, d2: nat, wordSize: nat)
    requires f.width in {2, 4, 8} && (f.kind.Full? <==> f.width != 2)
    requires wordSize == U32 || wordSize == U64
    requires d1 < wordSize && d2 < wordSize
    ensures Composes(f, d1, d2, (d1 + d2) % wordSize) <==> Additive(f, d1, d2, wordSize)
  {
    hide Wrap;
    var turns := Wrapped(d1, d2, wordSize);
    var d3 := (d1 + d2) % wordSize;
    match f.kind {
      case Full =>
        if f.width == 4 { ShortWords(d1, d2, d3, turns); } else { LongWords(d1, d2, wordSize); }
      case HighHalf =>
        HighHalves(d1, d2, d3, turns);
      case LowHalf =>
        LowHalves(d1, d2, d3, turns);
    }
  }

  // The fixups can be read again, unchanged, from a relocated image.
  lemma {:induction false} FixupsStable(img: seq<byte>, nt: NtHeaders, beyond: int -> byte, delta: nat)
    requires |img| == nt.sizeOfImage && Separated(img, nt, beyond)
    ensures
      var img' := ApplyAll(img, Fixups(img, nt, beyond).1, delta);
      Fixups(img', nt, beyond) == Fixups(img, nt, beyond) && Separated(img', nt, beyond)
  {
    hide BlockFixups, ApplyAll, ReadEnd;
    var (pos, end) := DirectoryExtent(nt);
    var fs := Fixups(img, nt, beyond).1;
    if pos < end <= |img| {
      ApplyAllFrame(img, fs, delta, pos, ReadEnd(img, beyond, pos, end));
      BlockFixupsAgree(img, ApplyAll(img, fs, delta), nt.pe32, beyond, pos, end);
    } else if end <= |img| {
      EmptyDirectory(img, nt.pe32, beyond, pos, end, delta);
      EmptyDirectory(ApplyAll(img, fs, delta), nt.pe32, beyond, pos, end, delta);
    }
  }

  // Nothing moves, or relocations are there and the directory decodes (a null base moves
  // nothing and is accepted only without a directory).
  predicate Accepts(img: seq<byte>, nt: NtHeaders, beyond: int -> byte, base: nat, wordSize: nat)
    requires |img| == nt.sizeOfImage && wordSize > 0
  {
    || Delta(base, nt.imageBase, wordSize) == 0
    || (!nt.relocsStripped && if base == 0 then DirectoryExtent(nt) == (0, 0) else Fixups(img, nt, beyond).0)
  }

  // Relocation to another base fails exactly when relocations are stripped, the base is null
  // and there is a directory, or the directory does not decode; it changes its targets, each
  // by its own amount, and nothing else.
  lemma {:induction false} RelocateEffect(img: seq<byte>, nt: NtHeaders, beyond: int -> byte, base: nat, wordSize: nat)
    requires |img| == nt.sizeOfImage && wordSize > 0 && Separated(img, nt, beyond)
    ensures
      var fs, delta := Fixups(img, nt, beyond), Delta(base, nt.imageBase, wordSize);
      var r := Relocate(img, nt, beyond, base, wordSize);
      && (r.0 <==> Accepts(img, nt, beyond, base, wordSize))
      && (delta != 0 && (nt.relocsStripped || base == 0) ==> r.1 == img)
      && (r.0 || (base != 0 && !nt.relocsStripped) ==> Moved(img, r.1, fs.1, delta))
  {
    hide Relocate, Fixups, ApplyAll, Load, Bumped, Delta;
    RelocateIsFixups(img, nt, beyond, base, wordSize);
    var fs := Fixups(img, nt, beyond).1;
    ApplyAllEffect(img, fs, Delta(base, nt.imageBase, wordSize));
    forall i | 0 <= i < |fs|
      ensures Bumped(Load(img, fs[i].rva, fs[i].width), fs[i], 0) == Load(img, fs[i].rva, fs[i].width)
    {
      NoMove(img, fs[i]);
    }
    if DirectoryExtent(nt) == (0, 0) { NoDirectory(img, nt, beyond); }
  }

  lemma {:induction false} NoDirectory(img: seq<byte>, nt: NtHeaders, beyond: int -> byte)
    requires |img| == nt.sizeOfImage && DirectoryExtent(nt) == (0, 0)
    ensures Fixups(img, nt, beyond) == (true, [])
  {
  }

  lemma {:induction false} NoMove(img: seq<byte>, f: Fixup)
    requires Inside(img, f)
    ensures Bumped(Load(img, f.rva, f.width), f, 0) == Load(img, f.rva, f.width)
  {
    LoadBound(img, f.rva, f.width);
    var v := Load(img, f.rva, f.width);
    ModUnique(v, Capacity(f.width), 0, v);
  }

  lemma {:induction false} ApplyNone(img: seq<byte>, fs: seq<Fixup>)
    requires AllInside(img, fs) && PairwiseApart(fs)
    ensures ApplyAll(img, fs, 0) == img
  {
    hide ApplyAll, Load, Bumped;
    forall i | 0 <= i < |fs|
      ensures Bumped(Load(img, fs[i].rva, fs[i].width), fs[i], 0) == Load(img, fs[i].rva, fs[i].width)
    {
      NoMove(img, fs[i]);
    }
    ApplyAllEffect(img, fs, 0);
    MovedUnique(img, img, ApplyAll(img, fs, 0), fs, 0);
  }

  // Every decodable fixup has one of the three shapes `AdditiveComposes` covers.
  predicate Shaped(fs: seq<Fixup>) {
    forall i :: 0 <= i < |fs| ==> fs[i].width in {2, 4, 8} && (fs[i].kind.Full? <==> fs[i].width != 2)
  }

  lemma {:induction false} EntryFixupsShaped(img: seq<byte>, pe32: bool, va: nat, pos: nat, n: nat)
    requires pos + 2 * n <= |img|
    ensures Shaped(EntryFixups(img, pe32, va, pos, n).1)
    decreases n
  {
    hide Interpret;
    if n != 0 { EntryFixupsShaped(img, pe32, va, pos + 2, n - 1); }
  }

  lemma {:induction false} BlockFixupsShaped(img: seq<byte>, pe32: bool, beyond: int -> byte, pos: nat, end: nat)
    requires end <= |img|
    ensures Shaped(BlockFixups(img, pe32, beyond, pos, end).1)
    decreases end - pos
  {
    hide EntryFixups, Peek;
    if pos < end {
      var size := Peek(img, beyond, pos + 4, 4);
      if BLOCK_HEADER <= size <= end - pos {
        EntryFixupsShaped(img, pe32, Load(img, pos, 4), pos + BLOCK_HEADER, (size - BLOCK_HEADER) / 2);
        BlockFixupsShaped(img, pe32, beyond, pos + size, end);
      }
    }
  }

  lemma {:induction false} DeltasAdd(p: nat, b1: nat, b2: nat, wordSize: nat)
    requires wordSize > 0
    ensures Delta(b2, p, wordSize) == (Delta(b1, p, wordSize) + Delta(b2, b1, wordSize)) % wordSize
  {
    var x, y := (b1 - p) / wordSize, (b2 - b1) / wordSize;
    var rx, ry := Delta(b1, p, wordSize), Delta(b2, b1, wordSize);
    assert b1 - p == wordSize * x + rx && b2 - b1 == wordSize * y + ry;
    var q, r := (rx + ry) / wordSize, (rx + ry) % wordSize;
    assert rx + ry == wordSize * q + r;
    assert wordSize * x + wordSize * y + wordSize * q == wordSize * (x + y + q);
    ModUnique(b2 - p, wordSize, x + y + q, r);
  }

  lemma {:induction false} OppositeDeltas(p: nat, b: nat, wordSize: nat)
    requires (wordSize == U32 || wordSize == U64) && p < wordSize && b < wordSize
    ensures
      var d, d' := Delta(b, p, wordSize), Delta(p, b, wordSize);
      Delta(p, p, wordSize) == 0 && d + d' == (if d == 0 then 0 else wordSize)
        && (d % U16 + d' % U16 < U16 <==> d % U16 == 0)
  {
    if b >= p {
      ModUnique(b - p, wordSize, 0, b - p);
      if b > p { ModUnique(p - b, wordSize, -1, wordSize + p - b); }
    } else {
      ModUnique(p - b, wordSize, 0, p - b);
      ModUnique(b - p, wordSize, -1, wordSize + b - p);
    }
  }

  // Moving a relocated image on to a third base gives what relocating there directly
  // would have given, if and only if every fixup is additive for the two deltas.
  lemma {:induction false} RelocateTwice(img: seq<byte>, nt: NtHeaders, beyond: int -> byte, b1: nat, b2: nat,
          wordSize: nat)
    requires |img| == nt.sizeOfImage && (wordSize == U32 || wordSize == U64)
    requires 0 < b1 < wordSize && 0 < b2 < wordSize && !nt.relocsStripped
    requires Separated(img, nt, beyond) && Fixups(img, nt, beyond).0
    ensures
      var d1, d2 := Delta(b1, nt.imageBase, wordSize), Delta(b2, b1, wordSize);
      var fs := Fixups(img, nt, beyond).1;
      var first := Relocate(img, nt, beyond, b1, wordSize);
      var second := Relocate(first.1, nt.(imageBase := b1), beyond, b2, wordSize);
      var direct := Relocate(img, nt, beyond, b2, wordSize);
      && first.0 && second.0 && direct.0
      && (second.1 == direct.1 <==> forall i :: 0 <= i < |fs| ==> Additive(fs[i], d1, d2, wordSize))
  {
    hide Relocate, ApplyAll, Additive, Composes, Delta, BlockFixups, ReadEnd;
    var nt1 := nt.(imageBase := b1);
    var d1, d2, d3 := Delta(b1, nt.imageBase, wordSize), Delta(b2, b1, wordSize), Delta(b2, nt.imageBase, wordSize);
    var (pos, end) := DirectoryExtent(nt);
    var fs := Fixups(img, nt, beyond).1;
    DeltasAdd(nt.imageBase, b1, b2, wordSize);
    BlockFixupsShaped(img, nt.pe32, beyond, pos, end);
    RelocateIsFixups(img, nt, beyond, b1, wordSize);
    RelocateIsFixups(img, nt, beyond, b2, wordSize);
    FixupsStable(img, nt, beyond, d1);
    ApplyNone(img, fs);
    var mid := ApplyAll(img, fs, d1);
    RelocateIsFixups(mid, nt1, beyond, b2, wordSize);
    ApplyNone(mid, fs);
    ApplyTwice(img, fs, d1, d2, d3);
    forall i | 0 <= i < |fs| ensures Composes(fs[i], d1, d2, d3) <==> Additive(fs[i], d1, d2, wordSize) {
      AdditiveComposes(fs[i], d1, d2, wordSize);
    }
  }

  // Moving back to the preferred base restores the image exactly when no HIGH fixup saw a
  // delta with a low half, and no 64-bit fixup was moved by a 32-bit host.
  lemma {:induction false} RelocateBack(img: seq<byte>, nt: NtHeaders, beyond: int -> byte, base: nat, wordSize: nat)
    requires |img| == nt.sizeOfImage && (wordSize == U32 || wordSize == U64)
    requires 0 < base < wordSize && 0 < nt.imageBase < wordSize && !nt.relocsStripped
    requires Separated(img, nt, beyond) && Fixups(img, nt, beyond).0
    ensures
      var d := Delta(base, nt.imageBase, wordSize);
      var fs := Fixups(img, nt, beyond).1;
      var there := Relocate(img, nt, beyond, base, wordSize);
      var back := Relocate(there.1, nt.(imageBase := base), beyond, nt.imageBase, wordSize);
      && there.0 && back.0
      && (back.1 == img <==> forall i :: 0 <= i < |fs| ==>
          (fs[i].kind.HighHalf? ==> d % U16 == 0)
            && (fs[i].kind.Full? && fs[i].width == 8 && wordSize == U32 ==> d == 0))
  {
    hide Fixups, Relocate, Delta;
    RelocateTwice(img, nt, beyond, base, nt.imageBase, wordSize);
    RelocateIsFixups(img, nt, beyond, nt.imageBase, wordSize);
    OppositeDeltas(nt.imageBase, base, wordSize);
  }

  // ---- Every entry of every block -----------------------------------------------

  function EntryAt(img: seq<byte>, first: nat, i: nat): nat
    requires first + 2 * i + 2 <= |img|
  {
    Load(img, first + 2 * i, 2)
  }

  // One of the n entries from `first` asks for this fixup.
  ghost predicate BlockAsks(img: seq<byte>, pe32: bool, va: nat, first: nat, n: nat, f: Fixup)
    requires first + 2 * n <= |img|
  {
    exists i: nat :: i < n && Patches(pe32, EntryAt(img, first, i)) && f == Asked(pe32, va, EntryAt(img, first, i))
  }

  ghost predicate BlockFails(img: seq<byte>, pe32: bool, va: nat, first: nat, n: nat)
    requires first + 2 * n <= |img|
  {
    exists i: nat :: i < n && Fails(pe32, |img|, va, EntryAt(img, first, i))
  }

  // The first entry, or one of the others.
  lemma {:induction false} AsksStep(img: seq<byte>, pe32: bool, va: nat, first: nat, n: nat, f: Fixup)
    requires n > 0 && first + 2 * n <= |img|
    ensures
      var entry := Load(img, first, 2);
      && (BlockAsks(img, pe32, va, first, n, f) <==>
          (Patches(pe32, entry) && f == Asked(pe32, va, entry)) || BlockAsks(img, pe32, va, first + 2, n - 1, f))
      && (BlockFails(img, pe32, va, first, n) <==>
          Fails(pe32, |img|, va, entry) || BlockFails(img, pe32, va, first + 2, n - 1))
  {
    hide Patches, Asked, Fails, Load;
    assert EntryAt(img, first, 0) == Load(img, first, 2);
    var next := first + 2;
    assert forall i: nat :: 0 < i < n ==> EntryAt(img, first, i) == EntryAt(img, next, i - 1);
    forall i: nat | i < n - 1 ensures EntryAt(img, next, i) == EntryAt(img, first, i + 1) {
    }
  }

  // A block decodes exactly when no entry fails, and then lists exactly what its entries ask for.
  lemma {:induction false} EntryFixupsExactly(img: seq<byte>, pe32: bool, va: nat, first: nat, n: nat, f: Fixup)
    requires first + 2 * n <= |img|
    ensures
      var r := EntryFixups(img, pe32, va, first, n);
      && (r.0 <==> !BlockFails(img, pe32, va, first, n))
      && (r.0 ==> (f in r.1 <==> BlockAsks(img, pe32, va, first, n, f)))
    decreases n
  {
    hide Patches, Asked, Fails, Load;
    if n > 0 {
      AsksStep(img, pe32, va, first, n, f);
      EntryFixupsExactly(img, pe32, va, first + 2, n - 1, f);
    }
  }

  // The chain of blocks from pos has a block header at p.
  predicate Visits(img: seq<byte>, beyond: int -> byte, pos: nat, end: nat, p: nat)
    decreases end - pos
  {
    && pos < end
    && (p == pos ||
        var size := Peek(img, beyond, pos + 4, 4);
        8 <= size <= end - pos && Visits(img, beyond, pos + size, end, p))
  }

  // The block at p lies inside the directory; a smaller size than a header ends the walk.
  predicate Whole(img: seq<byte>, beyond: int -> byte, end: nat, p: nat) {
    8 <= Peek(img, beyond, p + 4, 4) <= end - p
  }

  ghost predicate AsksAt(img: seq<byte>, pe32: bool, beyond: int -> byte, end: nat, p: nat, f: Fixup)
    requires end <= |img|
  {
    Whole(img, beyond, end, p) &&
    BlockAsks(img, pe32, Load(img, p, 4), p + 8, (Peek(img, beyond, p + 4, 4) - 8) / 2, f)
  }

  ghost predicate FailsAt(img: seq<byte>, pe32: bool, beyond: int -> byte, end: nat, p: nat)
    requires end <= |img|
  {
    var size := Peek(img, beyond, p + 4, 4);
    size >= 8 && (size > end - p || BlockFails(img, pe32, Load(img, p, 4), p + 8, (size - 8) / 2))
  }

  ghost predicate ChainAsks(img: seq<byte>, pe32: bool, beyond: int -> byte, pos: nat, end: nat, f: Fixup)
    requires end <= |img|
  {
    exists p: nat :: Visits(img, beyond, pos, end, p) && AsksAt(img, pe32, beyond, end, p, f)
  }

  ghost predicate ChainFails(img: seq<byte>, pe32: bool, beyond: int -> byte, pos: nat, end: nat)
    requires end <= |img|
  {
    exists p: nat :: Visits(img, beyond, pos, end, p) && FailsAt(img, pe32, beyond, end, p)
  }

  lemma {:induction false} ChainStep(img: seq<byte>, pe32: bool, beyond: int -> byte, pos: nat, end: nat, f: Fixup)
    requires pos < end <= |img|
    ensures
      var next := pos + Peek(img, beyond, pos + 4, 4);
      var more := Whole(img, beyond, end, pos);
      && (ChainAsks(img, pe32, beyond, pos, end, f) <==>
          AsksAt(img, pe32, beyond, end, pos, f) || (more && ChainAsks(img, pe32, beyond, next, end, f)))
      && (ChainFails(img, pe32, beyond, pos, end) <==>
          FailsAt(img, pe32, beyond, end, pos) || (more && ChainFails(img, pe32, beyond, next, end)))
  {
    hide BlockAsks, BlockFails, Peek, Load;
    var size := Peek(img, beyond, pos + 4, 4);
    assert Visits(img, beyond, pos, end, pos);
    if Whole(img, beyond, end, pos) {
      assert forall p: nat :: Visits(img, beyond, pos + size, end, p) ==> Visits(img, beyond, pos, end, p);
    }
  }

  lemma {:induction false} BlockFixupsExactly(img: seq<byte>, pe32: bool, beyond: int -> byte, pos: nat, end: nat,
          f: Fixup)
    requires end <= |img|
    ensures
      var r := BlockFixups(img, pe32, beyond, pos, end);
      && (r.0 <==> !ChainFails(img, pe32, beyond, pos, end))
      && (r.0 ==> (f in r.1 <==> ChainAsks(img, pe32, beyond, pos, end, f)))
    decreases end - pos
  {
    hide EntryFixups, BlockAsks, BlockFails, Peek, Load;
    if pos < end {
      ChainStep(img, pe32, beyond, pos, end, f);
      var size := Peek(img, beyond, pos + 4, 4);
      if Whole(img, beyond, end, pos) {
        EntryFixupsExactly(img, pe32, Load(img, pos, 4), pos + 8, (size - 8) / 2, f);
        BlockFixupsExactly(img, pe32, beyond, pos + size, end, f);
      }
    }
  }

  // The directory at index 5 of the headers, when it is there.
  predicate RelocsAt(nt: NtHeaders, pos: nat, end: nat) {
    && |nt.directories| > 5 && nt.directories[5].rva == pos > 0 && nt.directories[5].size > 0
    && end == pos + nt.directories[5].size
  }

  // The directory decodes exactly when it lies in the image and no visited block fails, and lists
  // exactly what the entries of the visited blocks ask for.
  lemma {:induction false} FixupsExactly(img: seq<byte>, nt: NtHeaders, beyond: int -> byte, pos: nat, end: nat,
          f: Fixup)
    requires |img| == nt.sizeOfImage && RelocsAt(nt, pos, end)
    ensures
      var r := Fixups(img, nt, beyond);
      && (r.0 <==> end <= |img| && !ChainFails(img, nt.pe32, beyond, pos, end))
      && (r.0 ==> (f in r.1 <==> ChainAsks(img, nt.pe32, beyond, pos, end, f)))
  {
    hide BlockFixups, ChainAsks, ChainFails;
    assert DirectoryExtent(nt) == (pos, end);
    if end <= |img| { BlockFixupsExactly(img, nt.pe32, beyond, pos, end, f); }
  }

  // The word after its entry of the given type is applied, in numbers.
  predicate Rebased(was: nat, now: nat, kind: nat, delta: nat) {
    match kind
    case 1 => now == (was + delta / 0x1_0000) % 0x1_0000
    case 2 => now == (was + delta) % 0x1_0000
    case 3 => now == (was + delta) % 0x1_0000_0000
    case 4 => now == (was + delta) % 0x1_0000_0000
    case 5 => now == (was + delta / 0x1_0000) % 0x1_0000
    case 10 => now == (was + delta) % 0x1_0000_0000_0000_0000
    case _ => now == was
  }

  function WidthOf(kind: nat): nat {
    match kind case 1 => 2 case 2 => 2 case 5 => 2 case 3 => 4 case 4 => 4 case 10 => 8 case _ => 0
  }

  lemma {:induction false} BumpedIsRebased(was: nat, pe32: bool, va: nat, entry: nat, delta: nat)
    requires Patches(pe32, entry)
    ensures Asked(pe32, va, entry).width == WidthOf(entry / 4096)
    ensures Rebased(was, Bumped(was, Asked(pe32, va, entry), delta), entry / 4096, delta)
  {
    hide Capacity;
    CapacityValues();
    SumMod(delta / U16, was, U16);
    SumMod(delta, was, U16);
  }

  // An image that moves and has a relocation directory decodes it; what an entry of a visited block
  // asks for is then one of its fixups.
  lemma {:induction false} EntryListed(img: seq<byte>, nt: NtHeaders, beyond: int -> byte, base: nat, wordSize: nat,
          pos: nat, end: nat, p: nat, i: nat)
    requires |img| == nt.sizeOfImage && wordSize > 0 && Separated(img, nt, beyond) && RelocsAt(nt, pos, end)
    requires Relocate(img, nt, beyond, base, wordSize).0 && Delta(base, nt.imageBase, wordSize) != 0
    requires Visits(img, beyond, pos, end, p) && 8 + 2 * i + 2 <= Peek(img, beyond, p + 4, 4)
    ensures p + 8 + 2 * i + 2 <= |img| && Fixups(img, nt, beyond).0
    ensures Patches(nt.pe32, EntryAt(img, p + 8, i)) ==>
      Asked(nt.pe32, Load(img, p, 4), EntryAt(img, p + 8, i)) in Fixups(img, nt, beyond).1
  {
    hide Fixups, Relocate, Load, Peek, Patches, Asked, Fails, Separated, Delta;
    RelocateEffect(img, nt, beyond, base, wordSize);
    FixupsExactly(img, nt, beyond, pos, end, Fixup(0, 0, Full));
    assert !FailsAt(img, nt.pe32, beyond, end, p);
    var entry := EntryAt(img, p + 8, i);
    var f := Asked(nt.pe32, Load(img, p, 4), entry);
    if Patches(nt.pe32, entry) {
      assert AsksAt(img, nt.pe32, beyond, end, p, f);
      FixupsExactly(img, nt, beyond, pos, end, f);
    }
  }

  // After a successful move, entry i of any visited block has moved the word it points at, by the
  // difference of the bases, at the width and half its type number says.
  lemma {:induction false} EntryRelocated(img: seq<byte>, nt: NtHeaders, beyond: int -> byte, base: nat, wordSize: nat,
          pos: nat, end: nat, p: nat, i: nat)
    requires |img| == nt.sizeOfImage && wordSize > 0 && Separated(img, nt, beyond) && RelocsAt(nt, pos, end)
    requires Relocate(img, nt, beyond, base, wordSize).0 && (base - nt.imageBase) % wordSize != 0
    requires Visits(img, beyond, pos, end, p) && 8 + 2 * i + 2 <= Peek(img, beyond, p + 4, 4)
    ensures p + 8 + 2 * i + 2 <= |img|
    ensures
      var entry, out := EntryAt(img, p + 8, i), Relocate(img, nt, beyond, base, wordSize).1;
      var target, width := Load(img, p, 4) + entry % 4096, WidthOf(entry / 4096);
      (if nt.pe32 then 1 <= entry / 4096 <= 5 else entry / 4096 == 10) ==>
        && target + width <= |img|
        && Rebased(Load(img, target, width), Load(out, target, width), entry / 4096,
            (base - nt.imageBase) % wordSize)
  {
    hide Fixups, Relocate, Load, Bumped, Rebased, Peek, Separated;
    EntryListed(img, nt, beyond, base, wordSize, pos, end, p, i);
    var entry, va, delta := EntryAt(img, p + 8, i), Load(img, p, 4), Delta(base, nt.imageBase, wordSize);
    var f := Asked(nt.pe32, va, entry);
    if Patches(nt.pe32, entry) {
      RelocateEffect(img, nt, beyond, base, wordSize);
      var fs := Fixups(img, nt, beyond).1;
      var j :| 0 <= j < |fs| && fs[j] == f;
      BumpedIsRebased(Load(img, f.rva, f.width), nt.pe32, va, entry, delta);
    }
  }

  // A byte no entry of a visited block points at is not changed.
  lemma {:induction false} OthersUntouched(img: seq<byte>, nt: NtHeaders, beyond: int -> byte, base: nat, wordSize: nat,
          pos: nat, end: nat, k: nat)
    requires |img| == nt.sizeOfImage && wordSize > 0 && Separated(img, nt, beyond) && RelocsAt(nt, pos, end)
    requires end <= |img| && k < |img| && Relocate(img, nt, beyond, base, wordSize).0
    requires forall f :: ChainAsks(img, nt.pe32, beyond, pos, end, f) ==> !(f.rva <= k < f.rva + f.width)
    ensures Relocate(img, nt, beyond, base, wordSize).1[k] == img[k]
  {
    hide Fixups, Relocate, Undisturbed, ChainAsks, ChainFails, Delta, Load, Bumped;
    RelocateEffect(img, nt, beyond, base, wordSize);
    RelocateIsFixups(img, nt, beyond, base, wordSize);
    var fs := Fixups(img, nt, beyond).1;
    if Delta(base, nt.imageBase, wordSize) != 0 && InTarget(fs, k) {
      var j :| 0 <= j < |fs| && fs[j].rva <= k < fs[j].rva + fs[j].width;
      FixupsExactly(img, nt, beyond, pos, end, fs[j]);
    }
  }

  // ---- The laws fail for HIGH fixups ------------------------------------------

  // Two bytes to patch, then a directory of one block with one HIGH entry for RVA 0.
  const HIGH_IMAGE: seq<byte> := [0, 0, 0, 0, 0, 0, 10, 0, 0, 0, 0, 0x10]
  const HIGH_HEADERS: NtHeaders := NtHeaders(true, 0x40_0000, 12, 0, 0, 0, false, HighDirectories())

  function HighDirectories(): (r: seq<DataDirectory>)
    ensures |r| == 6 && r[BASERELOC_DIRECTORY] == DataDirectory(2, 10)
  {
    seq(6, _ => DataDirectory(2, 10))
  }

  // A directory of one block with one entry.
  lemma {:induction false} OneEntry(img: seq<byte>, pe32: bool, beyond: int -> byte, pos: nat, end: nat, f: Fixup)
    requires end == pos + 10 <= |img| && Peek(img, beyond, pos + 4, 4) == 10
    requires Interpret(pe32, |img|, Load(img, pos, 4), Load(img, pos + 8, 2)) == Patch(f)
    ensures BlockFixups(img, pe32, beyond, pos, end) == (true, [f]) && ReadEnd(img, beyond, pos, end) == end
  {
    hide Interpret, Peek, Load;
    var va, first := Load(img, pos, 4), pos + 8;
    assert EntryFixups(img, pe32, va, first + 2, 0) == (true, []);
    assert EntryFixups(img, pe32, va, first, 1).1 == [f];
    assert BlockFixups(img, pe32, beyond, end, end) == (true, []);
    assert BlockFixups(img, pe32, beyond, pos, end).1 == [f];
  }

  lemma {:induction false} HighEntry()
    ensures Interpret(true, 12, 0, 0x1000) == Patch(Fixup(0, 2, HighHalf))
  {
  }

  lemma {:induction false} HighImageReads(beyond: int -> byte)
    ensures Fixups(HIGH_IMAGE, HIGH_HEADERS, beyond) == (true, [Fixup(0, 2, HighHalf)])
    ensures Separated(HIGH_IMAGE, HIGH_HEADERS, beyond)
  {
    hide Value, Peek, Span, BlockFixups, ReadEnd, Interpret;
    var img := HIGH_IMAGE;
    PeekIsLoad(img, beyond, 6, 4);
    SmallWord(img[6..10]);
    SmallWord(img[2..6]);
    SmallWord(img[10..12]);
    assert Peek(img, beyond, 6, 4) == 10 && Load(img, 2, 4) == 0 && Load(img, 10, 2) == 0x1000;
    HighEntry();
    OneEntry(img, true, beyond, 2, 12, Fixup(0, 2, HighHalf));
  }

  // Moving this image by half of 64 KB twice is not moving it by 64 KB, and moving it there
  // and back does not restore it: each move drops the low half of its delta.
  lemma {:induction false} HighHalfDrifts(beyond: int -> byte)
    ensures
      var nt, there := HIGH_HEADERS, HIGH_HEADERS.imageBase + 0x8000;
      var first := Relocate(HIGH_IMAGE, nt, beyond, there, U64).1;
      && Relocate(first, nt.(imageBase := there), beyond, there + 0x8000, U64).1 !=
         Relocate(HIGH_IMAGE, nt, beyond, there + 0x8000, U64).1
      && Relocate(first, nt.(imageBase := there), beyond, nt.imageBase, U64).1 != HIGH_IMAGE
  {
    hide Relocate, Fixups, Separated;
    var p := HIGH_HEADERS.imageBase;
    HighImageReads(beyond);
    ModUnique(0x8000, U64, 0, 0x8000);
    assert Fixups(HIGH_IMAGE, HIGH_HEADERS, beyond).1[0].kind == HighHalf;
    RelocateTwice(HIGH_IMAGE, HIGH_HEADERS, beyond, p + 0x8000, p + 0x1_0000, U64);
    RelocateBack(HIGH_IMAGE, HIGH_HEADERS, beyond, p + 0x8000, U64);
  }
}
