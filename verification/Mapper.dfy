/**
 Building the mapped image (image_mapper.c) and translating RVAs to file offsets
 (pe_priv.h, pe_headers.c): sections and headers are copied out of the file,
 uninitialised sections are zeroed, and the image is relocated to its base.
 */
module Mapper {
  import opened Bytes
  import opened Pe
  import R = Relocations

  const DOS_HEADER := 64
  const DOS_MAGIC := 0x5A4D
  const ADDR32_LIMIT := 0x1_0000_0000
  const PE32_DEFAULT_BASE := 0x0040_0000

  // ---- Where to map ----------------------------------------------------------------------

  // The base asked of the kernel: the forced one if there is one, else the image's own
  // (PE32 images always use the default), brought back to the default for a PE32 image
  // that would leave the 32-bit address space.
  function ChooseBase(nt: NtHeaders, desired: nat): nat {
    var base := if desired != 0 then desired else if nt.pe32 then PE32_DEFAULT_BASE else nt.imageBase;
    if nt.pe32 && (base >= ADDR32_LIMIT || nt.sizeOfImage > ADDR32_LIMIT - base) then PE32_DEFAULT_BASE else base
  }

  // A PE32+ image gets the base asked for, or its own. A PE32 image gets the base asked for exactly
  // when it then ends at or below 4 GB, and the default base otherwise, where it fits unless it is
  // larger than that leaves room for.
  lemma {:induction false} BaseFits(nt: NtHeaders, desired: nat)
    ensures !nt.pe32 ==> ChooseBase(nt, desired) == if desired == 0 then nt.imageBase else desired
    ensures nt.pe32 && desired != 0 && desired != 0x40_0000 ==>
      (ChooseBase(nt, desired) == desired <==> desired + nt.sizeOfImage <= 0x1_0000_0000 && desired < 0x1_0000_0000)
    ensures nt.pe32 && ChooseBase(nt, desired) != desired ==> ChooseBase(nt, desired) == 0x40_0000
    ensures nt.pe32 && nt.sizeOfImage <= 0xFFC0_0000 ==>
      ChooseBase(nt, desired) + nt.sizeOfImage <= 0x1_0000_0000
  {
  }

  // ---- The section table in the file --------------------------------------------------------

  // A C int holds the low 32 bits of v, as a signed number.
  function AsInt(v: nat): int {
    if v % U32 < 0x8000_0000 then v % U32 else v % U32 - U32
  }

  function NoBytes(i: int): byte {
    0
  }

  // Sections of the file, from its section table at off.
  function FileSections(file: seq<byte>, nt: NtHeaders, off: nat): (r: seq<Section>)
    ensures |r| == nt.sectionCount
  {
    SectionTable(file, NoBytes, off, nt.sectionCount)
  }

  // The section's raw data lie in the file.
  predicate RawInFile(sec: Section, fileSize: nat) {
    sec.pointerToRawData != 0 ==> sec.pointerToRawData + sec.sizeOfRawData <= fileSize
  }

  predicate AllRawInFile(secs: seq<Section>, fileSize: nat) {
    forall i :: 0 <= i < |secs| ==> RawInFile(secs[i], fileSize)
  }

  // The loader's own test, whose sum wraps at the host's word.
  predicate RawAccepted(sec: Section, fileSize: nat, wordSize: nat)
    requires wordSize > 0
  {
    sec.pointerToRawData != 0 ==> (sec.pointerToRawData + sec.sizeOfRawData) % wordSize <= fileSize
  }

  predicate AllAccepted(secs: seq<Section>, fileSize: nat, wordSize: nat)
    requires wordSize > 0
  {
    forall i :: 0 <= i < |secs| ==> RawAccepted(secs[i], fileSize, wordSize)
  }

  // The end of the raw data is below the host's word size; a 64-bit host never sees it above.
  predicate NoWrap(sec: Section, wordSize: nat) {
    sec.pointerToRawData == 0 || sec.pointerToRawData + sec.sizeOfRawData < wordSize
  }

  // A host's word size, and what it finds in memory outside the mapped file.
  datatype Host = Host(wordSize: nat, outside: int -> byte)

  type host = h: Host | h.wordSize == U32 || h.wordSize == U64 witness Host(U64, NoBytes)

  // An accepted section's raw data lie in the file exactly when the sum does not wrap; on a
  // 64-bit host it cannot.
  lemma {:induction false} AcceptedFits(sec: Section, fileSize: nat, h: host)
    requires fileSize < h.wordSize
    ensures RawInFile(sec, fileSize) <==> RawAccepted(sec, fileSize, h.wordSize) && NoWrap(sec, h.wordSize)
    ensures h.wordSize == U64 ==> NoWrap(sec, h.wordSize)
  {
    var end := sec.pointerToRawData + sec.sizeOfRawData;
    if end < h.wordSize { ModUnique(end, h.wordSize, 0, end); }
  }

  // On a 32-bit host a section whose raw data start 4 KB before the end of the address range and
  // end past it is accepted for a file of 512 bytes.
  lemma {:induction false} WrappedAccepted(name: Name8)
    ensures
      var sec := Section(name, 0, 0x1000, 0x1200, 0xFFFF_F000, 0);
      RawAccepted(sec, 512, U32) && !RawInFile(sec, 512)
  {
  }

  // The offset of the section table, once it is known to lie in the file and every section's
  // raw data have passed the test.
  function ParseSections(file: seq<byte>, nt: NtHeaders, wordSize: nat): (r: Option<nat>)
    requires wordSize > 0
    ensures r.Some? ==> r.value + SECTION_HEADER * nt.sectionCount <= |file|
    ensures r.Some? ==> AllAccepted(FileSections(file, nt, r.value), |file|, wordSize)
  {
    if |file| < DOS_HEADER || Load(file, 0, 2) != DOS_MAGIC then None
    else
      var off := AsInt(Load(file, 60, 4) + 24 + nt.optionalHeaderSize);
      if off < 0 || off + SECTION_HEADER * nt.sectionCount > |file| then None
      else if AllAccepted(FileSections(file, nt, off), |file|, wordSize) then Some(off)
      else None
  }

  // Exactly those files are accepted that start with "MZ", are as long as a DOS header, have room for
  // the 40-byte section headers at the 32-bit sum of the table's position, which must not be negative
  // as a C int, and sections whose raw data pass the test: those lie in the file if and only if no
  // sum wraps.
  lemma {:induction false} SectionsAccepted(file: seq<byte>, nt: NtHeaders, h: host)
    ensures |file| < 64 ==> ParseSections(file, nt, h.wordSize).None?
    ensures |file| >= 64 ==>
      var off := (Load(file, 60, 4) + 24 + nt.optionalHeaderSize) % U32;
      var secs := FileSections(file, nt, off);
      && ParseSections(file, nt, h.wordSize) ==
         (if file[0] == 0x4D && file[1] == 0x5A && off < 0x8000_0000 && off + 40 * nt.sectionCount <= |file| &&
             AllAccepted(secs, |file|, h.wordSize)
          then Some(off) else None)
      && (AllAccepted(secs, |file|, h.wordSize) && |file| < h.wordSize ==>
          (AllRawInFile(secs, |file|) <==> forall i :: 0 <= i < |secs| ==> NoWrap(secs[i], h.wordSize)))
  {
    hide FileSections, Load, RawInFile, RawAccepted, NoWrap;
    if |file| >= 64 {
      Magic(file);
      var secs := FileSections(file, nt, (Load(file, 60, 4) + 24 + nt.optionalHeaderSize) % U32);
      forall i | 0 <= i < |secs| && |file| < h.wordSize
        ensures RawInFile(secs[i], |file|) <==> RawAccepted(secs[i], |file|, h.wordSize) && NoWrap(secs[i], h.wordSize)
      {
        AcceptedFits(secs[i], |file|, h);
      }
    }
  }

  lemma {:induction false} Magic(file: seq<byte>)
    requires |file| >= 2
    ensures Load(file, 0, 2) == DOS_MAGIC <==> file[0] == 0x4D && file[1] == 0x5A
  {
    SmallWord(file[0..2]);
  }

  // ---- Filling the image -----------------------------------------------------------------------

  function Blit(img: seq<byte>, at: nat, data: seq<byte>): (r: seq<byte>)
    requires at + |data| <= |img|
    ensures |r| == |img|
    ensures forall k :: 0 <= k < |img| ==> r[k] == if at <= k < at + |data| then data[k - at] else img[k]
  {
    img[..at] + data + img[at + |data|..]
  }

  predicate HasPayload(sec: Section) {
    sec.sizeOfRawData != 0 && sec.pointerToRawData != 0
  }

  function RawData(file: seq<byte>, outside: int -> byte, sec: Section): (r: seq<byte>)
    ensures |r| == sec.sizeOfRawData
  {
    Span(file, outside, sec.pointerToRawData, sec.sizeOfRawData)
  }

  lemma {:induction false} RawDataInFile(file: seq<byte>, outside: int -> byte, sec: Section)
    requires RawInFile(sec, |file|) && HasPayload(sec)
    ensures RawData(file, outside, sec) == file[sec.pointerToRawData..sec.pointerToRawData + sec.sizeOfRawData]
  {
  }

  // Step 5: the first n sections, copied; accepted raw data may lie outside the file.
  function CopySections(img: seq<byte>, file: seq<byte>, outside: int -> byte, secs: seq<Section>,
          n: nat): (r: Option<seq<byte>>)
    requires n <= |secs|
    ensures r.Some? ==> |r.value| == |img|
  {
    if n == 0 then Some(img)
    else
      var before, sec := CopySections(img, file, outside, secs, n - 1), secs[n - 1];
      if before.None? then None
      else if !HasPayload(sec) then before
      else if !RangeValid(sec.virtualAddress, sec.sizeOfRawData, |img|) then None
      else Some(Blit(before.value, sec.virtualAddress, RawData(file, outside, sec)))
  }

  // Bytes to clear for a section without initialised data; 0 for the others.
  function ClearSize(sec: Section): nat {
    if sec.pointerToRawData != 0 && !sec.Flag(CNT_UNINITIALIZED_DATA) then 0
    else if sec.virtualSize == 0 then sec.sizeOfRawData
    else sec.virtualSize
  }

  // Sections i.. cleared. Once the headers are in the image, the table is read from there,
  // section by section, while the clearing goes on.
  function ClearSections(img: seq<byte>, file: seq<byte>, beyond: int -> byte, inImage: bool, off: nat, i: nat,
          n: nat): (r: Option<seq<byte>>)
    ensures r.Some? ==> |r.value| == |img|
    decreases n - i
  {
    if i >= n then Some(img)
    else
      var sec := SectionAt(if inImage then img else file, beyond, off + SECTION_HEADER * i);
      var size := ClearSize(sec);
      if size == 0 then ClearSections(img, file, beyond, inImage, off, i + 1, n)
      else if !RangeValid(sec.virtualAddress, size, |img|) then None
      else ClearSections(Blit(img, sec.virtualAddress, Zeros(size)), file, beyond, inImage, off, i + 1, n)
  }

  // The image before relocation, and where the section table is read from afterwards: the
  // image itself once it has headers, else still the file.
  datatype Loaded = Loaded(img: seq<byte>, inImage: bool, table: nat)

  function LoadImage(file: seq<byte>, nt: NtHeaders, beyond: int -> byte, h: host): (r: Option<Loaded>)
    ensures r.Some? ==> |r.value.img| == nt.sizeOfImage
  {
    var table := ParseSections(file, nt, h.wordSize);
    if table.None? || nt.sizeOfImage == 0 || nt.sizeOfHeaders > |file| || nt.sizeOfHeaders > nt.sizeOfImage then None
    else
      var secs := FileSections(file, nt, table.value);
      var copied := CopySections(Zeros(nt.sizeOfImage), file, h.outside, secs, nt.sectionCount);
      if copied.None? then None
      else
        var img := Blit(copied.value, 0, file[..nt.sizeOfHeaders]);
        var inImage := nt.sizeOfHeaders > 0;
        var off := if inImage then SectionTableRva(img, beyond, nt) else table.value;
        match ClearSections(img, file, beyond, inImage, off, 0, nt.sectionCount)
        case None => None
        case Some(cleared) => Some(Loaded(cleared, inImage, off))
  }

  // ---- RVA to file offset --------------------------------------------------------------------------

  function Extent(sec: Section): nat {
    if sec.virtualSize == 0 || sec.virtualSize < sec.sizeOfRawData then sec.sizeOfRawData else sec.virtualSize
  }

  function RvaToOffset(nt: NtHeaders, secs: seq<Section>, rva: nat, fileSize: nat, wordSize: nat, i: nat): int
    requires wordSize > 0
    decreases |secs| - i
  {
    if i >= |secs| then
      if rva < nt.sizeOfHeaders then AsInt(rva) else -1
    else
      var sec := secs[i];
      if Extent(sec) > U32 - 1 - sec.virtualAddress then -1
      else if sec.virtualAddress <= rva < sec.virtualAddress + Extent(sec) then
        var off := (sec.pointerToRawData + (rva - sec.virtualAddress)) % wordSize;
        if off <= fileSize then AsInt(off) else -1
      else RvaToOffset(nt, secs, rva, fileSize, wordSize, i + 1)
  }

  method FindOffset(nt: NtHeaders, secs: seq<Section>, rva: nat, fileSize: nat, wordSize: nat) returns (r: int)
    requires wordSize > 0
    ensures r == RvaToOffset(nt, secs, rva, fileSize, wordSize, 0)
  {
    for i := 0 to |secs|
      invariant RvaToOffset(nt, secs, rva, fileSize, wordSize, i) == RvaToOffset(nt, secs, rva, fileSize, wordSize, 0)
    {
      var sec := secs[i];
      if Extent(sec) > U32 - 1 - sec.virtualAddress { return -1; }
      if sec.virtualAddress <= rva < sec.virtualAddress + Extent(sec) {
        var off := (sec.pointerToRawData + (rva - sec.virtualAddress)) % wordSize;
        return if off <= fileSize then AsInt(off) else -1;
      }
    }
    return if rva < nt.sizeOfHeaders then AsInt(rva) else -1;
  }

  // ---- In place ------------------------------------------------------------------------------------

  method CopyBytes(a: array<byte>, at: nat, data: seq<byte>)
    requires at + |data| <= a.Length
    modifies a
    ensures a[..] == Blit(old(a[..]), at, data)
  {
    for i := 0 to |data|
      invariant forall k :: 0 <= k < a.Length ==> a[k] == if at <= k < at + i then data[k - at] else old(a[k])
    {
      a[at + i] := data[i];
    }
  }

  method CopyAllSections(a: array<byte>, file: seq<byte>, outside: int -> byte, secs: seq<Section>)
    returns (ok: bool)
    modifies a
    ensures ok ==> CopySections(old(a[..]), file, outside, secs, |secs|) == Some(a[..])
    ensures !ok ==> CopySections(old(a[..]), file, outside, secs, |secs|).None?
  {
    hide Blit, RawData;
    for i := 0 to |secs|
      invariant CopySections(old(a[..]), file, outside, secs, i) == Some(a[..])
    {
      var sec := secs[i];
      if HasPayload(sec) {
        if !RangeValid(sec.virtualAddress, sec.sizeOfRawData, a.Length) {
          CopyFails(old(a[..]), file, outside, secs, i + 1);
          return false;
        }
        CopyBytes(a, sec.virtualAddress, RawData(file, outside, sec));
      }
    }
    return true;
  }

  method ClearAllSections(a: array<byte>, file: seq<byte>, beyond: int -> byte, inImage: bool, off: nat, n: nat)
    returns (ok: bool)
    modifies a
    ensures ok ==> ClearSections(old(a[..]), file, beyond, inImage, off, 0, n) == Some(a[..])
    ensures !ok ==> ClearSections(old(a[..]), file, beyond, inImage, off, 0, n).None?
  {
    hide Blit, SectionAt, ClearSize;
    for i := 0 to n
      invariant ClearSections(a[..], file, beyond, inImage, off, i, n) ==
        ClearSections(old(a[..]), file, beyond, inImage, off, 0, n)
    {
      var sec := SectionAt(if inImage then a[..] else file, beyond, off + SECTION_HEADER * i);
      var size := ClearSize(sec);
      if size != 0 {
        if !RangeValid(sec.virtualAddress, size, a.Length) { return false; }
        CopyBytes(a, sec.virtualAddress, Zeros(size));
      }
    }
    return true;
  }

  method FillImage(a: array<byte>, file: seq<byte>, nt: NtHeaders, beyond: int -> byte, h: host)
    returns (ok: bool, inImage: bool, off: nat)
    requires a[..] == Zeros(nt.sizeOfImage)
    modifies a
    ensures ok ==> LoadImage(file, nt, beyond, h) == Some(Loaded(a[..], inImage, off))
    ensures !ok ==> LoadImage(file, nt, beyond, h).None?
  {
    hide ParseSections, SectionTableRva, CopySections, ClearSections, Blit;
    var table := ParseSections(file, nt, h.wordSize);
    inImage, off := false, 0;
    if table.None? || nt.sizeOfImage == 0 || nt.sizeOfHeaders > |file| || nt.sizeOfHeaders > nt.sizeOfImage {
      return false, inImage, off;
    }
    ok := CopyAllSections(a, file, h.outside, FileSections(file, nt, table.value));
    if !ok { return; }
    CopyBytes(a, 0, file[..nt.sizeOfHeaders]);
    inImage, off := nt.sizeOfHeaders > 0, table.value;
    if inImage { off := SectionTableRva(a[..], beyond, nt); }
    ok := ClearAllSections(a, file, beyond, inImage, off, nt.sectionCount);
  }

  lemma {:induction false} CopyFails(img: seq<byte>, file: seq<byte>, outside: int -> byte, secs: seq<Section>, n: nat)
    requires n <= |secs| && CopySections(img, file, outside, secs, n).None?
    ensures CopySections(img, file, outside, secs, |secs|).None?
    decreases |secs| - n
  {
    if n < |secs| {
      CopyFails(img, file, outside, secs, n + 1);
    }
  }

  // ---- The mapped image agrees with the file -----------------------------------------------------

  predicate InExtent(sec: Section, k: int) {
    sec.virtualAddress <= k < sec.virtualAddress + Extent(sec)
  }

  predicate InSome(secs: seq<Section>, k: int) {
    exists j :: 0 <= j < |secs| && InExtent(secs[j], k)
  }

  // Section extents lie between the headers and the image's end, apart from each other.
  predicate Disjoint(secs: seq<Section>, headers: nat, imageSize: nat) {
    && (forall i :: 0 <= i < |secs| ==>
        headers <= secs[i].virtualAddress && secs[i].virtualAddress + Extent(secs[i]) <= imageSize)
    && (forall i, j :: 0 <= i < j < |secs| ==>
        Apart(secs[i].virtualAddress, Extent(secs[i]), secs[j].virtualAddress, Extent(secs[j])))
  }

  // The byte is copied from the file and not cleared again. Clearing covers VirtualSize
  // bytes, so raw data past that survives in a section flagged as uninitialised.
  predicate FileBacked(sec: Section, k: int) {
    && HasPayload(sec) && sec.virtualAddress <= k < sec.virtualAddress + sec.sizeOfRawData
    && k - sec.virtualAddress >= ClearSize(sec)
  }

  // The byte at k of a section that is copied, or not yet, and cleared, or not yet.
  function SectionByte(file: seq<byte>, sec: Section, copied: bool, cleared: bool, k: int): byte
    requires RawInFile(sec, |file|) && InExtent(sec, k)
  {
    var d := k - sec.virtualAddress;
    if cleared && d < ClearSize(sec) then 0
    else if copied && HasPayload(sec) && d < sec.sizeOfRawData then file[sec.pointerToRawData + d]
    else 0
  }

  // The image when n sections are copied, the first `headers` bytes are in and c sections are cleared.
  predicate Filled(img: seq<byte>, file: seq<byte>, secs: seq<Section>, headers: nat, n: nat, c: nat)
    requires AllRawInFile(secs, |file|)
  {
    && headers <= |file| && headers <= |img|
    && (forall k :: 0 <= k < headers ==> img[k] == file[k])
    && (forall j, k :: 0 <= j < |secs| && 0 <= k < |img| && InExtent(secs[j], k) ==>
        img[k] == SectionByte(file, secs[j], j < n, j < c, k))
    && (forall k :: headers <= k < |img| && !InSome(secs, k) ==> img[k] == 0)
  }

  // The extent is the larger of the two sizes.
  lemma {:induction false} ExtentCovers(sec: Section)
    ensures sec.sizeOfRawData <= Extent(sec) && sec.virtualSize <= Extent(sec)
    ensures Extent(sec) == sec.sizeOfRawData || Extent(sec) == sec.virtualSize
    ensures ClearSize(sec) <= Extent(sec)
  {
  }

  lemma {:induction false} SameSection(secs: seq<Section>, headers: nat, imageSize: nat, i: nat, j: nat, k: int)
    requires Disjoint(secs, headers, imageSize) && i < |secs| && j < |secs| && InExtent(secs[i], k)
    requires InExtent(secs[j], k)
    ensures i == j
  {
    hide Extent;
  }

  // One copy or clear of section i, blitted at its start, moves the fill on by one section.
  lemma {:induction false} BlitSection(img: seq<byte>, data: seq<byte>, file: seq<byte>, secs: seq<Section>, low: nat,
          headers: nat, n: nat, c: nat, n': nat, c': nat, i: nat)
    requires AllRawInFile(secs, |file|) && Disjoint(secs, low, |img|) && headers <= low && i < |secs|
    requires Filled(img, file, secs, headers, n, c) && |data| <= Extent(secs[i])
    requires (n == i && c == 0 && n' == i + 1 && c' == 0) || (n == |secs| && c == i && n' == |secs| && c' == i + 1)
    requires forall k :: InExtent(secs[i], k) ==>
      var d := k - secs[i].virtualAddress;
      SectionByte(file, secs[i], i < n', i < c', k) == if d < |data| then data[d]
        else SectionByte(file, secs[i], i < n, i < c, k)
    ensures Filled(Blit(img, secs[i].virtualAddress, data), file, secs, headers, n', c')
  {
    hide Extent, SectionByte, Blit, Disjoint;
    var va := secs[i].virtualAddress;
    assert headers <= va && va + Extent(secs[i]) <= |img| by { DisjointAt(secs, low, |img|, i); }
    var r := Blit(img, va, data);
    forall j, k | 0 <= j < |secs| && 0 <= k < |img| && InExtent(secs[j], k)
      ensures r[k] == SectionByte(file, secs[j], j < n', j < c', k)
    {
      if InExtent(secs[i], k) {
        SameSection(secs, low, |img|, i, j, k);
      }
    }
    forall k | headers <= k < |img| && !InSome(secs, k) ensures r[k] == 0 {
      assert !InExtent(secs[i], k);
    }
  }

  lemma {:induction false} DisjointAt(secs: seq<Section>, low: nat, imageSize: nat, i: nat)
    requires Disjoint(secs, low, imageSize) && i < |secs|
    ensures low <= secs[i].virtualAddress && secs[i].virtualAddress + Extent(secs[i]) <= imageSize
  {
  }

  lemma {:induction false} CopyFills(file: seq<byte>, outside: int -> byte, secs: seq<Section>, low: nat,
          imageSize: nat, n: nat)
    requires AllRawInFile(secs, |file|) && Disjoint(secs, low, imageSize) && n <= |secs|
    ensures
      var r := CopySections(Zeros(imageSize), file, outside, secs, n);
      r.Some? && Filled(r.value, file, secs, 0, n, 0)
  {
    hide Extent, Blit, Filled, Disjoint, RawData;
    if n == 0 {
      assert Filled(Zeros(imageSize), file, secs, 0, 0, 0) by { NothingFilled(file, secs, imageSize); }
    } else {
      CopyFills(file, outside, secs, low, imageSize, n - 1);
      var sec, img := secs[n - 1], CopySections(Zeros(imageSize), file, outside, secs, n - 1).value;
      DisjointAt(secs, low, imageSize, n - 1);
      ExtentCovers(sec);
      var data := if HasPayload(sec) then RawData(file, outside, sec) else [];
      if HasPayload(sec) { RawDataInFile(file, outside, sec); }
      BlitSection(img, data, file, secs, low, 0, n - 1, 0, n, 0, n - 1);
      if !HasPayload(sec) {
        assert Blit(img, sec.virtualAddress, []) == img;
      }
    }
  }

  lemma {:induction false} NothingFilled(file: seq<byte>, secs: seq<Section>, imageSize: nat)
    requires AllRawInFile(secs, |file|)
    ensures Filled(Zeros(imageSize), file, secs, 0, 0, 0)
  {
    hide Extent;
  }

  // A section header that is the same 40 bytes decodes the same.
  lemma {:induction false} SectionSame(s: seq<byte>, t: seq<byte>, beyond: int -> byte, off: nat)
    requires off + SECTION_HEADER <= |s| && off + SECTION_HEADER <= |t|
    requires forall k :: off <= k < off + SECTION_HEADER ==> s[k] == t[k]
    ensures SectionAt(s, beyond, off) == SectionAt(t, NoBytes, off)
  {
    hide Value;
    SpanSame(s, t, beyond, off, 8);
    SpanSame(s, t, beyond, off + 8, 4);
    SpanSame(s, t, beyond, off + 12, 4);
    SpanSame(s, t, beyond, off + 16, 4);
    SpanSame(s, t, beyond, off + 20, 4);
    SpanSame(s, t, beyond, off + 36, 4);
  }

  lemma {:induction false} SpanSame(s: seq<byte>, t: seq<byte>, beyond: int -> byte, off: nat, n: nat)
    requires off + n <= |s| && off + n <= |t| && forall k :: off <= k < off + n ==> s[k] == t[k]
    ensures Span(s, beyond, off, n) == Span(t, NoBytes, off, n)
  {
  }

  // Clearing reads every section as the file has it, because none of it touches the headers.
  lemma {:induction false} ClearFills(img: seq<byte>, file: seq<byte>, nt: NtHeaders, beyond: int -> byte, off: nat,
          c: nat)
    requires
      var secs := FileSections(file, nt, off);
      && AllRawInFile(secs, |file|) && Disjoint(secs, nt.sizeOfHeaders, |img|) && c <= |secs|
      && off + SECTION_HEADER * nt.sectionCount <= nt.sizeOfHeaders
      && Filled(img, file, secs, nt.sizeOfHeaders, |secs|, c)
    ensures
      var secs, r := FileSections(file, nt, off), ClearSections(img, file, beyond, true, off, c, nt.sectionCount);
      r.Some? && |r.value| == |img| && Filled(r.value, file, secs, nt.sizeOfHeaders, |secs|, |secs|)
    decreases nt.sectionCount - c
  {
    hide Extent, Blit, SectionAt, Filled, Disjoint, ClearSize;
    var secs := FileSections(file, nt, off);
    if c < nt.sectionCount {
      var at, sec := off + SECTION_HEADER * c, secs[c];
      HeadersIn(img, file, secs, nt.sizeOfHeaders, |secs|, c);
      SectionSame(img, file, beyond, at);
      DisjointAt(secs, nt.sizeOfHeaders, |img|, c);
      ExtentCovers(sec);
      var size := ClearSize(sec);
      BlitSection(img, Zeros(size), file, secs, nt.sizeOfHeaders, nt.sizeOfHeaders, |secs|, c, |secs|, c + 1, c);
      var img' := Blit(img, sec.virtualAddress, Zeros(size));
      if size == 0 { assert img' == img; }
      ClearFills(img', file, nt, beyond, off, c + 1);
    }
  }

  lemma {:induction false} HeadersIn(img: seq<byte>, file: seq<byte>, secs: seq<Section>, headers: nat, n: nat, c: nat)
    requires AllRawInFile(secs, |file|) && Filled(img, file, secs, headers, n, c)
    ensures headers <= |file| && headers <= |img| && forall k :: 0 <= k < headers ==> img[k] == file[k]
  {
  }

  // Sections disjoint and above the headers, with their raw data in the file, the section table
  // (and e_lfanew) inside the headers, and a file small enough for its offsets to be C ints.
  predicate Tidy(file: seq<byte>, nt: NtHeaders, off: nat) {
    && Disjoint(FileSections(file, nt, off), nt.sizeOfHeaders, nt.sizeOfImage)
    && AllRawInFile(FileSections(file, nt, off), |file|)
    && off + SECTION_HEADER * nt.sectionCount <= nt.sizeOfHeaders
    && DOS_HEADER <= nt.sizeOfHeaders <= |file| && nt.sizeOfHeaders <= nt.sizeOfImage
    && |file| < 0x8000_0000
  }

  lemma {:induction false} OffsetInSection(nt: NtHeaders, secs: seq<Section>, k: nat, fileSize: nat, h: host, i: nat,
          j: nat)
    requires Disjoint(secs, nt.sizeOfHeaders, nt.sizeOfImage) && i <= j < |secs| && InExtent(secs[j], k)
    requires fileSize < 0x8000_0000 && secs[j].pointerToRawData + (k - secs[j].virtualAddress) <= fileSize
    ensures RvaToOffset(nt, secs, k, fileSize, h.wordSize, i) == secs[j].pointerToRawData + (k - secs[j].virtualAddress)
    decreases j - i
  {
    hide Extent, Disjoint;
    var off := secs[j].pointerToRawData + (k - secs[j].virtualAddress);
    ModUnique(off, h.wordSize, 0, off);
    DisjointAt(secs, nt.sizeOfHeaders, nt.sizeOfImage, i);
    if i < j {
      if InExtent(secs[i], k) { SameSection(secs, nt.sizeOfHeaders, nt.sizeOfImage, i, j, k); assert false; }
      OffsetInSection(nt, secs, k, fileSize, h, i + 1, j);
    }
  }

  lemma {:induction false} OffsetInHeaders(nt: NtHeaders, secs: seq<Section>, k: nat, fileSize: nat, h: host, i: nat)
    requires Disjoint(secs, nt.sizeOfHeaders, nt.sizeOfImage) && k < nt.sizeOfHeaders <= fileSize < 0x8000_0000
    ensures RvaToOffset(nt, secs, k, fileSize, h.wordSize, i) == k
    decreases |secs| - i
  {
    hide Extent, Disjoint;
    if i < |secs| {
      DisjointAt(secs, nt.sizeOfHeaders, nt.sizeOfImage, i);
      OffsetInHeaders(nt, secs, k, fileSize, h, i + 1);
    }
  }

  // After the headers are in, the image's own section table is found where the file's is.
  lemma {:induction false} TableInImage(img: seq<byte>, file: seq<byte>, nt: NtHeaders, beyond: int -> byte,
          wordSize: nat)
    requires wordSize > 0 && ParseSections(file, nt, wordSize).Some? && DOS_HEADER <= |img|
    requires forall k :: 0 <= k < DOS_HEADER ==> img[k] == file[k]
    ensures SectionTableRva(img, beyond, nt) == ParseSections(file, nt, wordSize).value
  {
    hide Value, FileSections;
    SpanSame(img, file, beyond, 60, 4);
    PeekIsLoad(file, NoBytes, 60, 4);
  }

  // The image before relocation mirrors the file: header RVAs and file-backed RVAs hold the
  // byte at the offset RvaToOffset gives them, and every other byte is zero.
  predicate Mirrors(file: seq<byte>, nt: NtHeaders, secs: seq<Section>, img: seq<byte>, h: host) {
    && (forall k :: 0 <= k < nt.sizeOfHeaders && k < |img| ==> HoldsByteAt(file, nt, secs, img, h, k))
    && (forall j, k :: 0 <= j < |secs| && 0 <= k < |img| && FileBacked(secs[j], k) ==>
        HoldsByteAt(file, nt, secs, img, h, k))
    && (forall k :: nt.sizeOfHeaders <= k < |img| && (forall j :: 0 <= j < |secs| ==> !FileBacked(secs[j], k)) ==>
        img[k] == 0)
  }

  predicate HoldsByteAt(file: seq<byte>, nt: NtHeaders, secs: seq<Section>, img: seq<byte>, h: host, k: nat)
    requires k < |img|
  {
    var off := RvaToOffset(nt, secs, k, |file|, h.wordSize, 0);
    0 <= off < |file| && img[k] == file[off]
  }

  lemma {:induction false} FilledMirrors(file: seq<byte>, nt: NtHeaders, secs: seq<Section>, img: seq<byte>, h: host)
    requires AllRawInFile(secs, |file|) && Disjoint(secs, nt.sizeOfHeaders, nt.sizeOfImage) && |img| == nt.sizeOfImage
    requires nt.sizeOfHeaders <= |file| < 0x8000_0000 && Filled(img, file, secs, nt.sizeOfHeaders, |secs|, |secs|)
    ensures Mirrors(file, nt, secs, img, h)
  {
    hide Disjoint, RvaToOffset, Extent, ClearSize;
    forall k | 0 <= k < nt.sizeOfHeaders && k < |img| ensures HoldsByteAt(file, nt, secs, img, h, k) {
      OffsetInHeaders(nt, secs, k, |file|, h, 0);
    }
    forall j, k | 0 <= j < |secs| && 0 <= k < |img| && FileBacked(secs[j], k)
      ensures HoldsByteAt(file, nt, secs, img, h, k)
    {
      ExtentCovers(secs[j]);
      OffsetInSection(nt, secs, k, |file|, h, 0, j);
    }
    forall k | nt.sizeOfHeaders <= k < |img| && (forall j :: 0 <= j < |secs| ==> !FileBacked(secs[j], k))
      ensures img[k] == 0
    {
      if j :| 0 <= j < |secs| && InExtent(secs[j], k) {
        assert !FileBacked(secs[j], k);
      }
    }
  }

  lemma {:induction false} LoadedFilled(file: seq<byte>, nt: NtHeaders, beyond: int -> byte, h: host)
    requires ParseSections(file, nt, h.wordSize).Some? && Tidy(file, nt, ParseSections(file, nt, h.wordSize).value)
    ensures
      var r, off := LoadImage(file, nt, beyond, h), ParseSections(file, nt, h.wordSize).value;
      var secs := FileSections(file, nt, off);
      && r.Some? && Filled(r.value.img, file, secs, nt.sizeOfHeaders, |secs|, |secs|)
      && r.value.inImage && r.value.table == off
  {
    hide ParseSections, CopySections, ClearSections, Blit, Disjoint, Filled, FileSections, SectionTableRva;
    var off := ParseSections(file, nt, h.wordSize).value;
    var secs := FileSections(file, nt, off);
    CopyFills(file, h.outside, secs, nt.sizeOfHeaders, nt.sizeOfImage, |secs|);
    var copied := CopySections(Zeros(nt.sizeOfImage), file, h.outside, secs, |secs|).value;
    var img := Blit(copied, 0, file[..nt.sizeOfHeaders]);
    HeadersFill(copied, file, nt, secs);
    TableInImage(img, file, nt, beyond, h.wordSize);
    ClearFills(img, file, nt, beyond, off, 0);
  }

  lemma {:induction false} ImageMirrorsFile(file: seq<byte>, nt: NtHeaders, beyond: int -> byte, h: host)
    requires ParseSections(file, nt, h.wordSize).Some? && Tidy(file, nt, ParseSections(file, nt, h.wordSize).value)
    ensures
      var r, off := LoadImage(file, nt, beyond, h), ParseSections(file, nt, h.wordSize).value;
      && r.Some? && Mirrors(file, nt, FileSections(file, nt, off), r.value.img, h)
      && r.value.inImage && r.value.table == off && forall k :: 0 <= k < nt.sizeOfHeaders ==> r.value.img[k] == file[k]
  {
    hide ParseSections, LoadImage, Disjoint, Filled, FileSections, Mirrors;
    LoadedFilled(file, nt, beyond, h);
    var secs := FileSections(file, nt, ParseSections(file, nt, h.wordSize).value);
    var img := LoadImage(file, nt, beyond, h).value.img;
    FilledMirrors(file, nt, secs, img, h);
    HeadersIn(img, file, secs, nt.sizeOfHeaders, |secs|, |secs|);
  }

  // What the image holds where a section lies, from the fields of its header: initialised data are
  // the file's bytes, then zeros; a section without a raw pointer, or flagged as uninitialised, is
  // zero over its virtual size (its raw size when that is zero), and raw data past it survive.
  predicate HoldsSection(img: seq<byte>, file: seq<byte>, sec: Section) {
    var va, ptr, raw, size := sec.virtualAddress, sec.pointerToRawData, sec.sizeOfRawData, sec.virtualSize;
    var uninitialised := sec.characteristics / 0x80 % 2 == 1;
    && va + raw <= |img| && va + size <= |img| && (ptr != 0 ==> ptr + raw <= |file|)
    && (ptr != 0 && !uninitialised ==> img[va..va + raw] == file[ptr..ptr + raw])
    && ((ptr == 0 || uninitialised) && size == 0 ==> img[va..va + raw] == Zeros(raw))
    && (ptr == 0 || uninitialised ==> img[va..va + size] == Zeros(size))
    && (ptr != 0 && uninitialised && 0 < size <= raw ==> img[va + size..va + raw] == file[ptr + size..ptr + raw])
    && (ptr == 0 && size <= raw ==> img[va + size..va + raw] == Zeros(raw - size))
    && (raw <= size ==> img[va + raw..va + size] == Zeros(size - raw))
  }

  lemma {:induction false} SectionContents(file: seq<byte>, nt: NtHeaders, beyond: int -> byte, h: host, j: nat)
    requires ParseSections(file, nt, h.wordSize).Some? && Tidy(file, nt, ParseSections(file, nt, h.wordSize).value)
    requires j < nt.sectionCount
    ensures
      var r, off := LoadImage(file, nt, beyond, h), ParseSections(file, nt, h.wordSize).value;
      r.Some? && HoldsSection(r.value.img, file, FileSections(file, nt, off)[j])
  {
    hide ParseSections, LoadImage, Disjoint, Filled, FileSections, HoldsSection;
    LoadedFilled(file, nt, beyond, h);
    var secs := FileSections(file, nt, ParseSections(file, nt, h.wordSize).value);
    DisjointAt(secs, nt.sizeOfHeaders, nt.sizeOfImage, j);
    FilledSection(LoadImage(file, nt, beyond, h).value.img, file, secs, nt.sizeOfHeaders, j);
  }

  lemma {:induction false} FilledSection(img: seq<byte>, file: seq<byte>, secs: seq<Section>, headers: nat, j: nat)
    requires AllRawInFile(secs, |file|) && Filled(img, file, secs, headers, |secs|, |secs|) && j < |secs|
    requires secs[j].virtualAddress + Extent(secs[j]) <= |img|
    ensures HoldsSection(img, file, secs[j])
  {
    var sec := secs[j];
    ExtentCovers(sec);
    forall k | sec.virtualAddress <= k < sec.virtualAddress + Extent(sec)
      ensures img[k] == SectionByte(file, sec, true, true, k)
    {
      assert InExtent(sec, k);
    }
    BytesOfSection(img, file, sec);
  }

  lemma {:induction false} BytesOfSection(img: seq<byte>, file: seq<byte>, sec: Section)
    requires RawInFile(sec, |file|) && sec.virtualAddress + Extent(sec) <= |img|
    requires forall k :: InExtent(sec, k) ==> img[k] == SectionByte(file, sec, true, true, k)
    ensures HoldsSection(img, file, sec)
  {
    ExtentCovers(sec);
  }

  lemma {:induction false} HeadersFill(img: seq<byte>, file: seq<byte>, nt: NtHeaders, secs: seq<Section>)
    requires AllRawInFile(secs, |file|) && Disjoint(secs, nt.sizeOfHeaders, |img|) && nt.sizeOfHeaders <= |file|
    requires nt.sizeOfHeaders <= |img|
    requires Filled(img, file, secs, 0, |secs|, 0)
    ensures Filled(Blit(img, 0, file[..nt.sizeOfHeaders]), file, secs, nt.sizeOfHeaders, |secs|, 0)
  {
    hide Extent, Blit, SectionByte;
  }

  // ---- The whole mapping -----------------------------------------------------------------------------

  datatype Protection = Protection(rva: nat, size: nat, read: bool, write: bool, execute: bool)

  function ProtectedSize(sec: Section, wordSize: nat): nat
    requires wordSize > 0
  {
    var size := if sec.virtualSize == 0 then sec.sizeOfRawData else sec.virtualSize;
    (size + PAGE - 1) % wordSize / PAGE * PAGE
  }

  // Step 6: the protections requested for sections i.., read from the finished image.
  function Protections(img: seq<byte>, file: seq<byte>, beyond: int -> byte, inImage: bool, off: nat, wordSize: nat,
          i: nat, n: nat, done: seq<Protection>): Option<seq<Protection>>
    requires wordSize > 0
    decreases n - i
  {
    if i >= n then Some(done)
    else
      var sec := SectionAt(if inImage then img else file, beyond, off + SECTION_HEADER * i);
      if sec.virtualSize == 0 && sec.sizeOfRawData == 0 then
        Protections(img, file, beyond, inImage, off, wordSize, i + 1, n, done)
      else if !RangeValid(sec.virtualAddress, ProtectedSize(sec, wordSize), |img|) then None
      else Protections(img, file, beyond, inImage, off, wordSize, i + 1, n, done + [ProtectionOf(sec, wordSize)])
  }

  function ProtectionOf(sec: Section, wordSize: nat): Protection
    requires wordSize > 0
  {
    Protection(sec.virtualAddress, ProtectedSize(sec, wordSize), sec.Flag(MEM_READ), sec.Flag(MEM_WRITE),
      sec.Flag(MEM_EXECUTE))
  }

  // The bits asked for are the section's own, on the least whole number of pages that covers it; a
  // 32-bit host that cannot round up asks for nothing.
  lemma {:induction false} ProtectionAsked(sec: Section, h: host)
    ensures
      var p, size := ProtectionOf(sec, h.wordSize), if sec.virtualSize == 0 then sec.sizeOfRawData else sec.virtualSize;
      && p.rva == sec.virtualAddress
      && (p.read <==> sec.characteristics / 0x4000_0000 % 2 == 1)
      && (p.write <==> sec.characteristics / 0x8000_0000 % 2 == 1)
      && (p.execute <==> sec.characteristics / 0x2000_0000 % 2 == 1)
      && (size + 4095 < h.wordSize ==> p.size % 4096 == 0 && size <= p.size < size + 4096)
      && (size + 4095 >= h.wordSize ==> p.size == 0)
  {
  }

  // The file's image, mapped at `base` (the address the kernel gave), with its protections.
  function MapImage(file: seq<byte>, nt: NtHeaders, beyond: int -> byte, base: nat,
          h: host): (r: Option<(seq<byte>, seq<Protection>)>)
    ensures r.Some? ==> |r.value.0| == nt.sizeOfImage
  {
    var loaded := LoadImage(file, nt, beyond, h);
    if loaded.None? then None
    else
      var r := R.Relocate(loaded.value.img, nt, beyond, base, h.wordSize);
      if !r.0 then None
      else
        var inImage, table := loaded.value.inImage, loaded.value.table;
        match Protections(r.1, file, beyond, inImage, table, h.wordSize, 0, nt.sectionCount, [])
        case None => None
        case Some(ps) => Some((r.1, ps))
  }

  method MapImageAt(file: seq<byte>, nt: NtHeaders, beyond: int -> byte, base: nat, h: host)
    returns (ok: bool, a: array<byte>, ps: seq<Protection>)
    ensures fresh(a)
    ensures ok ==> MapImage(file, nt, beyond, base, h) == Some((a[..], ps))
    ensures !ok ==> MapImage(file, nt, beyond, base, h).None?
  {
    hide LoadImage, R.Relocate, SectionAt, ProtectionOf, ProtectedSize;
    a, ps := new byte[nt.sizeOfImage](_ => 0), [];
    assert a[..] == Zeros(nt.sizeOfImage);
    var inImage, off;
    ok, inImage, off := FillImage(a, file, nt, beyond, h);
    if !ok { return; }
    ok := R.ApplyRelocations(a, nt, beyond, base, h.wordSize);
    if !ok { return; }
    for i := 0 to nt.sectionCount
      invariant Protections(a[..], file, beyond, inImage, off, h.wordSize, i, nt.sectionCount, ps)
        == Protections(a[..], file, beyond, inImage, off, h.wordSize, 0, nt.sectionCount, [])
    {
      var sec := SectionAt(if inImage then a[..] else file, beyond, off + SECTION_HEADER * i);
      if sec.virtualSize == 0 && sec.sizeOfRawData == 0 { continue; }
      if !RangeValid(sec.virtualAddress, ProtectedSize(sec, h.wordSize), a.Length) { return false, a, ps; }
      ps := ps + [ProtectionOf(sec, h.wordSize)];
    }
  }

  predicate Unprotected(sec: Section) {
    sec.virtualSize == 0 && sec.sizeOfRawData == 0
  }

  // Every section's range, rounded up to pages, ends inside the image.
  predicate ProtectionsFit(secs: seq<Section>, wordSize: nat, imageSize: nat)
    requires wordSize > 0
  {
    forall i :: 0 <= i < |secs| ==>
      Unprotected(secs[i]) || secs[i].virtualAddress + ProtectedSize(secs[i], wordSize) <= imageSize
  }

  // The protections of these sections, in table order.
  function Wanted(secs: seq<Section>, wordSize: nat): seq<Protection>
    requires wordSize > 0
  {
    if secs == [] then []
    else (if Unprotected(secs[0]) then [] else [ProtectionOf(secs[0], wordSize)]) + Wanted(secs[1..], wordSize)
  }

  lemma {:induction false} ProtectionsOf(img: seq<byte>, file: seq<byte>, beyond: int -> byte, off: nat, wordSize: nat,
          secs: seq<Section>, i: nat, done: seq<Protection>)
    requires wordSize > 0 && i <= |secs|
    requires forall j :: i <= j < |secs| ==> SectionAt(img, beyond, off + SECTION_HEADER * j) == secs[j]
    ensures
      var r := Protections(img, file, beyond, true, off, wordSize, i, |secs|, done);
      && (r.Some? <==> ProtectionsFit(secs[i..], wordSize, |img|))
      && (r.Some? ==> r.value == done + Wanted(secs[i..], wordSize))
    decreases |secs| - i
  {
    hide SectionAt, ProtectedSize, ProtectionOf;
    if i == |secs| {
      assert secs[i..] == [];
    } else {
      var sec, rest := secs[i], secs[i + 1..];
      assert secs[i..][0] == sec && secs[i..][1..] == rest;
      assert secs[i..] == [sec] + rest;
      var next := if Unprotected(sec) then done else done + [ProtectionOf(sec, wordSize)];
      ProtectionsOf(img, file, beyond, off, wordSize, secs, i + 1, next);
      FitsSplit(sec, rest, wordSize, |img|);
    }
  }

  lemma {:induction false} FitsSplit(sec: Section, rest: seq<Section>, wordSize: nat, imageSize: nat)
    requires wordSize > 0
    ensures ProtectionsFit([sec] + rest, wordSize, imageSize) <==>
      (Unprotected(sec) || sec.virtualAddress + ProtectedSize(sec, wordSize) <= imageSize)
        && ProtectionsFit(rest, wordSize, imageSize)
  {
    hide ProtectedSize;
    var all := [sec] + rest;
    assert forall i :: 0 <= i < |rest| ==> all[i + 1] == rest[i];
    assert all[0] == sec;
  }

  // From file to relocated image: outside the relocation targets, header and file-backed RVAs
  // hold the file's bytes and all others are zero; each target holds the loaded word, moved.
  // When no target lies in the headers, mapping succeeds exactly when relocation does and every
  // section's protection fits, and the protections are those of the file's own sections.
  lemma {:induction false} MappedMirrorsFile(file: seq<byte>, nt: NtHeaders, beyond: int -> byte, base: nat,
          h: host)
    requires ParseSections(file, nt, h.wordSize).Some? && Tidy(file, nt, ParseSections(file, nt, h.wordSize).value)
    requires LoadImage(file, nt, beyond, h).Some? ==> R.Separated(LoadImage(file, nt, beyond, h).value.img, nt, beyond)
    ensures
      var loaded, r := LoadImage(file, nt, beyond, h), MapImage(file, nt, beyond, base, h);
      && loaded.Some?
      && var secs, img := FileSections(file, nt, ParseSections(file, nt, h.wordSize).value), loaded.value.img;
      && var fs := R.Fixups(img, nt, beyond).1;
      && Mirrors(file, nt, secs, img, h)
      && (r.Some? ==> R.Moved(img, r.value.0, fs, R.Delta(base, nt.imageBase, h.wordSize)))
      && (R.Clear(fs, 0, nt.sizeOfHeaders) ==>
          && (r.Some? <==>
              R.Accepts(img, nt, beyond, base, h.wordSize) && ProtectionsFit(secs, h.wordSize, nt.sizeOfImage))
          && (r.Some? ==> r.value.1 == Wanted(secs, h.wordSize)))
  {
    hide LoadImage, Mirrors, R.Relocate, R.Fixups, R.Moved, R.Clear, ParseSections, Protections, Tidy, R.Accepts;
    hide ProtectionsFit, Wanted;
    ImageMirrorsFile(file, nt, beyond, h);
    var loaded, off := LoadImage(file, nt, beyond, h).value, ParseSections(file, nt, h.wordSize).value;
    var secs := FileSections(file, nt, off);
    var r := R.Relocate(loaded.img, nt, beyond, base, h.wordSize);
    R.RelocateEffect(loaded.img, nt, beyond, base, h.wordSize);
    if r.0 && R.Clear(R.Fixups(loaded.img, nt, beyond).1, 0, nt.sizeOfHeaders) {
      HeadersStay(file, nt, loaded.img, r.1, R.Fixups(loaded.img, nt, beyond).1,
        R.Delta(base, nt.imageBase, h.wordSize), beyond, off);
      ProtectionsOf(r.1, file, beyond, off, h.wordSize, secs, 0, []);
      assert secs[0..] == secs && [] + Wanted(secs, h.wordSize) == Wanted(secs, h.wordSize);
    }
  }

  // A relocated image still has the file's section table, when no target lies in the headers.
  lemma {:induction false} HeadersStay(file: seq<byte>, nt: NtHeaders, img: seq<byte>, moved: seq<byte>,
          fs: seq<R.Fixup>, delta: nat, beyond: int -> byte, off: nat)
    requires R.AllInside(img, fs) && R.Moved(img, moved, fs, delta) && R.Clear(fs, 0, nt.sizeOfHeaders)
    requires |img| == nt.sizeOfImage && Tidy(file, nt, off)
    requires forall k :: 0 <= k < nt.sizeOfHeaders ==> img[k] == file[k]
    ensures forall j :: 0 <= j < nt.sectionCount ==>
      SectionAt(moved, beyond, off + SECTION_HEADER * j) == FileSections(file, nt, off)[j]
  {
    hide Disjoint, SectionAt;
    forall k | 0 <= k < nt.sizeOfHeaders ensures moved[k] == file[k] {
      assert !R.InTarget(fs, k);
    }
    forall j | 0 <= j < nt.sectionCount
      ensures SectionAt(moved, beyond, off + SECTION_HEADER * j) == FileSections(file, nt, off)[j]
    {
      SectionSame(moved, file, beyond, off + SECTION_HEADER * j);
    }
  }
}
