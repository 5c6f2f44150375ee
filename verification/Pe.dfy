/**
 The parts of the PE headers the loader consults, and its bounds check on
 relative virtual addresses (RVAs).
 */
module Pe {
  import opened Bytes

  datatype Option<+T> = None | Some(value: T)

  datatype DataDirectory = DataDirectory(rva: u32, size: u32)

  // The header fields of either image type; `directories` has NumberOfRvaAndSizes entries.
  datatype NtHeaders = NtHeaders(
    pe32: bool,
    imageBase: u64,
    sizeOfImage: u32,
    sizeOfHeaders: u32,
    optionalHeaderSize: u16,
    sectionCount: u16,
    relocsStripped: bool,
    directories: seq<DataDirectory>)

  const EXPORT_DIRECTORY := 0
  const IMPORT_DIRECTORY := 1
  const BASERELOC_DIRECTORY := 5

  function Directory(nt: NtHeaders, index: nat): Option<DataDirectory> {
    if index < |nt.directories| then Some(nt.directories[index]) else None
  }

  // rva .. rva+len lies inside an image of the given size (written so that nothing overflows).
  predicate RangeValid(rva: nat, len: nat, imageSize: nat)
    ensures RangeValid(rva, len, imageSize) <==> rva + len <= imageSize
  {
    len <= imageSize && rva <= imageSize - len
  }

  // ---- Sections ---------------------------------------------------------------

  type Name8 = s: seq<byte> | |s| == 8 witness [0, 0, 0, 0, 0, 0, 0, 0]

  datatype Section = Section(
    name: Name8,
    virtualSize: u32,
    virtualAddress: u32,
    sizeOfRawData: u32,
    pointerToRawData: u32,
    characteristics: u32)
  {
    predicate Flag(bit: nat)
      requires bit > 0
    {
      characteristics / bit % 2 == 1
    }
  }

  const SECTION_HEADER := 40

  // The section header at off, wherever that lies.
  function SectionAt(img: seq<byte>, beyond: int -> byte, off: nat): Section {
    Section(Span(img, beyond, off, 8), Peek32(img, beyond, off + 8), Peek32(img, beyond, off + 12),
      Peek32(img, beyond, off + 16), Peek32(img, beyond, off + 20), Peek32(img, beyond, off + 36))
  }

  // The 40 bytes of a section header, with the 12 bytes of relocation and line-number fields
  // the loader ignores.
  function SectionHeader(sec: Section, ignored: seq<byte>): (r: seq<byte>)
    requires |ignored| == 12
    ensures |r| == 40
  {
    sec.name + Word(sec.virtualSize, 4) + Word(sec.virtualAddress, 4) + Word(sec.sizeOfRawData, 4)
      + Word(sec.pointerToRawData, 4) + ignored + Word(sec.characteristics, 4)
  }

  lemma {:induction false} FieldAt(img: seq<byte>, beyond: int -> byte, off: nat, v: u32)
    requires off + 4 <= |img| && img[off..off + 4] == Word(v, 4)
    ensures Peek32(img, beyond, off) == v
  {
    PeekIsLoad(img, beyond, off, 4);
    ValueOfWord(v, 4);
    CapacityValues();
  }

  // Reading a section header gives back the section it was written from.
  lemma {:induction false} HeaderDecodes(img: seq<byte>, beyond: int -> byte, off: nat, sec: Section,
          ignored: seq<byte>)
    requires |ignored| == 12 && off + 40 <= |img| && img[off..off + 40] == SectionHeader(sec, ignored)
    ensures SectionAt(img, beyond, off) == sec
  {
    hide Word, Peek32;
    var bytes := SectionHeader(sec, ignored);
    assert bytes[0..8] == sec.name && bytes[8..12] == Word(sec.virtualSize, 4);
    assert bytes[12..16] == Word(sec.virtualAddress, 4) && bytes[16..20] == Word(sec.sizeOfRawData, 4);
    assert bytes[20..24] == Word(sec.pointerToRawData, 4) && bytes[36..40] == Word(sec.characteristics, 4);
    PartAt(img, off, bytes, 8, 4);
    PartAt(img, off, bytes, 12, 4);
    PartAt(img, off, bytes, 16, 4);
    PartAt(img, off, bytes, 20, 4);
    PartAt(img, off, bytes, 36, 4);
    PartAt(img, off, bytes, 0, 8);
    FieldAt(img, beyond, off + 8, sec.virtualSize);
    FieldAt(img, beyond, off + 12, sec.virtualAddress);
    FieldAt(img, beyond, off + 16, sec.sizeOfRawData);
    FieldAt(img, beyond, off + 20, sec.pointerToRawData);
    FieldAt(img, beyond, off + 36, sec.characteristics);
    assert Span(img, beyond, off, 8) == sec.name by { assert Span(img, beyond, off, 8) == img[off..off + 8]; }
  }

  // A part of a range of the image is that part of the image.
  lemma {:induction false} PartAt(img: seq<byte>, off: nat, bytes: seq<byte>, at: nat, n: nat)
    requires off + |bytes| <= |img| && img[off..off + |bytes|] == bytes && at + n <= |bytes|
    ensures img[off + at..off + at + n] == bytes[at..at + n]
  {
    var part := img[off + at..off + at + n];
    forall k | 0 <= k < n ensures part[k] == bytes[at + k] {
      assert bytes[at + k] == img[off..off + |bytes|][at + k];
    }
  }

  function SectionTable(img: seq<byte>, beyond: int -> byte, off: nat, n: nat): (r: seq<Section>)
    ensures |r| == n && forall i :: 0 <= i < n ==> r[i] == SectionAt(img, beyond, off + SECTION_HEADER * i)
  {
    if n == 0 then []
    else SectionTable(img, beyond, off, n - 1) + [SectionAt(img, beyond, off + SECTION_HEADER * (n - 1))]
  }

  // Where the section table of a mapped image starts: 32-bit arithmetic on e_lfanew.
  function SectionTableRva(img: seq<byte>, beyond: int -> byte, nt: NtHeaders): nat {
    (Peek32(img, beyond, 60) + 4 + 20 + nt.optionalHeaderSize) % U32
  }

  function ImageSections(img: seq<byte>, beyond: int -> byte, nt: NtHeaders): (r: seq<Section>)
    ensures |r| == nt.sectionCount
  {
    SectionTable(img, beyond, SectionTableRva(img, beyond, nt), nt.sectionCount)
  }

  const CNT_CODE := 0x20
  const CNT_UNINITIALIZED_DATA := 0x80
  const MEM_EXECUTE := 0x2000_0000
  const MEM_READ := 0x4000_0000
  const MEM_WRITE := 0x8000_0000

  function Lower(c: byte): byte {
    if 'A' as int <= c <= 'Z' as int then c + 32 else c
  }

  // The same byte, or one ASCII letter in two cases.
  predicate SameLetter(a: byte, b: byte) {
    a == b || (0x41 <= a <= 0x5A && b == a + 0x20) || (0x41 <= b <= 0x5A && a == b + 0x20)
  }

  lemma {:induction false} LowerFolds(a: byte, b: byte)
    ensures Lower(a) == Lower(b) <==> SameLetter(a, b)
  {
  }

  // The section is called `code`, up to letter case, with a terminator after it.
  predicate Named(sec: Section, code: string)
    requires |code| < 8 && forall k :: 0 <= k < |code| ==> code[k] < 256 as char
  {
    (forall k :: 0 <= k < |code| ==> Lower(sec.name[k]) == Lower(code[k] as int)) && sec.name[|code|] == 0
  }

  const CODE_NAMES := [".text", "BEGTEXT", "TEXT", "CODE"]

  predicate IsCode(sec: Section, rank: nat) {
    if rank < 4 then Named(sec, CODE_NAMES[rank]) else sec.Flag(CNT_CODE) && sec.Flag(MEM_EXECUTE)
  }

  predicate Spells(name: Name8, code: string)
    requires |code| < 8 && forall k :: 0 <= k < |code| ==> code[k] < 256 as char
  {
    (forall k :: 0 <= k < |code| ==> SameLetter(name[k], code[k] as int)) && name[|code|] == 0
  }

  lemma {:induction false} NamedSpells(sec: Section, code: string)
    requires |code| < 8 && forall k :: 0 <= k < |code| ==> code[k] < 256 as char
    ensures Named(sec, code) <==> Spells(sec.name, code)
  {
    hide Lower, SameLetter;
    forall k | 0 <= k < |code|
      ensures Lower(sec.name[k]) == Lower(code[k] as int) <==> SameLetter(sec.name[k], code[k] as int)
    {
      LowerFolds(sec.name[k], code[k] as int);
    }
  }

  // The four names in their order, and the two flag bits that stand in for a name.
  lemma {:induction false} CodeRanks(sec: Section)
    ensures IsCode(sec, 0) <==> Spells(sec.name, ".text")
    ensures IsCode(sec, 1) <==> Spells(sec.name, "BEGTEXT")
    ensures IsCode(sec, 2) <==> Spells(sec.name, "TEXT")
    ensures IsCode(sec, 3) <==> Spells(sec.name, "CODE")
    ensures IsCode(sec, 4) <==> sec.characteristics / 0x20 % 2 == 1 && sec.characteristics / 0x2000_0000 % 2 == 1
  {
    hide Named, Spells;
    NamedSpells(sec, ".text");
    NamedSpells(sec, "BEGTEXT");
    NamedSpells(sec, "TEXT");
    NamedSpells(sec, "CODE");
  }

  // The code section: the best-ranked name wins over table order, and the flags come last.
  ghost predicate IsCodeSection(sections: seq<Section>, i: nat) {
    i < |sections| && exists rank :: 0 <= rank <= 4 && Wins(sections, i, rank)
  }

  predicate Wins(sections: seq<Section>, i: nat, rank: nat)
    requires i < |sections|
  {
    && IsCode(sections[i], rank)
    && (forall j :: 0 <= j < i ==> !IsCode(sections[j], rank))
    && (forall better, j :: 0 <= better < rank && 0 <= j < |sections| ==> !IsCode(sections[j], better))
  }

  lemma {:induction false} CodeSectionUnique(sections: seq<Section>, i: nat, j: nat)
    requires IsCodeSection(sections, i) && IsCodeSection(sections, j)
    ensures i == j
  {
    hide IsCode;
  }

  ghost function CodeSection(sections: seq<Section>): (r: Option<nat>)
    ensures r.Some? ==> IsCodeSection(sections, r.value)
  {
    if exists i :: IsCodeSection(sections, i) then
      var i :| IsCodeSection(sections, i); Some(i)
    else None
  }

  method FindCodeSection(sections: seq<Section>) returns (r: Option<nat>)
    ensures r == CodeSection(sections)
    ensures r.None? <==> forall rank, j :: 0 <= rank <= 4 && 0 <= j < |sections| ==> !IsCode(sections[j], rank)
  {
    hide IsCode;
    for rank := 0 to 5
      invariant forall better, j :: 0 <= better < rank && 0 <= j < |sections| ==> !IsCode(sections[j], better)
    {
      for i := 0 to |sections|
        invariant forall j :: 0 <= j < i ==> !IsCode(sections[j], rank)
      {
        if IsCode(sections[i], rank) {
          assert Wins(sections, i, rank);
          assert IsCodeSection(sections, i);
          CodeSectionUnique(sections, i, CodeSection(sections).value);
          return Some(i);
        }
      }
    }
    return None;
  }
}
