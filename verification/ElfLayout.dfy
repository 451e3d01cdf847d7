/** csrc/src/elf_gen.c: headers, and the offsets fix_header_offsets gives to segments and sections that
    it visits in the order of the lists below. */
module ElfLayout {
  import opened MachineInts
  import opened Slices
  import opened Bits
  import opened Chains

  const EHDR_SIZE := 52
  const PHDR_SIZE := 32
  const SHDR_SIZE := 40
  const PAGE_SIZE := 4096

  const PT_LOAD := 1
  const PF_X := 1
  const PF_W := 2
  const PF_R := 4

  const SHT_PROGBITS := 1
  const SHT_STRTAB := 3
  const SHT_NOBITS := 8
  const SHF_WRITE := 1
  const SHF_ALLOC := 2
  const SHF_EXECINSTR := 4
  const SHF_STRINGS := 0x20

  const SHSTRTAB := ".shstrtab"

  /** The fields of Elf32_Ehdr that vary. */
  datatype Ehdr = Ehdr(entry: Word, phoff: Word, shoff: Word, phentsize: int, phnum: int, shentsize: int, shnum: int, shstrndx: int)

  const NEW_EHDR := Ehdr(0, 0, 0, 0, 0, 0, 0, 0)

  datatype Phdr = Phdr(kind: Word, offset: Word, vaddr: Word, paddr: Word, filesz: Word, memsz: Word, flags: Word, align: Word)

  datatype Shdr = Shdr(name: Word, kind: Word, flags: Word, addr: Word, offset: Word, size: Word,
                       link: Word, info: Word, addralign: Word, entsize: Word)

  const NULL_SHDR := Shdr(0, 0, 0, 0, 0, 0, 0, 0, 0, 0)

  /** A byte vector with a header. `stored` says that it has storage, which a length alone does not mean. */
  datatype Piece<H> = Piece(data: seq<Byte>, length: nat, stored: bool, header: H) {
    predicate Ok() { stored ==> |data| == length }
  }

  type Segment = Piece<Phdr>
  type Section = Piece<Shdr>

  // ----- alignment -----

  /** (val + align - 1) & ~(align - 1) */
  function AlignTo(val: nat, align: nat): nat
    requires align > 0
  {
    var top := val + align - 1;
    AndCommutes(top, align - 1);
    AndAtMost(align - 1, top);
    top - And(top, align - 1)
  }

  /** The least multiple of a power of two from `val` on. */
  lemma AlignsUp(val: nat, align: nat)
    requires IsPow2(align)
    ensures align > 0 && val <= AlignTo(val, align) < val + align && AlignTo(val, align) % align == 0
    ensures val % align == 0 ==> AlignTo(val, align) == val
  {
    hide Pow2, And;
    var n: nat :| align == Pow2(n);
    MaskIsMod(val + align - 1, n);
    var top := val + align - 1;
    ModUnique(top - top % align, align, top / align, 0);
    if val % align == 0 {
      ModUnique(top, align, val / align, align - 1);
    }
  }

  lemma PageIsPow2()
    ensures IsPow2(PAGE_SIZE)
  {
    assert Pow2(4) == 16 && Pow2(8) == 256;
    Pow2Add(4, 8);
  }

  predicate Paged(x: int) { x % PAGE_SIZE == 0 }

  function PageAlign(x: nat): nat { AlignTo(x, PAGE_SIZE) }

  /** The next page boundary. */
  lemma PageAligns(x: nat)
    ensures x <= PageAlign(x) < x + PAGE_SIZE && Paged(PageAlign(x)) && (Paged(x) ==> PageAlign(x) == x)
  {
    hide AlignTo;
    PageIsPow2();
    AlignsUp(x, PAGE_SIZE);
  }

  // ----- segments -----

  predicate InFile(s: Segment) { s.length != 0 && s.stored }

  function PlaceSegment(s: Segment, offset: nat): Segment {
    if InFile(s) then
      s.(header := s.header.(filesz := Wrap32(s.length), memsz := Wrap32(s.length), offset := Wrap32(offset)))
    else if s.length != 0 then s.(header := s.header.(memsz := Wrap32(s.length), offset := Wrap32(offset)))
    else s
  }

  function AfterSegment(s: Segment, offset: nat): nat {
    if InFile(s) then PageAlign(offset + s.length) else offset
  }

  /** The running offset behind all of `segs`. */
  function AfterSegments(segs: seq<Segment>, start: nat): nat {
    if segs == [] then start
    else AfterSegment(segs[|segs| - 1], AfterSegments(segs[..|segs| - 1], start))
  }

  /** The first `k` segments placed. */
  function SegmentsPlaced(segs: seq<Segment>, start: nat, k: nat): (r: seq<Segment>)
    ensures |r| == |segs|
  {
    seq(|segs|, i requires 0 <= i < |segs| =>
      if i < k then PlaceSegment(segs[i], AfterSegments(segs[..i], start)) else segs[i])
  }

  // ----- sections -----

  /** sh_type & ~SHT_NOBITS */
  predicate HasFileType(s: Section) { s.header.kind - SHT_NOBITS * (s.header.kind / SHT_NOBITS % 2) != 0 }

  /** The two types without bytes in a file: SHT_NULL and SHT_NOBITS. */
  lemma FileTypes(s: Section)
    ensures HasFileType(s) <==> s.header.kind != 0 && s.header.kind != 8
  {
  }

  function AfterSection(s: Section, offset: nat): nat {
    if s.length != 0 && HasFileType(s) then PageAlign(offset + s.length) else offset
  }

  function AfterSections(secs: seq<Section>, start: nat): nat {
    if secs == [] then start
    else AfterSection(secs[|secs| - 1], AfterSections(secs[..|secs| - 1], start))
  }

  /** .shstrtab: a NUL, its own name, and the names of the sections, each with its NUL. */
  function NameTable(names: seq<string>): seq<Byte> {
    if names == [] then [0] + CBytes(SHSTRTAB)
    else NameTable(names[..|names| - 1]) + CBytes(names[|names| - 1])
  }

  /** `after` is the offset behind the section's own bytes; `seg` is the segment of the same name. */
  function PlaceSection(s: Section, name: nat, after: nat, seg: Option<Segment>): Section {
    var header := s.header.(name := Wrap32(name));
    if seg.Some? then
      s.(header := header.(size := Wrap32(seg.value.length), offset := seg.value.header.offset, addr := seg.value.header.vaddr))
    else if s.length != 0 then s.(header := header.(size := Wrap32(s.length), offset := Wrap32(after)))
    else s.(header := header)
  }

  function Lookup<T>(m: map<string, T>, key: string): Option<T> { if key in m then Some(m[key]) else None }

  function SectionPlaced(names: seq<string>, secs: seq<Section>, segs: map<string, Segment>, start: nat, i: nat): Section
    requires i < |secs| == |names|
  {
    PlaceSection(secs[i], |NameTable(names[..i])|, AfterSections(secs[..i + 1], start), Lookup(segs, names[i]))
  }

  /** The first `k` sections placed. */
  function SectionsPlaced(names: seq<string>, secs: seq<Section>, segs: map<string, Segment>, start: nat, k: nat): (r: seq<Section>)
    requires |secs| == |names|
    ensures |r| == |secs|
  {
    seq(|secs|, i requires 0 <= i < |secs| => if i < k then SectionPlaced(names, secs, segs, start, i) else secs[i])
  }

  function NameSection(names: seq<string>, offset: nat): Section {
    var data := NameTable(names);
    Piece(data, |data|, true,
          Shdr(1, SHT_STRTAB, SHF_STRINGS, 0, Wrap32(offset), Wrap32(|data|), 0, 0, PAGE_SIZE, 0))
  }

  // ----- the whole layout -----

  /** The section headers follow the program headers, the null section first. */
  function SectionTable(segments: nat): nat { EHDR_SIZE + PHDR_SIZE * segments }

  /** Where the first segment goes: the section headers are not counted. */
  function FirstOffset(segments: nat): nat { PageAlign(SectionTable(segments)) }

  lemma FirstOffsetPaged(segments: nat)
    ensures Paged(FirstOffset(segments)) && SectionTable(segments) <= FirstOffset(segments) < SectionTable(segments) + PAGE_SIZE
  {
    hide PageAlign, Paged;
    PageAligns(SectionTable(segments));
  }

  function NamesOffset(segments: nat, segs: seq<Segment>, secs: seq<Section>): nat {
    AfterSections(secs, AfterSegments(segs, FirstOffset(segments)))
  }

  /** What fix_header_offsets makes of the segments `segs` and of the sections `secs` called `names`. */
  ghost predicate LaidOut(segments: nat, segs: seq<Segment>, names: seq<string>, secs: seq<Section>,
                          segs': seq<Segment>, segMap: map<string, Segment>, secMap: map<string, Section>)
    requires |names| == |secs|
  {
    var start := AfterSegments(segs, FirstOffset(segments));
    && segs' == SegmentsPlaced(segs, FirstOffset(segments), |segs|)
    && secMap.Keys == (set n | n in names) + {SHSTRTAB}
    && secMap[SHSTRTAB] == NameSection(names, AfterSections(secs, start))
    && forall i :: 0 <= i < |names| ==> SectionOk(names, secs, segMap, secMap, start, i)
  }

  /** Section `i` is found placed under its name, which .shstrtab may have taken over. */
  ghost predicate SectionOk(names: seq<string>, secs: seq<Section>, segMap: map<string, Segment>,
                            secMap: map<string, Section>, start: nat, i: nat)
    requires i < |names| == |secs|
  {
    names[i] != SHSTRTAB ==> names[i] in secMap && secMap[names[i]] == SectionPlaced(names, secs, segMap, start, i)
  }

  // ----- the properties of the layout -----

  /** Segments with bytes in the file get page-aligned ranges, one behind the other. */
  lemma {:induction false} SegmentRanges(segs: seq<Segment>, start: nat, i: nat, j: nat)
    requires i < j <= |segs| && Paged(start)
    ensures var at := AfterSegments(segs[..i], start);
            && start <= at <= AfterSegments(segs[..j], start)
            && Paged(at) && Paged(AfterSegments(segs[..j], start))
            && (InFile(segs[i]) ==> at + segs[i].length <= AfterSegments(segs[..j], start))
  {
    hide Paged, PageAlign, AfterSegments;
    SegmentStep(segs, start, j - 1);
    PageAligns(AfterSegments(segs[..j - 1], start) + segs[j - 1].length);
    if i < j - 1 {
      SegmentRanges(segs, start, i, j - 1);
    } else {
      SegmentsStart(segs, start, i);
    }
  }

  lemma SegmentStep(segs: seq<Segment>, start: nat, i: nat)
    requires i < |segs|
    ensures AfterSegments(segs[..i + 1], start) == AfterSegment(segs[i], AfterSegments(segs[..i], start))
  {
    assert segs[..i + 1][..i] == segs[..i];
  }

  lemma SegmentPlacedNext(segs: seq<Segment>, start: nat, k: nat)
    requires k < |segs|
    ensures var r, at := SegmentsPlaced(segs, start, k), AfterSegments(segs[..k], start);
            && r[k] == segs[k]
            && SegmentsPlaced(segs, start, k + 1) == r[k := PlaceSegment(segs[k], at)]
            && AfterSegments(segs[..k + 1], start) == AfterSegment(segs[k], at)
  {
    hide PlaceSegment;
    SegmentStep(segs, start, k);
  }

  lemma SegmentsPlacedEnds(segs: seq<Segment>, start: nat)
    ensures SegmentsPlaced(segs, start, 0) == segs && AfterSegments(segs[..0], start) == start && segs[..|segs|] == segs
  {
  }

  lemma {:induction false} SegmentsStart(segs: seq<Segment>, start: nat, i: nat)
    requires i <= |segs| && Paged(start)
    ensures Paged(AfterSegments(segs[..i], start)) && start <= AfterSegments(segs[..i], start)
  {
    hide Paged, PageAlign;
    if i > 0 {
      SegmentsStart(segs, start, i - 1);
      SegmentStep(segs, start, i - 1);
      PageAligns(AfterSegments(segs[..i - 1], start) + segs[i - 1].length);
    }
  }

  lemma SectionStep(secs: seq<Section>, start: nat, i: nat)
    requires i < |secs|
    ensures AfterSections(secs[..i + 1], start) == AfterSection(secs[i], AfterSections(secs[..i], start))
  {
    assert secs[..i + 1][..i] == secs[..i];
  }

  lemma SectionPlacedNext(names: seq<string>, secs: seq<Section>, segs: map<string, Segment>, start: nat, k: nat)
    requires k < |secs| == |names|
    ensures var r, after := SectionsPlaced(names, secs, segs, start, k), AfterSections(secs[..k + 1], start);
            && r[k] == secs[k]
            && SectionsPlaced(names, secs, segs, start, k + 1)
               == r[k := PlaceSection(secs[k], |NameTable(names[..k])|, after, Lookup(segs, names[k]))]
            && after == AfterSection(secs[k], AfterSections(secs[..k], start))
            && NameTable(names[..k + 1]) == NameTable(names[..k]) + CBytes(names[k])
  {
    hide PlaceSection;
    SectionStep(secs, start, k);
    assert names[..k + 1][..k] == names[..k];
  }

  lemma SectionsPlacedEnds(names: seq<string>, secs: seq<Section>, segs: map<string, Segment>, start: nat)
    requires |names| == |secs|
    ensures SectionsPlaced(names, secs, segs, start, 0) == secs && secs[..|secs|] == secs && names[..|names|] == names
    ensures AfterSections(secs[..0], start) == start && NameTable(names[..0]) == [0] + CBytes(SHSTRTAB)
  {
  }

  predicate DataFree(secs: seq<Section>) { forall s :: s in secs ==> s.length == 0 && !s.stored }

  /** Sections without bytes of their own leave the offset to .shstrtab. */
  lemma {:induction false} DataFreeKeepsOffset(secs: seq<Section>, start: nat)
    requires DataFree(secs)
    ensures AfterSections(secs, start) == start
  {
    if secs != [] {
      assert secs[|secs| - 1] in secs;
      DataFreeKeepsOffset(secs[..|secs| - 1], start);
    }
  }

  /** sh_name finds the section's own name, NUL included; so does the 1 of .shstrtab. */
  lemma {:induction false} NamesAreFound(names: seq<string>, k: nat)
    requires k <= |names|
    ensures HasSlice(NameTable(names), 1, CBytes(SHSTRTAB))
    ensures k < |names| ==> HasSlice(NameTable(names), |NameTable(names[..k])|, CBytes(names[k]))
  {
    hide HasSlice, CBytes, NameTable;
    NameTableUnfolds(names);
    if names == [] {
      SliceBehind([0], CBytes(SHSTRTAB));
    } else {
      var front, last := names[..|names| - 1], CBytes(names[|names| - 1]);
      NamesAreFound(front, if k < |front| then k else 0);
      SliceKept(NameTable(front), 1, CBytes(SHSTRTAB), last);
      if k < |front| {
        assert front[..k] == names[..k] && front[k] == names[k];
        SliceKept(NameTable(front), |NameTable(names[..k])|, CBytes(names[k]), last);
      } else if k == |front| {
        assert names[..k] == front;
        SliceBehind(NameTable(front), last);
      }
    }
  }

  lemma NameTableUnfolds(names: seq<string>)
    ensures NameTable(names) ==
            if names == [] then [0] + CBytes(SHSTRTAB) else NameTable(names[..|names| - 1]) + CBytes(names[|names| - 1])
  {
  }

  // ----- sections with bytes of their own -----

  /** What the sections add to the running offset. */
  function Advance(secs: seq<Section>): nat {
    if secs == [] then 0
    else
      var last := secs[|secs| - 1];
      Advance(secs[..|secs| - 1]) + if last.length != 0 && HasFileType(last) then PageAlign(last.length) else 0
  }

  lemma PageAlignShifts(offset: nat, length: nat)
    requires Paged(offset)
    ensures PageAlign(offset + length) == offset + PageAlign(length)
  {
    hide PageAlign, Paged;
    PageAligns(offset + length);
    PageAligns(length);
    PagedSum(offset, PageAlign(length));
    OnePage(PageAlign(offset + length), offset + PageAlign(length));
  }

  lemma PagedSum(a: int, b: int)
    requires Paged(a) && Paged(b)
    ensures Paged(a + b)
  {
  }

  lemma OnePage(a: int, b: int)
    requires Paged(a) && Paged(b) && -PAGE_SIZE < a - b < PAGE_SIZE
    ensures a == b
  {
  }

  lemma {:induction false} SectionsPaged(secs: seq<Section>, start: nat)
    requires Paged(start)
    ensures Paged(AfterSections(secs, start))
  {
    hide Paged, PageAlign;
    if secs != [] {
      SectionsPaged(secs[..|secs| - 1], start);
      PageAligns(AfterSections(secs[..|secs| - 1], start) + secs[|secs| - 1].length);
    }
  }

  lemma {:induction false} AdvanceAdds(secs: seq<Section>, start: nat, i: nat, j: nat)
    requires i <= j <= |secs| && Paged(start)
    ensures AfterSections(secs[..j], start) == AfterSections(secs[..i], start) + Advance(secs[i..j])
    decreases j
  {
    hide Paged, PageAlign, AfterSections, HasFileType;
    if i < j {
      AdvanceAdds(secs, start, i, j - 1);
      SectionStep(secs, start, j - 1);
      assert secs[i..j][..j - 1 - i] == secs[i..j - 1];
      SectionsPaged(secs[..j - 1], start);
      PageAlignShifts(AfterSections(secs[..j - 1], start), secs[j - 1].length);
    }
  }

  predicate Disjoint(a: nat, m: nat, b: nat, n: nat) { a + m <= b || b + n <= a }

  lemma WrapsAreIdentity(x: int)
    requires 0 <= x < 0x1_0000_0000
    ensures Wrap32(x) == x
  {
  }

  /** Bytes that no segment of the same name provides. */
  predicate HasOwnBytes(names: seq<string>, secs: seq<Section>, segs: map<string, Segment>, i: nat)
    requires i < |secs| == |names|
  {
    secs[i].length != 0 && names[i] !in segs
  }

  /** Offsets and sizes fit their fields. */
  predicate SectionsFit(secs: seq<Section>, start: nat) {
    Paged(start) && AfterSections(secs, start) < 0x1_0000_0000 && forall s :: s in secs ==> s.length < 0x1_0000_0000
  }

  lemma OwnRange(names: seq<string>, secs: seq<Section>, segs: map<string, Segment>, start: nat, i: nat)
    requires i < |secs| == |names| && HasOwnBytes(names, secs, segs, i) && SectionsFit(secs, start)
    ensures var own := SectionPlaced(names, secs, segs, start, i).header;
            own.offset == AfterSections(secs[..i + 1], start) && own.size == secs[i].length
  {
    hide Paged, NameTable, Advance, AfterSections, Wrap32;
    AdvanceAdds(secs, start, i + 1, |secs|);
    assert secs[..|secs|] == secs && secs[i] in secs;
    WrapsAreIdentity(AfterSections(secs[..i + 1], start));
    WrapsAreIdentity(secs[i].length);
  }

  /** The offset is advanced before a section with bytes of its own takes it, so nothing reserves those
      bytes. They stay clear of the bytes of a later section exactly when the offset is advanced far
      enough up to and including that one. */
  lemma OwnBytesApart(names: seq<string>, secs: seq<Section>, segs: map<string, Segment>, start: nat, i: nat, j: nat)
    requires i < j < |secs| == |names| && SectionsFit(secs, start)
    requires HasOwnBytes(names, secs, segs, i) && HasOwnBytes(names, secs, segs, j)
    ensures var own, other := SectionPlaced(names, secs, segs, start, i).header, SectionPlaced(names, secs, segs, start, j).header;
            Disjoint(own.offset, own.size, other.offset, other.size) <==> own.size <= Advance(secs[i + 1..j + 1])
  {
    hide SectionsFit, Advance, AfterSections, SectionPlaced;
    OwnRange(names, secs, segs, start, i);
    OwnRange(names, secs, segs, start, j);
    assert Paged(start) by { FitIsPaged(secs, start); }
    AdvanceAdds(secs, start, i + 1, j + 1);
  }

  lemma FitIsPaged(secs: seq<Section>, start: nat)
    requires SectionsFit(secs, start)
    ensures Paged(start)
  {
  }

  /** The same for .shstrtab, which comes last. */
  lemma OwnBytesClearOfNames(names: seq<string>, secs: seq<Section>, segs: map<string, Segment>, start: nat, i: nat)
    requires i < |secs| == |names| && HasOwnBytes(names, secs, segs, i) && SectionsFit(secs, start)
    ensures var own := SectionPlaced(names, secs, segs, start, i).header;
            var table := NameSection(names, AfterSections(secs, start));
            Disjoint(own.offset, own.size, table.header.offset, table.length) <==> own.size <= Advance(secs[i + 1..])
  {
    hide Paged, NameTable, Advance, AfterSections, Wrap32, SectionPlaced;
    OwnRange(names, secs, segs, start, i);
    AdvanceAdds(secs, start, i + 1, |secs|);
    assert secs[..|secs|] == secs;
    NameTableIsLong(names);
    WrapsAreIdentity(AfterSections(secs, start));
  }

  lemma NameTableIsLong(names: seq<string>)
    ensures |NameTable(names)| > 0
  {
  }

  /** What gen_elf_file writes; a length without storage leaves no bytes in the file. */
  predicate Written(s: Section) { s.stored && s.length != 0 }

  /** How many sections there are up to the first that is written. */
  function Through(secs: seq<Section>): (n: nat)
    ensures n <= |secs|
    ensures forall i :: 0 <= i < n - 1 ==> !Written(secs[i])
    ensures n < |secs| ==> n > 0 && Written(secs[n - 1])
  {
    if secs == [] then 0 else if Written(secs[0]) then 1 else 1 + Through(secs[1..])
  }

  ghost predicate NoneShared(names: seq<string>, secs: seq<Section>, segs: map<string, Segment>)
    requires |names| == |secs|
  {
    forall i :: 0 <= i < |secs| && Written(secs[i]) ==> names[i] !in segs
  }

  /** No other section that is written, before or behind, and not the names touch the bytes of section `i`. */
  ghost predicate BytesAreSafe(names: seq<string>, secs: seq<Section>, segs: map<string, Segment>, start: nat, i: nat)
    requires i < |secs| == |names|
  {
    var own := SectionPlaced(names, secs, segs, start, i).header;
    var table := NameSection(names, AfterSections(secs, start));
    && (forall j :: 0 <= j < |secs| && j != i && Written(secs[j]) ==> ClearOf(names, secs, segs, start, i, j))
    && Disjoint(own.offset, secs[i].length, table.header.offset, table.length)
  }

  predicate ClearOf(names: seq<string>, secs: seq<Section>, segs: map<string, Segment>, start: nat, i: nat, j: nat)
    requires i < |secs| == |names| && j < |secs|
  {
    Disjoint(SectionPlaced(names, secs, segs, start, i).header.offset, secs[i].length,
             SectionPlaced(names, secs, segs, start, j).header.offset, secs[j].length)
  }

  /** The sections behind `i`, up to `j`, leave room for its bytes. */
  predicate LeavesRoom(secs: seq<Section>, i: nat, j: nat)
    requires i < |secs| && j < |secs|
  {
    i < j ==> secs[i].length <= Advance(secs[i + 1..j + 1])
  }

  /** Each written section has room up to every later one that is written, and to the end. */
  ghost predicate Spacious(secs: seq<Section>) {
    && (forall i, j :: 0 <= i < |secs| && 0 <= j < |secs| && Written(secs[i]) && Written(secs[j]) ==> LeavesRoom(secs, i, j))
    && (forall i :: 0 <= i < |secs| && Written(secs[i]) ==> secs[i].length <= Advance(secs[i + 1..]))
  }

  /** Unless one has the name of a segment, all written sections keep their bytes exactly when there is room. */
  lemma AllBytesSafe(names: seq<string>, secs: seq<Section>, segs: map<string, Segment>, start: nat)
    requires |secs| == |names| && SectionsFit(secs, start) && NoneShared(names, secs, segs)
    ensures (forall i :: 0 <= i < |secs| && Written(secs[i]) ==> BytesAreSafe(names, secs, segs, start, i)) <==> Spacious(secs)
  {
    hide SectionsFit, Advance, AfterSections, SectionPlaced, NameSection;
    forall i | 0 <= i < |secs| && Written(secs[i])
      ensures BytesAreSafe(names, secs, segs, start, i) <==>
              (forall j :: 0 <= j < |secs| && j != i && Written(secs[j]) ==> ClearOf(names, secs, segs, start, i, j))
              && secs[i].length <= Advance(secs[i + 1..])
    {
      OwnRange(names, secs, segs, start, i);
      OwnBytesClearOfNames(names, secs, segs, start, i);
    }
    forall i, j | 0 <= i < j < |secs| && Written(secs[i]) && Written(secs[j])
      ensures ClearOf(names, secs, segs, start, i, j) == ClearOf(names, secs, segs, start, j, i) == LeavesRoom(secs, i, j)
    {
      OwnRange(names, secs, segs, start, i);
      OwnRange(names, secs, segs, start, j);
      OwnBytesApart(names, secs, segs, start, i, j);
    }
  }

  /** A written section with the name of a segment goes where that segment goes. If the segment is in the
      file, the two are always one over the other. */
  lemma SharedBytesTouch(names: seq<string>, secs: seq<Section>, segs: map<string, Segment>, start: nat, i: nat)
    requires i < |secs| == |names| && Written(secs[i]) && names[i] in segs
    ensures var own, seg := SectionPlaced(names, secs, segs, start, i).header, segs[names[i]];
            && own.offset == seg.header.offset
            && (InFile(seg) ==> !Disjoint(own.offset, secs[i].length, seg.header.offset, seg.length))
  {
    hide NameTable, AfterSections, Wrap32;
  }

  const PROGBITS := NULL_SHDR.(kind := SHT_PROGBITS)
  const ONE_BYTE := Piece([7], 1, true, Phdr(PT_LOAD, PAGE_SIZE, 0, 0, 1, 1, PF_R, PAGE_SIZE))

  /** A segment of one byte on the first page; a section of 10 bytes, one of 100000 with the name of the
      segment, and one without storage. There is room, and yet the second section is written over the first. */
  lemma SharedSectionOverwrites()
    ensures var names, segs := ["b", "a", "c"], map["a" := ONE_BYTE];
            var secs := [Piece(seq(10, i => 1), 10, true, PROGBITS), Piece(seq(100000, i => 2), 100000, true, PROGBITS),
                         Piece([], 100000, false, PROGBITS)];
            && SectionsFit(secs, 8192) && Spacious(secs)
            && SectionPlaced(names, secs, segs, 8192, 0).header.offset == 12288
            && SectionPlaced(names, secs, segs, 8192, 1).header.offset == 4096
            && !ClearOf(names, secs, segs, 8192, 0, 1)
  {
    hide NameTable, Advance, AfterSections, Paged;
    var names, segs := ["b", "a", "c"], map["a" := ONE_BYTE];
    var a, b, c := Piece(seq(10, i => 1), 10, true, PROGBITS), Piece(seq(100000, i => 2), 100000, true, PROGBITS), Piece([], 100000, false, PROGBITS);
    var secs := [a, b, c];
    TwoLarge(a, b, c);
    assert secs[1..2] == [b];
    OwnRange(names, secs, segs, 8192, 0);
    SharedBytesTouch(names, secs, segs, 8192, 1);
  }

  lemma TwoLarge(a: Section, b: Section, c: Section)
    requires a.length == 10 && b.length == c.length == 100000
    requires HasFileType(a) && HasFileType(b) && HasFileType(c)
    ensures var secs := [a, b, c];
            && AfterSections(secs[..1], 8192) == 12288 && AfterSections(secs, 8192) == 217088 && Paged(8192)
            && Advance(secs[1..]) >= 100000 && Advance(secs[2..]) >= 100000 && Advance([b]) >= 100000
  {
    hide PageAlign, HasFileType;
    var secs := [a, b, c];
    PageAligns(8202);
    PageAligns(112288);
    PageAligns(214688);
    PageAligns(100000);
    SectionStep(secs, 8192, 0);
    SectionStep(secs, 8192, 1);
    SectionStep(secs, 8192, 2);
    assert secs[..3] == secs;
    assert secs[1..] == [b, c] && secs[2..] == [c] && [b][..0] == [] && [c][..0] == [] && [b, c][..1] == [b];
    assert Advance([b]) == Advance([b][..0]) + PageAlign(b.length);
    assert Advance([c]) == Advance([c][..0]) + PageAlign(c.length);
    assert Advance([b, c]) == Advance([b, c][..1]) + PageAlign(c.length);
  }

  /** 5000, 100 and 5000 bytes: the first section is clear of .shstrtab, but the second is written over it. */
  lemma SecondSectionOverwrites()
    ensures var big, small := Piece(seq(5000, i => 1), 5000, true, PROGBITS), Piece(seq(100, i => 2), 100, true, PROGBITS);
            var names, secs := ["a", "b", "c"], [big, small, big];
            && SectionsFit(secs, PAGE_SIZE) && secs[0].length <= Advance(secs[1..])
            && SectionPlaced(names, secs, map[], PAGE_SIZE, 0).header.offset == 12288
            && SectionPlaced(names, secs, map[], PAGE_SIZE, 1).header.offset == 16384 < 12288 + 5000
            && !ClearOf(names, secs, map[], PAGE_SIZE, 0, 1)
  {
    hide NameTable, Advance, AfterSections, Paged;
    var big, small := Piece(seq(5000, i => 1), 5000, true, PROGBITS), Piece(seq(100, i => 2), 100, true, PROGBITS);
    var names, secs, segs := ["a", "b", "c"], [big, small, big], map[];
    ThreeSections(big, small, big);
    OwnRange(names, secs, segs, PAGE_SIZE, 0);
    OwnRange(names, secs, segs, PAGE_SIZE, 1);
  }

  lemma ThreeSections(a: Section, b: Section, c: Section)
    requires a.length == 5000 && b.length == 100 && c.length == 5000
    requires HasFileType(a) && HasFileType(b) && HasFileType(c)
    ensures var secs := [a, b, c];
            && AfterSections(secs[..1], PAGE_SIZE) == 12288 && AfterSections(secs[..2], PAGE_SIZE) == 16384
            && AfterSections(secs, PAGE_SIZE) == 24576 && Paged(PAGE_SIZE) && Advance(secs[1..]) == 12288
  {
    hide PageAlign, HasFileType;
    var secs := [a, b, c];
    PageAligns(9096);
    PageAligns(12388);
    PageAligns(21384);
    SectionStep(secs, PAGE_SIZE, 0);
    SectionStep(secs, PAGE_SIZE, 1);
    SectionStep(secs, PAGE_SIZE, 2);
    assert secs[..3] == secs;
    AdvanceAdds(secs, PAGE_SIZE, 1, 3);
    assert secs[1..3] == secs[1..];
  }
}
