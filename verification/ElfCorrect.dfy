/** What a file written by gen_elf_file contains. */
module ElfCorrect {
  import opened MachineInts
  import opened Slices
  import opened Chains
  import opened ElfLayout
  import opened ElfFile

  /** Segments `segs` and sections `secs` called `names`; `placed` and `table` are what has become of them,
      `segMap` has the placed segments by name, and `order` has the names that go with `table`. */
  datatype Layout = Layout(segs: seq<Segment>, names: seq<string>, secs: seq<Section>,
                           placed: seq<Segment>, segMap: map<string, Segment>, order: seq<string>, table: seq<Section>)
  {
    function DataEnd(): nat { AfterSegments(segs, FirstOffset(|segs|)) }

    function NamesAt(): nat { NamesOffset(|segs|, segs, secs) }

    /** What the writer takes for granted: distinct section names, lengths that are those of the data, and
        offsets and counts that fit their fields. */
    ghost predicate Sound() {
      && |names| == |secs| && NoDup(names) && SHSTRTAB !in names
      && (forall s :: s in secs ==> s.Ok() && s.length < 0x1_0000_0000) && (forall s :: s in segs ==> s.Ok())
      && |segs| < 0x1_0000 && NamesAt() + |NameTable(names)| < 0x1_0000_0000
    }

    ghost predicate Unshared()
      requires |names| == |secs|
    {
      NoneShared(names, secs, segMap)
    }

    /** No written section has the name of a segment, and all have room. */
    ghost predicate Ample()
      requires |names| == |secs|
    {
      Unshared() && Spacious(secs)
    }

    /** Where the first bytes behind the headers go: to the first page, if a segment is in the file, and else
        to the offset of the first written section or of .shstrtab. */
    ghost function FirstData(): nat {
      if exists s :: s in segs && InFile(s) then FirstOffset(|segs|) else AfterSections(secs[..Through(secs)], DataEnd())
    }

    /** The header tables end before that; fix_header_offsets does not look. */
    ghost predicate Roomy() { SectionTable(|segs|) + SHDR_SIZE * (|names| + 2) <= FirstData() }

    function HeadersEnd(): nat { SectionTable(|segs|) + SHDR_SIZE * (|table| + 1) }

    ghost predicate Finished() {
      && |names| == |secs| && NoDup(order) && |order| == |table|
      && exists secMap :: LaidOut(|segs|, segs, names, secs, placed, segMap, secMap) && Listed(secMap)
    }

    ghost predicate Listed(secMap: map<string, Section>)
      requires |order| == |table|
    {
      && (forall n :: n in order <==> n in secMap)
      && forall j :: 0 <= j < |order| ==> RowOk(secMap, j)
    }

    ghost predicate RowOk(secMap: map<string, Section>, j: nat)
      requires j < |order| == |table|
    {
      order[j] in secMap && table[j] == secMap[order[j]]
    }
  }

  /** The values of a table in the order of its keys. */
  ghost predicate ListsTable<T>(order: seq<string>, values: seq<T>, m: map<string, T>) {
    && NoDup(order) && |order| == |values| && (forall key :: key in order <==> key in m)
    && forall i :: 0 <= i < |order| ==> order[i] in m && values[i] == m[order[i]]
  }

  // ----- the segments -----

  lemma SegmentOffset(segs: seq<Segment>, start: nat, k: nat)
    requires k < |segs| && Paged(start) && AfterSegments(segs, start) < 0x1_0000_0000 && segs[k].length > 0
    ensures var at := AfterSegments(segs[..k], start);
            && SegmentsPlaced(segs, start, |segs|)[k].header.offset == at && Paged(at)
            && start <= at <= AfterSegments(segs, start)
            && (InFile(segs[k]) ==> at + segs[k].length <= AfterSegments(segs, start))
            && (InFile(segs[k]) ==> SegmentsPlaced(segs, start, |segs|)[k].header.filesz == segs[k].length)
  {
    hide Paged, AfterSegments, Wrap32;
    assert segs[..|segs|] == segs;
    SegmentRanges(segs, start, k, |segs|);
    WrapsAreIdentity(AfterSegments(segs[..k], start));
    if InFile(segs[k]) {
      WrapsAreIdentity(segs[k].length);
    }
  }

  lemma SegmentsApart(segs: seq<Segment>, start: nat)
    requires Paged(start) && AfterSegments(segs, start) < 0x1_0000_0000 && forall s :: s in segs ==> s.Ok()
    ensures Separate(SegmentPatches(SegmentsPlaced(segs, start, |segs|), |segs|), start, AfterSegments(segs, start))
  {
    hide Paged, AfterSegments, Wrap32, SegmentsPlaced;
    var placed := SegmentsPlaced(segs, start, |segs|);
    var ps := SegmentPatches(placed, |segs|);
    forall i | 0 <= i < |ps| && ps[i].bytes != []
      ensures start <= ps[i].at == AfterSegments(segs[..i], start) && ps[i].End() <= AfterSegments(segs, start) && InFile(segs[i])
      ensures |ps[i].bytes| == segs[i].length
    {
      assert segs[i] in segs;
      PlacedKeepsData(segs, start, i);
      SegmentOffset(segs, start, i);
    }
    forall i, j | 0 <= i < j < |ps| ensures Clear(ps[i], ps[j]) {
      if ps[i].bytes != [] && ps[j].bytes != [] {
        SegmentRanges(segs, start, i, j);
      }
    }
  }

  lemma PlacedKeepsData(segs: seq<Segment>, start: nat, k: nat)
    requires k < |segs|
    ensures var s := SegmentsPlaced(segs, start, |segs|)[k];
            s.data == segs[k].data && s.length == segs[k].length && s.stored == segs[k].stored
  {
  }

  // ----- the sections -----

  /** Every section but .shstrtab is one of the given ones, with its own place in the name table. */
  lemma SectionOf(l: Layout, j: nat) returns (i: nat)
    requires l.Sound() && l.Finished() && j < |l.order|
    ensures l.order[j] == SHSTRTAB ==> l.table[j] == NameSection(l.names, l.NamesAt())
    ensures l.order[j] != SHSTRTAB ==> i < |l.names| && l.names[i] == l.order[j]
    ensures l.order[j] != SHSTRTAB ==>
              l.table[j] == SectionPlaced(l.names, l.secs, l.segMap, l.DataEnd(), i)
  {
    hide SectionPlaced, NameSection;
    var secMap :| LaidOut(|l.segs|, l.segs, l.names, l.secs, l.placed, l.segMap, secMap) && l.Listed(secMap);
    i := 0;
    assert l.RowOk(secMap, j);
    if l.order[j] != SHSTRTAB {
      assert l.order[j] in l.names;
      i :| 0 <= i < |l.names| && l.names[i] == l.order[j];
      assert SectionOk(l.names, l.secs, l.segMap, secMap, l.DataEnd(), i);
    }
  }

  /** The row of a section in the table of headers. */
  lemma RowOf(l: Layout, i: nat) returns (j: nat)
    requires l.Sound() && l.Finished() && i < |l.names|
    ensures j < |l.order| && l.order[j] == l.names[i]
  {
    hide SectionPlaced, NameSection, SegmentsPlaced;
    var secMap :| LaidOut(|l.segs|, l.segs, l.names, l.secs, l.placed, l.segMap, secMap) && l.Listed(secMap);
    assert l.names[i] in secMap;
    assert l.names[i] in l.order;
    j :| 0 <= j < |l.order| && l.order[j] == l.names[i];
  }

  /** What is written for a row of the table: the bytes of a section that is written, or the names. */
  lemma RowWrites(l: Layout, j: nat) returns (i: nat)
    requires l.Sound() && l.Finished() && l.Unshared() && j < |l.table|
    ensures var p := SectionPatches(l.table, |l.table|)[j];
            if l.order[j] == SHSTRTAB then p == Patch(l.NamesAt(), NameTable(l.names))
            else
              && i < |l.secs| && l.names[i] == l.order[j]
              && (p.bytes != [] <==> Written(l.secs[i]))
              && (Written(l.secs[i]) ==>
                    && p == Patch(AfterSections(l.secs[..i + 1], l.DataEnd()), l.secs[i].data) && |p.bytes| == l.secs[i].length
                    && l.table[j].header.size == l.secs[i].length && l.table[j].header.offset == p.at)
  {
    hide NameTable, AfterSections, AfterSegments, Wrap32;
    i := SectionOf(l, j);
    if l.order[j] == SHSTRTAB {
      WrapsAreIdentity(l.NamesAt());
    } else {
      assert l.secs[i] in l.secs;
      if Written(l.secs[i]) {
        SectionsFitHere(l);
        OwnRange(l.names, l.secs, l.segMap, l.DataEnd(), i);
      }
    }
  }

  /** A section with the name of a segment is described by it. */
  lemma SharedRow(l: Layout, j: nat) returns (i: nat)
    requires l.Sound() && l.Finished() && j < |l.order| && l.order[j] != SHSTRTAB && l.order[j] in l.segMap
    ensures i < |l.secs| && l.names[i] == l.order[j]
    ensures var header, seg := l.table[j].header, l.segMap[l.order[j]];
            header == l.secs[i].header.(name := header.name, size := Wrap32(seg.length), offset := seg.header.offset, addr := seg.header.vaddr)
  {
    hide NameTable, AfterSections, AfterSegments, Wrap32;
    i := SectionOf(l, j);
  }

  lemma SectionsFitHere(l: Layout)
    requires l.Sound()
    ensures SectionsFit(l.secs, l.DataEnd())
  {
    hide AfterSegments, AfterSections, NameTable, PageAlign, Paged;
    FirstOffsetPaged(|l.segs|);
    SegmentsStart(l.segs, FirstOffset(|l.segs|), |l.segs|);
    assert l.segs[..|l.segs|] == l.segs;
  }

  lemma DistinctRows(l: Layout, j: nat, k: nat)
    requires l.Finished() && j < |l.table| && k < |l.table| && j != k
    ensures |l.order| == |l.table| && l.order[j] != l.order[k]
  {
    hide LaidOut;
  }

  /** Two rows of the table are written clear of each other when their sections have room. */
  lemma RowsClear(l: Layout, j: nat, k: nat)
    requires l.Sound() && l.Finished() && l.Ample() && j < |l.table| && k < |l.table| && j != k
    ensures Clear(SectionPatches(l.table, |l.table|)[j], SectionPatches(l.table, |l.table|)[k])
  {
    hide NameTable, AfterSections, AfterSegments, Advance, SectionPatches, Paged, Layout.Sound, Layout.Finished;
    DistinctRows(l, j, k);
    SectionsFitHere(l);
    var a := RowWrites(l, j);
    var b := RowWrites(l, k);
    if l.order[j] != SHSTRTAB && Written(l.secs[a]) {
      RoomBehind(l, a);
    }
    if l.order[k] != SHSTRTAB && Written(l.secs[b]) {
      RoomBehind(l, b);
    }
    if l.order[j] != SHSTRTAB && l.order[k] != SHSTRTAB && Written(l.secs[a]) && Written(l.secs[b]) {
      if a < b {
        assert LeavesRoom(l.secs, a, b);
        AdvanceAdds(l.secs, l.DataEnd(), a + 1, b + 1);
      } else {
        assert LeavesRoom(l.secs, b, a);
        AdvanceAdds(l.secs, l.DataEnd(), b + 1, a + 1);
      }
    }
  }

  /** The offset never falls back, and a section with room ends before the names. */
  lemma RoomBehind(l: Layout, i: nat)
    requires SectionsFit(l.secs, l.DataEnd()) && i < |l.secs| && Written(l.secs[i]) && Spacious(l.secs)
    ensures l.DataEnd() <= AfterSections(l.secs[..i + 1], l.DataEnd())
    ensures AfterSections(l.secs[..i + 1], l.DataEnd()) + l.secs[i].length <= l.NamesAt()
  {
    hide AfterSections, AfterSegments, Advance, Paged, NameTable;
    AdvanceAdds(l.secs, l.DataEnd(), i + 1, |l.secs|);
    AdvanceAdds(l.secs, l.DataEnd(), 0, i + 1);
    assert l.secs[..|l.secs|] == l.secs && l.secs[..0] == [];
    NothingBefore(l.DataEnd());
  }

  lemma NothingBefore(start: nat)
    ensures AfterSections([], start) == start
  {
  }

  lemma SectionsApart(l: Layout)
    requires l.Sound() && l.Finished() && l.Ample()
    ensures Separate(SectionPatches(l.table, |l.table|), l.DataEnd(), l.NamesAt() + |NameTable(l.names)|)
    ensures l.DataEnd() <= l.NamesAt()
  {
    hide NameTable, AfterSections, AfterSegments, Advance, SectionPatches, Paged, Layout.Sound, Layout.Finished;
    var ps := SectionPatches(l.table, |l.table|);
    FinishedCounts(l);
    SectionsFitHere(l);
    NamesBehind(l);
    forall j | 0 <= j < |ps| && ps[j].bytes != []
      ensures l.DataEnd() <= ps[j].at && ps[j].End() <= l.NamesAt() + |NameTable(l.names)|
    {
      var i := RowWrites(l, j);
      if l.order[j] != SHSTRTAB {
        RoomBehind(l, i);
      }
    }
    forall j, k | 0 <= j < k < |ps| ensures Clear(ps[j], ps[k]) {
      RowsClear(l, j, k);
    }
  }

  lemma NamesBehind(l: Layout)
    requires l.Sound()
    ensures l.DataEnd() <= l.NamesAt()
  {
    hide AfterSections, AfterSegments, Advance, Paged, NameTable;
    SectionsFitHere(l);
    AdvanceAdds(l.secs, l.DataEnd(), 0, |l.secs|);
    assert l.secs[..|l.secs|] == l.secs && l.secs[..0] == [];
    NothingBefore(l.DataEnd());
  }

  /** When all that is written for sections is apart, there was room. */
  lemma ApartHasRoom(l: Layout)
    requires l.Sound() && l.Finished() && l.Unshared()
    requires AllClear(SectionPatches(l.table, |l.table|))
    ensures Spacious(l.secs)
  {
    hide NameTable, AfterSections, AfterSegments, Advance, SectionPatches, Paged, Layout.Sound, Layout.Finished;
    SectionsFitHere(l);
    forall i, m | 0 <= i < |l.secs| && 0 <= m < |l.secs| && Written(l.secs[i]) && Written(l.secs[m]) ensures LeavesRoom(l.secs, i, m) {
      if i < m {
        ClearHasRoom(l, i, m);
      }
    }
    forall i | 0 <= i < |l.secs| && Written(l.secs[i]) ensures l.secs[i].length <= Advance(l.secs[i + 1..]) {
      ClearOfNamesHasRoom(l, i);
    }
  }

  /** The row of a written section has its bytes. */
  lemma WrittenRow(l: Layout, i: nat) returns (j: nat)
    requires l.Sound() && l.Finished() && l.Unshared() && i < |l.secs| && Written(l.secs[i])
    ensures j < |l.table| == |l.order| && l.order[j] == l.names[i] != SHSTRTAB
    ensures SectionPatches(l.table, |l.table|)[j] == Patch(AfterSections(l.secs[..i + 1], l.DataEnd()), l.secs[i].data)
    ensures |l.secs[i].data| == l.secs[i].length
    ensures l.table[j].header.size == l.secs[i].length && l.table[j].header.offset == AfterSections(l.secs[..i + 1], l.DataEnd())
  {
    hide NameTable, AfterSections, AfterSegments, SectionPatches, LaidOut;
    j := RowOf(l, i);
    var k := RowWrites(l, j);
  }

  lemma ClearHasRoom(l: Layout, i: nat, m: nat)
    requires l.Sound() && l.Finished() && l.Unshared() && i < m < |l.secs| && Written(l.secs[i]) && Written(l.secs[m])
    requires AllClear(SectionPatches(l.table, |l.table|))
    ensures LeavesRoom(l.secs, i, m)
  {
    hide NameTable, AfterSections, AfterSegments, Advance, SectionPatches, Paged, LaidOut;
    var j := WrittenRow(l, i);
    var k := WrittenRow(l, m);
    assert l.names[i] != l.names[m];
    var ps := SectionPatches(l.table, |l.table|);
    assert Clear(ps[j], ps[k]);
    SectionsFitHere(l);
    AdvanceAdds(l.secs, l.DataEnd(), i + 1, m + 1);
  }

  lemma ClearOfNamesHasRoom(l: Layout, i: nat)
    requires l.Sound() && l.Finished() && l.Unshared() && i < |l.secs| && Written(l.secs[i])
    requires AllClear(SectionPatches(l.table, |l.table|))
    ensures l.secs[i].length <= Advance(l.secs[i + 1..])
  {
    hide NameTable, AfterSections, AfterSegments, Advance, SectionPatches, Paged, LaidOut;
    var j := WrittenRow(l, i);
    var k := NamesSection(l);
    var _ := RowWrites(l, k);
    var ps := SectionPatches(l.table, |l.table|);
    assert Clear(ps[j], ps[k]);
    SectionsFitHere(l);
    NameTableIsLong(l.names);
    AdvanceAdds(l.secs, l.DataEnd(), i + 1, |l.secs|);
    assert l.secs[..|l.secs|] == l.secs;
  }

  // ----- the whole file -----

  lemma HeadersApart(h: Ehdr, segs: seq<Segment>, secs: seq<Section>)
    ensures Separate(HeaderPatches(h, segs, secs), 0, SectionTable(|segs|) + SHDR_SIZE * (|secs| + 1))
  {
    hide EncodeEhdr, EncodePhdr, EncodeShdr, Separate;
    var n := SectionTable(|segs|);
    var a, b := [Patch(0, EncodeEhdr(h))], PhdrPatches(segs, |segs|);
    var c, d := [Patch(n, EncodeShdr(NULL_SHDR))], ShdrPatches(secs, n + SHDR_SIZE, |secs|);
    TablesApart(h, segs, secs);
    SeparateConcat(a, b, 0, EHDR_SIZE, n);
    SeparateConcat(a + b, c, 0, n, n + SHDR_SIZE);
    SeparateConcat(a + b + c, d, 0, n + SHDR_SIZE, n + SHDR_SIZE * (|secs| + 1));
  }

  lemma TablesApart(h: Ehdr, segs: seq<Segment>, secs: seq<Section>)
    ensures var n := SectionTable(|segs|);
            && Separate([Patch(0, EncodeEhdr(h))], 0, EHDR_SIZE)
            && Separate(PhdrPatches(segs, |segs|), EHDR_SIZE, n)
            && Separate([Patch(n, EncodeShdr(NULL_SHDR))], n, n + SHDR_SIZE)
            && Separate(ShdrPatches(secs, n + SHDR_SIZE, |secs|), n + SHDR_SIZE, n + SHDR_SIZE * (|secs| + 1))
  {
    hide EncodeEhdr, EncodePhdr, EncodeShdr;
  }

  function DataPatches(l: Layout): seq<Patch> {
    SegmentPatches(l.placed, |l.placed|) + SectionPatches(l.table, |l.table|)
  }

  /** Segments, sections and names occupy disjoint ranges from the first page on. */
  lemma DataApart(l: Layout)
    requires l.Sound() && l.Finished() && l.Ample()
    ensures Separate(DataPatches(l), FirstOffset(|l.segs|), l.NamesAt() + |NameTable(l.names)|)
    ensures FirstOffset(|l.segs|) <= l.DataEnd() <= l.NamesAt()
  {
    hide Separate, SegmentPatches, SectionPatches, NameTable, AfterSegments, PageAlign, Paged, SectionPlaced, NameSection;
    var start := FirstOffset(|l.segs|);
    assert l.segs[..|l.segs|] == l.segs;
    FirstOffsetPaged(|l.segs|);
    SegmentsStart(l.segs, start, |l.segs|);
    FinishedCounts(l);
    SectionsApart(l);
    SegmentsApart(l.segs, start);
    SeparateConcat(SegmentPatches(l.placed, |l.placed|), SectionPatches(l.table, |l.table|),
                start, l.DataEnd(), l.NamesAt() + |NameTable(l.names)|);
  }

  lemma FilePatchesSplit(h: Ehdr, l: Layout)
    ensures FilePatches(h, l.placed, l.table) == HeaderPatches(h, l.placed, l.table) + DataPatches(l)
  {
  }

  /** Nothing that is written touches anything else exactly when no section lacks room. */
  lemma DataApartExactly(l: Layout)
    requires l.Sound() && l.Finished() && l.Unshared()
    ensures AllClear(DataPatches(l)) <==> Spacious(l.secs)
  {
    hide SegmentPatches, SectionPatches, Spacious, Layout.Sound, Layout.Finished, Layout.Unshared;
    if Spacious(l.secs) {
      DataApart(l);
    }
    if AllClear(DataPatches(l)) {
      BackClear(SegmentPatches(l.placed, |l.placed|), SectionPatches(l.table, |l.table|));
      ApartHasRoom(l);
    }
  }

  /** Headers, segments, sections and names occupy disjoint ranges of the file. */
  lemma FileApart(h: Ehdr, l: Layout)
    requires l.Sound() && l.Finished() && l.Ample() && l.Roomy()
    ensures Separate(FilePatches(h, l.placed, l.table), 0, l.NamesAt() + |NameTable(l.names)|)
  {
    hide Separate, HeaderPatches, DataPatches, FilePatches, NameTable, AfterSegments, PageAlign, SectionPlaced, NameSection,
      Layout.Sound, Layout.Finished, Layout.Unshared, Spacious, Layout.FirstData;
    FinishedCounts(l);
    HeadersApart(h, l.placed, l.table);
    DataApart(l);
    DataBehind(l);
    var end := l.NamesAt() + |NameTable(l.names)|;
    SeparateFrom(DataPatches(l), FirstOffset(|l.segs|), l.FirstData(), end);
    FirstDataInside(l);
    SeparateWider(HeaderPatches(h, l.placed, l.table), 0, l.HeadersEnd(), l.FirstData());
    SeparateConcat(HeaderPatches(h, l.placed, l.table), DataPatches(l), 0, l.FirstData(), end);
    FilePatchesSplit(h, l);
  }

  lemma SeparateFrom(ps: seq<Patch>, lo: nat, from: nat, hi: nat)
    requires Separate(ps, lo, hi) && forall k :: 0 <= k < |ps| && ps[k].bytes != [] ==> from <= ps[k].at
    ensures Separate(ps, from, hi)
  {
  }

  lemma SeparateWider(ps: seq<Patch>, lo: nat, hi: nat, wider: nat)
    requires Separate(ps, lo, hi) && hi <= wider
    ensures Separate(ps, lo, wider)
  {
  }

  lemma FinishedCounts(l: Layout)
    requires l.Sound() && l.Finished()
    ensures (set n | n in l.order) == (set n | n in l.names) + {SHSTRTAB}
    ensures |l.placed| == |l.segs| && |l.table| == |l.order| == |l.names| + 1
    ensures l.placed == SegmentsPlaced(l.segs, FirstOffset(|l.segs|), |l.segs|)
  {
    hide SectionPlaced, NameSection, FirstOffset;
    var secMap :| LaidOut(|l.segs|, l.segs, l.names, l.secs, l.placed, l.segMap, secMap) && l.Listed(secMap);
    DistinctCount(l.order);
    DistinctCount(l.names);
    assert (set n | n in l.order) == (set n | n in l.names) + {SHSTRTAB};
  }

  /** Nothing in the file touches anything else exactly when no written section lacks room and the header
      tables end before the first data. */
  lemma FileApartExactly(h: Ehdr, l: Layout)
    requires l.Sound() && l.Finished() && l.Unshared()
    ensures AllClear(FilePatches(h, l.placed, l.table)) <==> Spacious(l.secs) && l.Roomy()
  {
    hide FilePatches, HeaderPatches, DataPatches, Spacious, Layout.Sound, Layout.Finished, Layout.Unshared, Layout.Roomy;
    FilePatchesSplit(h, l);
    if Spacious(l.secs) && l.Roomy() {
      FileApart(h, l);
    }
    if AllClear(FilePatches(h, l.placed, l.table)) {
      BackClear(HeaderPatches(h, l.placed, l.table), DataPatches(l));
      DataApartExactly(l);
      HeadersClearOfData(l);
      FinishedCounts(l);
      forall k | 0 <= k < |DataPatches(l)| && DataPatches(l)[k].bytes != [] ensures l.HeadersEnd() <= DataPatches(l)[k].at {
        ClearOfHeaders(h, l, k);
      }
    }
  }

  lemma BackClear(a: seq<Patch>, b: seq<Patch>)
    requires AllClear(a + b)
    ensures AllClear(b)
  {
    forall j, k | 0 <= j < k < |b| ensures Clear(b[j], b[k]) {
      assert (a + b)[|a| + j] == b[j] && (a + b)[|a| + k] == b[k];
    }
  }

  /** The section headers leave no gap, so data behind their start that touches none of them is behind all. */
  lemma ClearOfHeaders(h: Ehdr, l: Layout, k: nat)
    requires l.Sound() && l.Finished() && l.Unshared() && AllClear(FilePatches(h, l.placed, l.table))
    requires k < |DataPatches(l)| && DataPatches(l)[k].bytes != []
    ensures l.HeadersEnd() <= DataPatches(l)[k].at
  {
    hide HeaderPatches, DataPatches, Layout.Sound, Layout.Finished, Layout.Unshared, Layout.FirstData, EncodeShdr, EncodeEhdr, FirstOffset;
    var ps, heads, p := FilePatches(h, l.placed, l.table), HeaderPatches(h, l.placed, l.table), DataPatches(l)[k];
    FinishedCounts(l);
    FilePatchesSplit(h, l);
    DataBehind(l);
    FirstOffsetPaged(|l.segs|);
    var q := if p.at < l.HeadersEnd() then (p.at - SectionTable(|l.segs|)) / SHDR_SIZE else 0;
    ShdrPlaces(h, l.placed, l.table, q);
    assert ps[|heads| + k] == p && Clear(ps[|l.segs| + 1 + q], ps[|heads| + k]);
  }

  /** The section headers one behind the other, the null section first. */
  lemma ShdrPlaces(h: Ehdr, segs: seq<Segment>, secs: seq<Section>, q: nat)
    requires q <= |secs|
    ensures var ps, n := FilePatches(h, segs, secs), |HeaderPatches(h, segs, secs)|;
            |segs| + 1 + q < n <= |ps| && ps[|segs| + 1 + q].at == SectionTable(|segs|) + SHDR_SIZE * q
            && |ps[|segs| + 1 + q].bytes| == SHDR_SIZE
  {
    hide EncodeEhdr, EncodePhdr, EncodeShdr;
  }

  // ----- room for the headers -----

  ghost predicate BehindHeaders(l: Layout) {
    forall k :: 0 <= k < |DataPatches(l)| && DataPatches(l)[k].bytes != [] ==> l.HeadersEnd() <= DataPatches(l)[k].at
  }

  /** Something is always written at the first of these offsets and nothing in front of it, so the header tables
      stay clear of the data exactly when they end before it. */
  lemma HeadersClearOfData(l: Layout)
    requires l.Sound() && l.Finished() && l.Unshared()
    ensures BehindHeaders(l) <==> l.Roomy()
    ensures DataFree(l.secs) ==> l.FirstData() == FirstOffset(|l.segs|)
  {
    hide Layout.Sound, Layout.Finished, Layout.Unshared, Layout.FirstData, DataPatches, DataFree;
    FinishedCounts(l);
    DataBehind(l);
    var k := DataBegins(l);
    if DataFree(l.secs) {
      DataFreeBegins(l);
    }
  }

  lemma DataFreeBegins(l: Layout)
    requires DataFree(l.secs)
    ensures l.FirstData() == FirstOffset(|l.segs|)
  {
    hide AfterSegments, FirstOffset;
    var i := FirstInFile(l.segs, FirstOffset(|l.segs|));
    DataFreeKeepsOffset(l.secs[..Through(l.secs)], l.DataEnd());
  }

  lemma OffsetsRise(secs: seq<Section>, start: nat, i: nat, j: nat)
    requires Paged(start) && i <= j <= |secs|
    ensures start <= AfterSections(secs[..i], start) <= AfterSections(secs[..j], start)
  {
    hide AfterSections, Advance, Paged;
    AdvanceAdds(secs, start, 0, i);
    AdvanceAdds(secs, start, i, j);
    assert secs[..0] == [];
    NothingBefore(start);
  }

  /** Nothing but headers is written in front of the first data. */
  lemma DataBehind(l: Layout)
    requires l.Sound() && l.Finished() && l.Unshared()
    ensures forall k :: 0 <= k < |DataPatches(l)| && DataPatches(l)[k].bytes != [] ==> l.FirstData() <= DataPatches(l)[k].at
    ensures FirstOffset(|l.segs|) <= l.FirstData()
  {
    hide SegmentPatches, SectionPatches, Layout.FirstData, Layout.Sound, Layout.Finished, Layout.Unshared;
    var ps, n := DataPatches(l), |l.placed|;
    FirstDataInside(l);
    forall k | 0 <= k < |ps| && ps[k].bytes != [] ensures l.FirstData() <= ps[k].at {
      if k < n {
        SegmentBehind(l, k);
      } else {
        SectionBehind(l, k - n);
      }
    }
  }

  lemma FirstDataInside(l: Layout)
    requires l.Sound()
    ensures FirstOffset(|l.segs|) <= l.FirstData() <= l.NamesAt()
  {
    hide AfterSections, AfterSegments, FirstOffset, NameTable, Paged;
    FirstOffsetPaged(|l.segs|);
    SegmentsStart(l.segs, FirstOffset(|l.segs|), |l.segs|);
    assert l.segs[..|l.segs|] == l.segs && l.secs[..|l.secs|] == l.secs;
    OffsetsRise(l.secs, l.DataEnd(), Through(l.secs), |l.secs|);
  }

  lemma SegmentBehind(l: Layout, k: nat)
    requires l.Sound() && l.Finished() && k < |l.placed| && SegmentPatches(l.placed, |l.placed|)[k].bytes != []
    ensures l.FirstData() <= SegmentPatches(l.placed, |l.placed|)[k].at
  {
    hide AfterSections, AfterSegments, FirstOffset, NameTable, Paged, Wrap32, Through, SegmentsPlaced;
    FinishedCounts(l);
    FirstOffsetPaged(|l.segs|);
    NamesBehind(l);
    assert l.segs[k] in l.segs;
    PlacedKeepsData(l.segs, FirstOffset(|l.segs|), k);
    SegmentOffset(l.segs, FirstOffset(|l.segs|), k);
  }

  lemma SectionBehind(l: Layout, j: nat)
    requires l.Sound() && l.Finished() && l.Unshared() && j < |l.table| && SectionPatches(l.table, |l.table|)[j].bytes != []
    ensures l.FirstData() <= SectionPatches(l.table, |l.table|)[j].at
  {
    hide AfterSections, AfterSegments, FirstOffset, NameTable, Paged, Layout.Sound, Layout.Finished, Layout.Unshared, SectionPatches;
    FinishedCounts(l);
    FirstDataInside(l);
    var i := RowWrites(l, j);
    if l.order[j] != SHSTRTAB {
      SectionsFitHere(l);
      FitIsPaged(l.secs, l.DataEnd());
      OffsetsRise(l.secs, l.DataEnd(), Through(l.secs), i + 1);
      FirstOffsetPaged(|l.segs|);
      SegmentsStart(l.segs, FirstOffset(|l.segs|), |l.segs|);
      assert l.segs[..|l.segs|] == l.segs;
      OffsetsRise(l.secs, l.DataEnd(), 0, i + 1);
    }
  }

  lemma DataFreeIsAmple(l: Layout)
    requires |l.names| == |l.secs| && DataFree(l.secs)
    ensures l.Ample()
  {
    forall i | 0 <= i < |l.secs| ensures !Written(l.secs[i]) {
      assert l.secs[i] in l.secs;
    }
  }

  lemma DataBegins(l: Layout) returns (k: nat)
    requires l.Sound() && l.Finished() && l.Unshared()
    ensures k < |DataPatches(l)| && DataPatches(l)[k].bytes != [] && DataPatches(l)[k].at == l.FirstData()
  {
    hide Layout.Sound, Layout.Finished, Layout.Unshared, SegmentPatches, SectionPatches, AfterSections, AfterSegments, FirstOffset, NameTable;
    FinishedCounts(l);
    var i := FirstInFile(l.segs, FirstOffset(|l.segs|));
    if i < |l.segs| {
      k := SegmentBegins(l, i);
    } else {
      k := SectionBegins(l);
      k := |l.segs| + k;
    }
  }

  lemma SegmentBegins(l: Layout, i: nat) returns (k: nat)
    requires l.Sound() && l.Finished() && i < |l.segs| && InFile(l.segs[i])
    requires AfterSegments(l.segs[..i], FirstOffset(|l.segs|)) == FirstOffset(|l.segs|)
    ensures k < |l.placed| && SegmentPatches(l.placed, |l.placed|)[k].bytes != []
    ensures SegmentPatches(l.placed, |l.placed|)[k].at == l.FirstData()
  {
    hide AfterSections, AfterSegments, FirstOffset, NameTable, Paged, Wrap32, Through, SegmentsPlaced;
    FinishedCounts(l);
    FirstOffsetPaged(|l.segs|);
    NamesBehind(l);
    assert l.segs[i] in l.segs;
    PlacedKeepsData(l.segs, FirstOffset(|l.segs|), i);
    SegmentOffset(l.segs, FirstOffset(|l.segs|), i);
    k := i;
  }

  lemma SectionBegins(l: Layout) returns (j: nat)
    requires l.Sound() && l.Finished() && l.Unshared() && !(exists s :: s in l.segs && InFile(s))
    ensures j < |l.table| && SectionPatches(l.table, |l.table|)[j].bytes != []
    ensures SectionPatches(l.table, |l.table|)[j].at == l.FirstData()
  {
    hide Layout.Sound, Layout.Finished, Layout.Unshared, SectionPatches, AfterSections, AfterSegments, FirstOffset, NameTable;
    FinishedCounts(l);
    var n := Through(l.secs);
    if n > 0 && Written(l.secs[n - 1]) {
      j := WrittenRow(l, n - 1);
    } else {
      j := NamesSection(l);
      var _ := RowWrites(l, j);
      NameTableIsLong(l.names);
      assert l.secs[..|l.secs|] == l.secs;
    }
  }

  lemma {:induction false} FirstInFile(segs: seq<Segment>, start: nat) returns (k: nat)
    ensures k < |segs| ==> InFile(segs[k]) && AfterSegments(segs[..k], start) == start
    ensures k >= |segs| ==> AfterSegments(segs, start) == start && forall s :: s in segs ==> !InFile(s)
  {
    k := 0;
    if segs != [] {
      var front := segs[..|segs| - 1];
      k := FirstInFile(front, start);
      if k < |front| {
        assert front[..k] == segs[..k];
      } else {
        k := if InFile(segs[|segs| - 1]) then |front| else |segs|;
      }
    }
  }

  lemma NamesSection(l: Layout) returns (j: nat)
    requires l.Sound() && l.Finished()
    ensures j < |l.order| && l.order[j] == SHSTRTAB
  {
    hide SectionPlaced, NameSection, SegmentsPlaced;
    var secMap :| LaidOut(|l.segs|, l.segs, l.names, l.secs, l.placed, l.segMap, secMap) && l.Listed(secMap);
    assert SHSTRTAB in secMap;
    assert SHSTRTAB in l.order;
    j :| 0 <= j < |l.order| && l.order[j] == SHSTRTAB;
  }

  const NO_BYTES := Piece([], 0, false, NULL_SHDR)

  function Letters(n: nat): (names: seq<string>)
    requires n <= 200
    ensures |names| == n && forall i :: 0 <= i < n ==> |names[i]| == 1 && names[i][0] as int == 65 + i
  {
    seq(n, i requires 0 <= i < n => [(65 + i) as char])
  }

  /** No segments, and `n` sections without bytes. */
  function Crowd(n: nat): Layout
    requires n <= 200
  {
    var names, secs := Letters(n), seq(n, i => NO_BYTES);
    Layout([], names, secs, [], map[], names + [SHSTRTAB],
           SectionsPlaced(names, secs, map[], FirstOffset(0), n) + [NameSection(names, FirstOffset(0))])
  }

  lemma CrowdIsSound(n: nat)
    requires n <= 200
    ensures Crowd(n).Sound()
  {
    hide PageAlign, NameTable, NameSection, SectionsPlaced;
    var l := Crowd(n);
    DataFreeKeepsOffset(l.secs, FirstOffset(0));
    FirstOffsetPaged(0);
    ShortNames(l.names);
  }

  lemma {:induction false} ShortNames(names: seq<string>)
    requires forall i :: 0 <= i < |names| ==> |names[i]| == 1
    ensures |NameTable(names)| == 11 + 2 * |names|
  {
    if names != [] {
      ShortNames(names[..|names| - 1]);
    }
  }

  /** The sections of a crowd by name. */
  function CrowdMap(n: nat): map<string, Section>
    requires n <= 200
  {
    var placed := SectionsPlaced(Letters(n), Crowd(n).secs, map[], FirstOffset(0), n);
    var named := map name | name in Letters(n) :: var i := name[0] as int - 65; placed[i];
    named[SHSTRTAB := NameSection(Letters(n), FirstOffset(0))]
  }

  lemma CrowdNamed(n: nat, i: nat)
    requires i < n <= 200
    ensures Letters(n)[i] in CrowdMap(n) && CrowdMap(n)[Letters(n)[i]] == Crowd(n).table[i]
  {
    hide PageAlign, NameTable, NameSection, SectionPlaced, SectionsPlaced;
    assert Letters(n)[i] != SHSTRTAB;
  }

  lemma CrowdLaidOut(n: nat)
    requires n <= 200
    ensures var l := Crowd(n); LaidOut(0, l.segs, l.names, l.secs, l.placed, l.segMap, CrowdMap(n))
  {
    hide PageAlign, NameTable, NameSection, SectionPlaced;
    var l := Crowd(n);
    DataFreeKeepsOffset(l.secs, FirstOffset(0));
    forall i | 0 <= i < n ensures SectionOk(l.names, l.secs, map[], CrowdMap(n), FirstOffset(0), i) {
      CrowdNamed(n, i);
    }
    assert l.placed == SegmentsPlaced(l.segs, FirstOffset(0), 0);
    assert forall name :: name in l.names ==> exists i :: 0 <= i < n && l.names[i] == name;
  }

  lemma CrowdIsFinished(n: nat)
    requires n <= 200
    ensures Crowd(n).Finished()
  {
    hide PageAlign, NameTable, NameSection, SectionsPlaced, LaidOut, CrowdMap;
    var l := Crowd(n);
    CrowdLaidOut(n);
    forall j | 0 <= j < |l.order| ensures l.RowOk(CrowdMap(n), j) {
      if j < n {
        CrowdNamed(n, j);
      } else {
        CrowdKeys(n);
      }
    }
    CrowdKeys(n);
    assert l.Listed(CrowdMap(n));
  }

  lemma CrowdKeys(n: nat)
    requires n <= 200
    ensures forall name :: name in CrowdMap(n) <==> name in Crowd(n).order
    ensures SHSTRTAB in CrowdMap(n) && CrowdMap(n)[SHSTRTAB] == Crowd(n).table[n]
  {
    hide PageAlign, NameTable, NameSection, SectionsPlaced;
    forall name ensures name in CrowdMap(n) <==> name in Crowd(n).order {
      if name in Letters(n) {
        var i :| 0 <= i < n && Letters(n)[i] == name;
      }
    }
  }

  /** 99 sections leave the data alone, the hundredth does not. */
  lemma HundredSections(n: nat)
    requires n <= 200
    ensures Crowd(n).Finished() && (BehindHeaders(Crowd(n)) <==> n < 100)
  {
    hide Layout.Sound, Layout.Finished, BehindHeaders, PageAlign;
    CrowdIsSound(n);
    CrowdIsFinished(n);
    HeadersClearOfData(Crowd(n));
    PageAligns(SectionTable(0));
    assert FirstOffset(0) == PAGE_SIZE;
  }

  // ----- what a reader of the file finds -----

  /** Where the headers stand in the list of writes. */
  lemma HeaderPlaces(h: Ehdr, segs: seq<Segment>, secs: seq<Section>, k: nat, j: nat)
    ensures var ps := FilePatches(h, segs, secs);
            && |ps| >= |segs| + |secs| + 2 && ps[0] == Patch(0, EncodeEhdr(h))
            && (k < |segs| ==> ps[1 + k] == Patch(EHDR_SIZE + PHDR_SIZE * k, EncodePhdr(segs[k].header)))
            && (j < |secs| ==> ps[|segs| + 2 + j] == Patch(SectionTable(|segs|) + SHDR_SIZE * (j + 1), EncodeShdr(secs[j].header)))
  {
    hide EncodeEhdr, EncodePhdr, EncodeShdr;
  }

  /** The headers are in every file whose pieces are separate: program header k, section header j. */
  lemma HeadersFound(h: Ehdr, segs: seq<Segment>, secs: seq<Section>, hi: nat, k: nat, j: nat)
    requires Separate(FilePatches(h, segs, secs), 0, hi)
    ensures var file := WriteAll(FilePatches(h, segs, secs));
            && HasSlice(file, 0, EncodeEhdr(h))
            && (k < |segs| ==> HasSlice(file, EHDR_SIZE + PHDR_SIZE * k, EncodePhdr(segs[k].header)))
            && (j < |secs| ==> HasSlice(file, SectionTable(|segs|) + SHDR_SIZE * (j + 1), EncodeShdr(secs[j].header)))
  {
    hide WriteAll, FilePatches, HasSlice, Separate;
    var ps := FilePatches(h, segs, secs);
    HeaderPlaces(h, segs, secs, k, j);
    AllWritten(ps, 0, hi, 0);
    if k < |segs| {
      AllWritten(ps, 0, hi, 1 + k);
    }
    if j < |secs| {
      AllWritten(ps, 0, hi, |segs| + 2 + j);
    }
  }

  lemma DataFound(h: Ehdr, l: Layout, hi: nat, k: nat)
    requires Separate(FilePatches(h, l.placed, l.table), 0, hi)
    requires k < |DataPatches(l)| && DataPatches(l)[k].bytes != []
    ensures HasSlice(WriteAll(FilePatches(h, l.placed, l.table)), DataPatches(l)[k].at, DataPatches(l)[k].bytes)
  {
    hide WriteAll, FilePatches, HeaderPatches, DataPatches, HasSlice, Separate;
    FilePatchesSplit(h, l);
    AllWritten(FilePatches(h, l.placed, l.table), 0, hi, |HeaderPatches(h, l.placed, l.table)| + k);
  }

  /** The bytes of a stored segment, on a page boundary. */
  lemma SegmentFound(h: Ehdr, l: Layout, k: nat)
    requires l.Sound() && l.Finished() && l.Ample() && l.Roomy() && k < |l.segs| && InFile(l.segs[k])
    ensures |l.placed| == |l.segs|
    ensures var header := l.placed[k].header;
            && HasSlice(WriteAll(FilePatches(h, l.placed, l.table)), header.offset, l.segs[k].data)
            && header.filesz == |l.segs[k].data| && Paged(header.offset)
  {
    hide WriteAll, NameTable, FilePatches, AfterSegments, PageAlign, Paged, Separate;
    FinishedCounts(l);
    FirstOffsetPaged(|l.segs|);
    NamesBehind(l);
    assert l.segs[k] in l.segs;
    SegmentOffset(l.segs, FirstOffset(|l.segs|), k);
    PlacedKeepsData(l.segs, FirstOffset(|l.segs|), k);
    FileApart(h, l);
    DataFound(h, l, l.NamesAt() + |NameTable(l.names)|, k);
  }

  /** The section number e_shstrndx is .shstrtab, and every sh_name finds its own name there. */
  lemma NamesFound(h: Ehdr, l: Layout, j: nat, idx: nat)
    requires l.Sound() && l.Finished() && l.Ample() && l.Roomy() && j < |l.table|
    requires 0 < idx <= |l.order| && l.order[idx - 1] == SHSTRTAB
    ensures var file, header := WriteAll(FilePatches(h, l.placed, l.table)), NameSection(l.names, l.NamesAt()).header;
            && HasSlice(file, SectionTable(|l.placed|) + SHDR_SIZE * idx, EncodeShdr(header))
            && HasSlice(file, header.offset + l.table[j].header.name, CBytes(l.order[j]))
  {
    hide WriteAll, NameTable, FilePatches, HasSlice, EncodeShdr, NamesOffset, NameSection, SectionPlaced, Wrap32, Separate, Layout.Sound,
      Layout.Finished, Layout.Ample, Layout.FirstData, SectionPatches, CBytes;
    var file := WriteAll(FilePatches(h, l.placed, l.table));
    FinishedCounts(l);
    FileApart(h, l);
    HeadersFound(h, l.placed, l.table, l.NamesAt() + |NameTable(l.names)|, 0, idx - 1);
    var _ := SectionOf(l, idx - 1);
    NamesRow(l, idx - 1);
    DataFound(h, l, l.NamesAt() + |NameTable(l.names)|, |l.placed| + (idx - 1));
    var name := NameOf(l, j);
    SliceWithin(NameTable(l.names), name, CBytes(l.order[j]), file, l.NamesAt());
  }

  lemma NamesRow(l: Layout, k: nat)
    requires l.Sound() && l.Finished() && l.Ample() && k < |l.table| == |l.order| && l.order[k] == SHSTRTAB
    ensures SectionPatches(l.table, |l.table|)[k] == Patch(l.NamesAt(), NameTable(l.names)) && NameTable(l.names) != []
    ensures NameSection(l.names, l.NamesAt()).header.offset == l.NamesAt()
  {
    hide NameTable, NamesOffset, Wrap32, SectionPatches, Layout.Finished;
    var _ := RowWrites(l, k);
    WrapsAreIdentity(l.NamesAt());
    NameTableIsLong(l.names);
  }

  /** The bytes of a section that is written, behind the segments. */
  lemma SectionFound(h: Ehdr, l: Layout, i: nat) returns (j: nat)
    requires l.Sound() && l.Finished() && l.Ample() && l.Roomy() && i < |l.secs| && Written(l.secs[i])
    ensures j < |l.table| == |l.order| && l.order[j] == l.names[i]
    ensures var header := l.table[j].header;
            && HasSlice(WriteAll(FilePatches(h, l.placed, l.table)), header.offset, l.secs[i].data)
            && header.size == |l.secs[i].data|
  {
    hide WriteAll, NameTable, FilePatches, AfterSegments, AfterSections, PageAlign, Paged, Separate, Layout.Sound, Layout.Finished, SectionPatches;
    FinishedCounts(l);
    FileApart(h, l);
    j := WrittenRow(l, i);
    DataFound(h, l, l.NamesAt() + |NameTable(l.names)|, |l.placed| + j);
  }

  ghost predicate HasNames(file: seq<Byte>) {
    ElfIdent(file) && file[46..48] == [40, 0] && HasSection(file, Half16(file, 50))
  }

  /** Where the name of section `k` begins. */
  function NameAt(file: seq<Byte>, k: nat): nat
    requires |file| >= EHDR_SIZE && HasSection(file, Half16(file, 50)) && HasSection(file, k)
  {
    OffsetField(file, Half16(file, 50)) + NameField(file, k)
  }

  /** Section header `k` is that of the section called `name`: a reader of the string table finds this name. */
  ghost predicate NamedAt(file: seq<Byte>, k: nat, name: string)
    requires HasNames(file)
  {
    && HasSection(file, k) && HasSlice(file, NameAt(file, k), CBytes(name))
    && (EightBit(name) ==> StringAt(file, NameAt(file, k)) == name)
  }

  /** A reader that follows e_shoff and e_shstrndx in the bytes of the file finds these names in this order
      behind the null section; .shstrtab begins on a page. */
  ghost predicate NamesSections(file: seq<Byte>, order: seq<string>) {
    && HasNames(file) && Paged(OffsetField(file, Half16(file, 50))) && Reads(file, Word32(file, 32), [0, 0, 0, 0, 0, 0, 0, 0, 0, 0])
    && Half16(file, 48) == |order| + 1 && 0 < Half16(file, 50) <= |order| && order[Half16(file, 50) - 1] == SHSTRTAB
    && forall j :: 0 <= j < |order| ==> NamedAt(file, j + 1, order[j])
  }

  /** A reader finds exactly the sections of these names. */
  ghost predicate HasSections(file: seq<Byte>, names: set<string>) {
    exists order :: NamesSections(file, order) && NoDup(order) && names == set n | n in order
  }

  /** The file as the writer leaves it: its ELF header completed for section `idx`. */
  ghost predicate FileOf(h: Ehdr, l: Layout, idx: nat, file: seq<Byte>) {
    && 0 < idx <= |l.order| < 0xFFFF && l.order[idx - 1] == SHSTRTAB && 0 <= h.phnum < 0x1_0000
    && file == WriteAll(FilePatches(FinalHeader(h, |l.segs|, |l.order|, idx), l.placed, l.table))
  }

  lemma NamesInFile(h: Ehdr, l: Layout, idx: nat, file: seq<Byte>)
    requires l.Sound() && l.Finished() && l.Ample() && l.Roomy() && FileOf(h, l, idx, file)
    ensures NamesSections(file, l.order)
  {
    hide WriteAll, NameTable, FilePatches, HasSlice, Separate, Half16, Word32, OffsetField, NameField, HasSection, Layout.Sound, Layout.Finished,
      Paged, CBytes, ElfIdent, Reads, StringAt, NameAt;
    FinishedCounts(l);
    NameInFile(h, l, idx, idx - 1, file);
    NullInFile(h, l, idx, file);
    forall j | 0 <= j < |l.order| ensures NamedAt(file, j + 1, l.order[j]) {
      NameInFile(h, l, idx, j, file);
    }
  }

  lemma NameInFile(h: Ehdr, l: Layout, idx: nat, j: nat, file: seq<Byte>)
    requires l.Sound() && l.Finished() && l.Ample() && l.Roomy() && FileOf(h, l, idx, file) && j < |l.table| == |l.order|
    ensures HasNames(file) && Half16(file, 50) == idx && Half16(file, 48) == |l.order| + 1
    ensures NamedAt(file, j + 1, l.order[j]) && Paged(OffsetField(file, Half16(file, 50)))
  {
    hide WriteAll, NameTable, FilePatches, HasSlice, EncodeShdr, EncodeEhdr, NameSection, Wrap32, Separate, Half16, Word32,
      NameField, OffsetField, Layout.Sound, Layout.Finished, Paged, ElfIdent, Reads, StringAt, CBytes;
    var header := FinalHeader(h, |l.segs|, |l.order|, idx);
    NamesFound(header, l, j, idx);
    RowInFile(h, l, idx, idx - 1, file);
    RowInFile(h, l, idx, j, file);
    SectionFields(file, idx, NameSection(l.names, l.NamesAt()).header);
    NamesPaged(l);
    if EightBit(l.order[j]) {
      StringFound(file, NameAt(file, j + 1), l.order[j]);
    }
  }

  /** The header of the null section comes first. */
  lemma NullInFile(h: Ehdr, l: Layout, idx: nat, file: seq<Byte>)
    requires l.Sound() && l.Finished() && l.Ample() && l.Roomy() && FileOf(h, l, idx, file)
    ensures |file| >= EHDR_SIZE && Reads(file, Word32(file, 32), [0, 0, 0, 0, 0, 0, 0, 0, 0, 0])
  {
    hide WriteAll, NameTable, FilePatches, HasSlice, EncodeShdr, EncodeEhdr, Separate, Half16, Word32, Reads, FinalHeader, Layout.Sound,
      Layout.Finished, Layout.Ample, Layout.Roomy;
    FinishedCounts(l);
    RowInFile(h, l, idx, idx - 1, file);
    FileApart(FinalHeader(h, |l.segs|, |l.order|, idx), l);
    NullFound(FinalHeader(h, |l.segs|, |l.order|, idx), l.placed, l.table, l.NamesAt() + |NameTable(l.names)|);
    SectionFields(file, 0, NULL_SHDR);
    assert ShdrWords(NULL_SHDR) == [0, 0, 0, 0, 0, 0, 0, 0, 0, 0];
  }

  lemma NullFound(h: Ehdr, segs: seq<Segment>, secs: seq<Section>, hi: nat)
    requires Separate(FilePatches(h, segs, secs), 0, hi)
    ensures HasSlice(WriteAll(FilePatches(h, segs, secs)), SectionTable(|segs|), EncodeShdr(NULL_SHDR))
  {
    hide WriteAll, FilePatches, HasSlice, Separate, EncodeShdr;
    NullPlace(h, segs, secs);
    AllWritten(FilePatches(h, segs, secs), 0, hi, |segs| + 1);
  }

  lemma NullPlace(h: Ehdr, segs: seq<Segment>, secs: seq<Section>)
    ensures var ps := FilePatches(h, segs, secs);
            |ps| > |segs| + 1 && ps[|segs| + 1] == Patch(SectionTable(|segs|), EncodeShdr(NULL_SHDR)) && ps[|segs| + 1].bytes != []
  {
    hide EncodeEhdr, EncodePhdr, EncodeShdr;
  }

  /** Row `j` of the table, found through e_shoff. */
  lemma RowInFile(h: Ehdr, l: Layout, idx: nat, j: nat, file: seq<Byte>)
    requires l.Sound() && l.Finished() && l.Ample() && l.Roomy() && FileOf(h, l, idx, file) && j < |l.table| == |l.order|
    ensures ElfIdent(file) && file[46..48] == [40, 0] && Half16(file, 50) == idx && Half16(file, 48) == |l.order| + 1
    ensures Word32(file, 32) == SectionTable(|l.placed|) && HasSection(file, j + 1)
    ensures Reads(file, Word32(file, 32) + SHDR_SIZE * (j + 1), ShdrWords(l.table[j].header))
    ensures NameField(file, j + 1) == l.table[j].header.name && OffsetField(file, j + 1) == l.table[j].header.offset
    ensures SizeField(file, j + 1) == l.table[j].header.size
  {
    hide WriteAll, NameTable, FilePatches, HasSlice, EncodeShdr, EncodeEhdr, Wrap32, Separate, Half16, Word32,
      NameField, OffsetField, SizeField, FinalHeader, Layout.Sound, Layout.Finished, Layout.Ample, Layout.Roomy, Reads, ElfIdent, ShdrWords;
    var header := FinalHeader(h, |l.segs|, |l.order|, idx);
    FinalFits(h, l, idx);
    FileApart(header, l);
    FinishedCounts(l);
    HeadersFound(header, l.placed, l.table, l.NamesAt() + |NameTable(l.names)|, 0, j);
    EhdrFields(file, header);
    EhdrIdent(file, header);
    SectionFields(file, j + 1, l.table[j].header);
  }

  /** For every section that is written, a header that a reader finds through e_shoff and that leads to the
      name and to all the bytes of the section. */
  lemma SectionInFile(h: Ehdr, l: Layout, idx: nat, i: nat, file: seq<Byte>) returns (k: nat)
    requires l.Sound() && l.Finished() && l.Ample() && l.Roomy() && FileOf(h, l, idx, file) && i < |l.secs| && Written(l.secs[i])
    ensures HasNames(file) && 0 < k < Half16(file, 48) && NamedAt(file, k, l.names[i])
    ensures SizeField(file, k) == |l.secs[i].data| && HasSlice(file, OffsetField(file, k), l.secs[i].data)
  {
    hide WriteAll, NameTable, FilePatches, HasSlice, Separate, Half16, Word32, NameField, OffsetField, SizeField, HasSection, Layout.Sound,
      Layout.Finished, Layout.Ample, ElfIdent, Reads, StringAt, ShdrWords;
    var j := SectionFound(FinalHeader(h, |l.segs|, |l.order|, idx), l, i);
    RowInFile(h, l, idx, j, file);
    NameInFile(h, l, idx, j, file);
    k := j + 1;
  }

  lemma FinalFits(h: Ehdr, l: Layout, idx: nat)
    requires l.Sound() && l.Finished() && idx <= |l.order| < 0xFFFF && 0 <= h.phnum < 0x1_0000
    ensures SectionTable(|l.segs|) == Wrap32(SectionTable(|l.segs|))
    ensures var header := FinalHeader(h, |l.segs|, |l.order|, idx);
            header.shentsize == SHDR_SIZE && header.shoff == SectionTable(|l.segs|) && header.shnum == |l.order| + 1 && header.shstrndx == idx
            && 0 <= header.phnum < 0x1_0000
  {
    hide NameTable, PageAlign, AfterSegments;
  }

  lemma NamesPaged(l: Layout)
    requires l.Sound() && l.Finished()
    ensures Paged(NameSection(l.names, l.NamesAt()).header.offset)
  {
    hide NameTable, AfterSegments, PageAlign, Paged, Wrap32;
    SectionsFitHere(l);
    SectionsPaged(l.secs, l.DataEnd());
    WrapsAreIdentity(l.NamesAt());
  }

  lemma NameOf(l: Layout, j: nat) returns (name: nat)
    requires l.Sound() && l.Finished() && j < |l.table|
    ensures name == l.table[j].header.name && HasSlice(NameTable(l.names), name, CBytes(l.order[j]))
  {
    hide NameTable, NamesOffset, Wrap32, HasSlice;
    var i := SectionOf(l, j);
    NamesAreFound(l.names, if l.order[j] == SHSTRTAB then |l.names| else i);
    name := l.table[j].header.name;
    if l.order[j] != SHSTRTAB {
      NameTableGrows(l.names, i);
      WrapsAreIdentity(|NameTable(l.names[..i])|);
    }
  }

  lemma {:induction false} NameTableGrows(names: seq<string>, i: nat)
    requires i <= |names|
    ensures |NameTable(names[..i])| <= |NameTable(names)|
  {
    if i < |names| {
      NameTableGrows(names[..|names| - 1], i);
      assert names[..|names| - 1][..i] == names[..i];
    } else {
      assert names[..i] == names;
    }
  }
}
