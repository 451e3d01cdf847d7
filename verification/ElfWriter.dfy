/** csrc/src/elf_gen.c: the context of an ELF file, whose segments and sections live in hash maps. */
module ElfWriter {
  import opened MachineInts
  import opened Chains
  import opened HashMap
  import opened ElfLayout
  import opened ElfFile
  import opened ElfCorrect

  /** The body of the first loop of fix_header_offsets. */
  method PlaceOneSegment(m: HashTable<Segment>, name: string, offset: nat, ghost k: nat) returns (after: nat)
    requires m.Valid() && k < |m.Order()| && m.Order()[k] == name
    modifies m.Nodes()`value
    ensures m.Valid() && m.Values() == old(m.Values())[k := PlaceSegment(old(m.Values()[k]), offset)]
    ensures after == AfterSegment(old(m.Values()[k]), offset)
  {
    hide HashTable.Valid, HashTable.Contents, HashTable.Order, HashTable.Values, PageAlign, Wrap32;
    var node := m.FindAt(name, k);
    var program := node.value;
    after := offset;
    if program.length != 0 && program.stored {
      var header := program.header.(filesz := Wrap32(program.length), memsz := Wrap32(program.length), offset := Wrap32(offset));
      m.OverwriteAt(node, program.(header := header), k);
      after := PageAlign(offset + program.length);
    } else if program.length != 0 {
      var header := program.header.(memsz := Wrap32(program.length), offset := Wrap32(offset));
      m.OverwriteAt(node, program.(header := header), k);
    }
  }

  method PlaceSegments(m: HashTable<Segment>, start: nat) returns (offset: nat)
    requires m.Valid()
    modifies m.Nodes()`value
    ensures m.Valid() && m.Values() == SegmentsPlaced(old(m.Values()), start, |old(m.Values())|)
    ensures offset == AfterSegments(old(m.Values()), start)
  {
    hide HashTable.Valid, HashTable.Contents, HashTable.Order, MapIterator.Over, HashTable.Values, Wrap32, CBytes, AfterSegments, PlaceSegment, SegmentsPlaced;
    ghost var segs := m.Values();
    SegmentsPlacedEnds(segs, start);
    var it := new MapIterator(m);
    offset := start;
    var name := it.Next(m);
    ghost var k := 0;
    while name.Some?
      invariant m.Valid() && it.Over(m.chains) && k <= |segs|
      invariant it.yielded == (if name.Some? then k + 1 else k)
      invariant if name.Some? then k < |segs| && name.value == m.Order()[k] else k == |segs|
      invariant m.Values() == SegmentsPlaced(segs, start, k) && offset == AfterSegments(segs[..k], start)
      decreases |segs| - k
    {
      SegmentPlacedNext(segs, start, k);
      offset := PlaceOneSegment(m, name.value, offset, k);
      name := it.Next(m);
      k := k + 1;
    }
  }

  /** The new header of a section and the new offset; `program` is the segment of the same name. */
  method UpdateSection(s: Section, name: nat, offset: nat, program: Option<Segment>) returns (s': Section, after: nat)
    ensures after == AfterSection(s, offset) && s' == PlaceSection(s, name, after, program)
  {
    hide PageAlign, Wrap32, HasFileType;
    var header := s.header.(name := Wrap32(name));
    after := offset;
    if s.length != 0 && HasFileType(s) {
      after := PageAlign(offset + s.length);
    }
    if program.Some? {
      var p := program.value;
      header := header.(size := Wrap32(p.length), offset := p.header.offset, addr := p.header.vaddr);
    } else if s.length != 0 {
      header := header.(size := Wrap32(s.length), offset := Wrap32(after));
    }
    s' := s.(header := header);
  }

  /** The body of the second loop: `table` is .shstrtab so far. */
  method PlaceOneSection(m: HashTable<Section>, segments: HashTable<Segment>, name: string,
                         table: seq<Byte>, offset: nat, ghost k: nat) returns (table': seq<Byte>, after: nat)
    requires m.Valid() && segments.Valid() && segments.Repr() !! m.Repr()
    requires k < |m.Order()| && m.Order()[k] == name
    modifies m.Nodes()`value
    ensures m.Valid() && segments.Valid() && segments.Contents() == old(segments.Contents())
    ensures table' == table + CBytes(name) && after == AfterSection(old(m.Values()[k]), offset)
    ensures m.Values() == old(m.Values())[k := PlaceSection(old(m.Values()[k]), |table|, after, Lookup(segments.Contents(), name))]
  {
    hide HashTable.Valid, HashTable.Contents, HashTable.Order, HashTable.Values, PlaceSection, AfterSection, CBytes;
    var node := m.FindAt(name, k);
    table' := table + CBytes(name);
    var program := segments.Get(name);
    var section;
    section, after := UpdateSection(node.value, |table|, offset, program);
    m.OverwriteAt(node, section, k);
  }

  method PlaceSections(m: HashTable<Section>, segments: HashTable<Segment>, start: nat) returns (table: seq<Byte>, offset: nat)
    requires m.Valid() && segments.Valid() && segments.Repr() !! m.Repr()
    modifies m.Nodes()`value
    ensures m.Valid() && segments.Valid() && segments.Contents() == old(segments.Contents())
    ensures var secs := old(m.Values());
            && m.Values() == SectionsPlaced(m.Order(), secs, segments.Contents(), start, |secs|)
            && table == NameTable(m.Order()) && offset == AfterSections(secs, start)
  {
    hide HashTable.Valid, HashTable.Contents, HashTable.Order, MapIterator.Over, HashTable.Values, Wrap32, CBytes, AfterSections, PlaceSection, NameTable, SectionsPlaced;
    ghost var names, secs, segs := m.Order(), m.Values(), segments.Contents();
    SectionsPlacedEnds(names, secs, segs, start);
    table, offset := [0] + CBytes(SHSTRTAB), start;
    var it := new MapIterator(m);
    var name := it.Next(m);
    ghost var k := 0;
    while name.Some?
      invariant m.Valid() && it.Over(m.chains) && k <= |secs|
      invariant segments.Valid() && segments.Contents() == segs
      invariant it.yielded == (if name.Some? then k + 1 else k)
      invariant if name.Some? then k < |secs| && name.value == names[k] else k == |secs|
      invariant m.Values() == SectionsPlaced(names, secs, segs, start, k)
      invariant table == NameTable(names[..k]) && offset == AfterSections(secs[..k], start)
      decreases |secs| - k
    {
      SectionPlacedNext(names, secs, segs, start, k);
      table, offset := PlaceOneSection(m, segments, name.value, table, offset, k);
      name := it.Next(m);
      k := k + 1;
    }
  }

  /** The position in the section header table, the null section being number 0. */
  method IndexOfSection(m: HashTable<Section>, key: string) returns (idx: int)
    requires m.Valid()
    ensures if key in m.Contents() then 0 < idx <= |m.Order()| && m.Order()[idx - 1] == key else idx == -1
  {
    hide HashTable.Valid, HashTable.Contents, HashTable.Order, MapIterator.Over, NoDup;
    var section := m.Find(key);
    if section == null {
      return -1;
    }
    m.OrderListsTheKeys();
    ghost var names := m.Order();
    ghost var place: nat :| place < |names| && names[place] == key;
    var it := new MapIterator(m);
    idx := 1;
    var name := it.Next(m);
    while name.Some?
      invariant 1 <= idx && it.Over(m.chains) && idx - 1 <= place
      invariant it.yielded == (if name.Some? then idx else idx - 1) <= |names|
      invariant if name.Some? then name.value == names[idx - 1] else idx - 1 >= |names|
      decreases |names| - idx
    {
      assert names[idx - 1] in names;
      var test := m.Find(name.value);
      if test == section {
        return;
      }
      if name.value == key {
        m.OneNodePerKey(test, section);
      }
      name := it.Next(m);
      idx := idx + 1;
    }
    idx := -1;
  }

  /** Both loops; .shstrtab is the result. */
  method PlaceEverything(segments: HashTable<Segment>, sections: HashTable<Section>, count: nat) returns (shstrtab: Section)
    requires segments.Valid() && sections.Valid() && segments.Repr() !! sections.Repr()
    modifies segments.Nodes()`value, sections.Nodes()`value
    ensures segments.Valid() && sections.Valid()
    ensures var segs, secs := old(segments.Values()), old(sections.Values());
            && segments.Values() == SegmentsPlaced(segs, FirstOffset(count), |segs|)
            && sections.Values() == SectionsPlaced(sections.Order(), secs, segments.Contents(),
                                                   AfterSegments(segs, FirstOffset(count)), |secs|)
            && shstrtab == NameSection(sections.Order(), NamesOffset(count, segs, secs))
  {
    hide HashTable.Valid, HashTable.Contents, HashTable.Order, HashTable.Values, PageAlign, NameTable, SectionsPlaced, SegmentsPlaced;
    ghost var segs, secs := segments.Values(), sections.Values();
    var start := PlaceSegments(segments, PageAlign(EHDR_SIZE + count * PHDR_SIZE));
    assert sections.Valid() && sections.Values() == secs;
    var table, offset := PlaceSections(sections, segments, start);
    assert segments.Valid() && segments.Values() == SegmentsPlaced(segs, FirstOffset(count), |segs|);
    var header := Shdr(1, SHT_STRTAB, SHF_STRINGS, 0, 0, 0, 0, 0, PAGE_SIZE, 0);
    header := header.(size := Wrap32(|table|), offset := Wrap32(offset));
    shstrtab := Piece(table, |table|, true, header);
  }

  // ----- writing the file -----

  method WriteProgramHeaders(m: HashTable<Segment>, file: OutFile, ghost ps: seq<Patch>)
    requires m.Valid() && file !in m.Repr() && file.bytes == WriteAll(ps) && file.pos == EHDR_SIZE
    modifies file
    ensures m.Valid() && file.pos == SectionTable(|m.Values()|)
    ensures file.bytes == WriteAll(ps + PhdrPatches(m.Values(), |m.Values()|))
  {
    hide HashTable.Valid, HashTable.Order, HashTable.Values, MapIterator.Over, WriteAll, WriteAt, EncodePhdr, PhdrPatches;
    ghost var segs := m.Values();
    NoPatches(ps, segs, [], 0);
    var it := new MapIterator(m);
    var name := it.Next(m);
    ghost var k := 0;
    while name.Some?
      invariant m.Valid() && m.Values() == segs && it.Over(m.chains) && k <= |segs|
      invariant it.yielded == (if name.Some? then k + 1 else k)
      invariant if name.Some? then k < |segs| && name.value == m.Order()[k] else k == |segs|
      invariant file.pos == EHDR_SIZE + PHDR_SIZE * k && file.bytes == WriteAll(ps + PhdrPatches(segs, k))
      decreases |segs| - k
    {
      var program := m.FindAt(name.value, k);
      PhdrNext(ps, segs, k);
      file.Write(EncodePhdr(program.value.header));
      name := it.Next(m);
      k := k + 1;
    }
  }

  method WriteSectionHeaders(m: HashTable<Section>, file: OutFile, ghost ps: seq<Patch>)
    requires m.Valid() && file !in m.Repr() && file.bytes == WriteAll(ps)
    modifies file
    ensures m.Valid() && file.bytes == WriteAll(ps + ShdrPatches(m.Values(), old(file.pos), |m.Values()|))
  {
    hide HashTable.Valid, HashTable.Order, HashTable.Values, MapIterator.Over, WriteAll, WriteAt, EncodeShdr, ShdrPatches;
    ghost var secs, at := m.Values(), file.pos;
    NoPatches(ps, [], secs, at);
    var it := new MapIterator(m);
    var name := it.Next(m);
    ghost var k := 0;
    while name.Some?
      invariant m.Valid() && m.Values() == secs && it.Over(m.chains) && k <= |secs|
      invariant it.yielded == (if name.Some? then k + 1 else k)
      invariant if name.Some? then k < |secs| && name.value == m.Order()[k] else k == |secs|
      invariant file.pos == at + SHDR_SIZE * k && file.bytes == WriteAll(ps + ShdrPatches(secs, at, k))
      decreases |secs| - k
    {
      var section := m.FindAt(name.value, k);
      ShdrNext(ps, secs, at, k);
      file.Write(EncodeShdr(section.value.header));
      name := it.Next(m);
      k := k + 1;
    }
  }

  /** Pieces without storage are skipped. */
  method WriteStored(file: OutFile, stored: bool, at: nat, data: seq<Byte>)
    modifies file
    ensures file.bytes == if stored then WriteAt(old(file.bytes), at, data) else old(file.bytes)
  {
    if stored {
      file.Seek(at);
      file.Write(data);
    }
  }

  method WriteSegments(m: HashTable<Segment>, file: OutFile, ghost ps: seq<Patch>)
    requires m.Valid() && file !in m.Repr() && file.bytes == WriteAll(ps)
    modifies file
    ensures m.Valid() && file.bytes == WriteAll(ps + SegmentPatches(m.Values(), |m.Values()|))
  {
    hide HashTable.Valid, HashTable.Order, HashTable.Values, MapIterator.Over, WriteAll, WriteAt, SegmentPatches;
    ghost var segs := m.Values();
    NoPatches(ps, segs, [], 0);
    var it := new MapIterator(m);
    var name := it.Next(m);
    ghost var k := 0;
    while name.Some?
      invariant m.Valid() && m.Values() == segs && it.Over(m.chains) && k <= |segs|
      invariant it.yielded == (if name.Some? then k + 1 else k)
      invariant if name.Some? then k < |segs| && name.value == m.Order()[k] else k == |segs|
      invariant file.bytes == WriteAll(ps + SegmentPatches(segs, k))
      decreases |segs| - k
    {
      var program := m.FindAt(name.value, k);
      SegmentNext(ps, segs, k);
      WriteStored(file, program.value.stored, program.value.header.offset, program.value.data);
      name := it.Next(m);
      k := k + 1;
    }
  }

  method WriteSections(m: HashTable<Section>, file: OutFile, ghost ps: seq<Patch>)
    requires m.Valid() && file !in m.Repr() && file.bytes == WriteAll(ps)
    modifies file
    ensures m.Valid() && file.bytes == WriteAll(ps + SectionPatches(m.Values(), |m.Values()|))
  {
    hide HashTable.Valid, HashTable.Order, HashTable.Values, MapIterator.Over, WriteAll, WriteAt, SectionPatches;
    ghost var secs := m.Values();
    NoPatches(ps, [], secs, 0);
    var it := new MapIterator(m);
    var name := it.Next(m);
    ghost var k := 0;
    while name.Some?
      invariant m.Valid() && m.Values() == secs && it.Over(m.chains) && k <= |secs|
      invariant it.yielded == (if name.Some? then k + 1 else k)
      invariant if name.Some? then k < |secs| && name.value == m.Order()[k] else k == |secs|
      invariant file.bytes == WriteAll(ps + SectionPatches(secs, k))
      decreases |secs| - k
    {
      var section := m.FindAt(name.value, k);
      SectionNext(ps, secs, k);
      WriteStored(file, section.value.stored, section.value.header.offset, section.value.data);
      name := it.Next(m);
      k := k + 1;
    }
  }

  method WriteHeaders(h: Ehdr, segments: HashTable<Segment>, sections: HashTable<Section>, file: OutFile)
    requires segments.Valid() && sections.Valid() && file !in segments.Repr() + sections.Repr()
    requires file.bytes == [] && file.pos == 0
    modifies file
    ensures segments.Valid() && sections.Valid()
    ensures file.bytes == WriteAll(HeaderPatches(h, segments.Values(), sections.Values()))
  {
    hide HashTable.Valid, HashTable.Values, HashTable.Order, WriteAt, EncodeEhdr, EncodeShdr, PhdrPatches, ShdrPatches;
    ghost var segs := segments.Values();
    ghost var ps := [Patch(0, EncodeEhdr(h))];
    WriteOneMore([], ps[0]);
    file.Write(EncodeEhdr(h));
    WriteProgramHeaders(segments, file, ps);
    ps := ps + PhdrPatches(segs, |segs|);
    WriteOneMore(ps, Patch(file.pos, EncodeShdr(NULL_SHDR)));
    file.Write(EncodeShdr(NULL_SHDR));
    WriteSectionHeaders(sections, file, ps + [Patch(SectionTable(|segs|), EncodeShdr(NULL_SHDR))]);
  }

  method WriteFile(h: Ehdr, segments: HashTable<Segment>, sections: HashTable<Section>, file: OutFile)
    requires segments.Valid() && sections.Valid() && file !in segments.Repr() + sections.Repr()
    requires file.bytes == [] && file.pos == 0
    modifies file
    ensures segments.Valid() && sections.Valid()
    ensures file.bytes == WriteAll(FilePatches(h, segments.Values(), sections.Values()))
  {
    hide HashTable.Valid, HashTable.Values, HashTable.Order, WriteAll, HeaderPatches, SegmentPatches, SectionPatches;
    ghost var segs, secs := segments.Values(), sections.Values();
    WriteHeaders(h, segments, sections, file);
    WriteSegments(segments, file, HeaderPatches(h, segs, secs));
    WriteSections(sections, file, HeaderPatches(h, segs, secs) + SegmentPatches(segs, |segs|));
  }

  class ElfContext {
    var ehdr: Ehdr
    var shstrtab: Section
    const segments: HashTable<Segment>
    const sections: HashTable<Section>

    ghost function Repr(): set<object>
      reads segments`buckets, segments`chains, sections`buckets, sections`chains
    {
      {this} + segments.Repr() + sections.Repr()
    }

    ghost predicate Valid()
      reads this, Repr()
    {
      && segments.Valid() && sections.Valid() && segments.Repr() !! sections.Repr()
      && this !in segments.Repr() + sections.Repr()
      && segments.nnodes <= segments.count && sections.nnodes <= sections.count
    }

    constructor ()
      ensures Valid() && fresh(Repr()) && segments.Contents() == map[] && sections.Contents() == map[]
      ensures segments.count == segments.nnodes == 0 && sections.count == sections.nnodes == 0
      ensures ehdr == NEW_EHDR
    {
      hide HashTable.Valid, HashTable.Contents;
      segments := new HashTable();
      sections := new HashTable();
      ehdr := NEW_EHDR;
      shstrtab := Piece([], 0, false, NULL_SHDR);
    }

    method GenProgramHeader(name: string, header: Phdr) returns (node: Node<Segment>)
      requires Valid()
      modifies segments, segments.buckets, segments.Nodes()
      ensures Valid() && fresh(Repr() - old(Repr())) && old(segments.Nodes()) <= segments.Nodes()
      ensures segments.Contents() == old(segments.Contents())[name := Piece([], 0, false, header.(align := PAGE_SIZE))]
      ensures node in segments.Nodes() && node.key == name && node.value == segments.Contents()[name]
      ensures sections.Contents() == old(sections.Contents())
      ensures segments.count - segments.nnodes ==
              old(segments.count - segments.nnodes) + (if name in old(segments.Contents()) then 1 else 0)
    {
      hide Appended, HashTable.Valid, HashTable.Contents, HashTable.Order, MapIterator.Over;
      var ok := segments.MapSet(name, Piece([], 0, false, header.(align := PAGE_SIZE)), true, true);
      var found := segments.Find(name);
      node := found;
    }

    /** A write through the pointer that GenProgramHeader has returned. */
    method UpdateSegment(node: Node<Segment>, s: Segment)
      requires Valid() && node in segments.Nodes()
      modifies node`value
      ensures Valid() && segments.Contents() == old(segments.Contents())[node.key := s]
      ensures sections.Contents() == old(sections.Contents())
    {
      hide HashTable.Valid, HashTable.Contents;
      segments.Overwrite(node, s);
    }

    method GenSectionHeader(name: string, header: Shdr)
      requires Valid()
      modifies sections, sections.buckets, sections.Nodes()
      ensures Valid() && fresh(Repr() - old(Repr()))
      ensures sections.Contents() == old(sections.Contents())[name := Piece([], 0, false, header.(addralign := PAGE_SIZE))]
      ensures segments.Contents() == old(segments.Contents())
      ensures sections.count - sections.nnodes ==
              old(sections.count - sections.nnodes) + (if name in old(sections.Contents()) then 1 else 0)
    {
      hide Appended, HashTable.Valid, HashTable.Contents, HashTable.Order, MapIterator.Over;
      var ok := sections.MapSet(name, Piece([], 0, false, header.(addralign := PAGE_SIZE)), true, true);
    }

    /** Adds .shstrtab to the sections, which may move the others to new buckets. */
    method AddNames() returns (ghost idx: nat)
      requires Valid()
      modifies this`ehdr, sections, sections.buckets, sections.Nodes()
      ensures Valid() && sections.Contents() == old(sections.Contents())[SHSTRTAB := shstrtab]
      ensures fresh(Repr() - old(Repr()))
      ensures 0 < idx <= |sections.Order()| && sections.Order()[idx - 1] == SHSTRTAB
      ensures ehdr == old(ehdr).(shstrndx := idx % 0x1_0000)
      ensures sections.count - sections.nnodes ==
              old(sections.count - sections.nnodes) + (if SHSTRTAB in old(sections.Contents()) then 1 else 0)
    {
      hide Appended, HashTable.Valid, HashTable.Contents, HashTable.Order;
      var ok := sections.MapSet(SHSTRTAB, shstrtab, true, true);
      var i := IndexOfSection(sections, SHSTRTAB);
      ehdr := ehdr.(shstrndx := i % 0x1_0000);
      idx := i;
    }

    method PlaceAll()
      requires Valid()
      modifies this`shstrtab, segments.Nodes()`value, sections.Nodes()`value
      ensures Valid()
      ensures PlacedValues(segments.count, old(segments.Values()), old(sections.Values()), segments.Values(),
                           sections.Order(), sections.Values(), segments.Contents(), shstrtab)
    {
      hide HashTable.Valid, HashTable.Contents, HashTable.Order, HashTable.Values, NameSection, SegmentsPlaced, SectionsPlaced;
      var table := PlaceEverything(segments, sections, segments.count);
      shstrtab := table;
    }

    /** Segments and sections placed; .shstrtab is complete, but not yet one of the sections. */
    method LayOut()
      requires Valid()
      modifies this`shstrtab, segments.Nodes()`value, sections.Nodes()`value
      ensures Valid()
      ensures LaidOut(segments.count, old(segments.Values()), old(sections.Order()), old(sections.Values()),
                      segments.Values(), segments.Contents(), sections.Contents()[SHSTRTAB := shstrtab])
      ensures sections.Contents().Keys == old(sections.Contents().Keys)
    {
      hide HashTable.Valid, HashTable.Contents, HashTable.Order, HashTable.Values, LaidOut, PlacedValues;
      ghost var segs, names, secs := segments.Values(), sections.Order(), sections.Values();
      sections.ValuesAreContents();
      PlaceAll();
      ghost var secMap := sections.Contents();
      sections.ValuesAreContents();
      LaidOutByValues(segments.count, segs, names, secs, segments.Values(), sections.Values(), segments.Contents(), secMap, shstrtab);
    }

    method FixHeaderOffsets() returns (ghost idx: nat)
      requires Valid()
      modifies Repr()
      ensures Valid() && fresh(Repr() - old(Repr()))
      ensures LaidOut(old(segments.count), old(segments.Values()), old(sections.Order()), old(sections.Values()),
                      segments.Values(), segments.Contents(), sections.Contents())
      ensures segments.Order() == old(segments.Order()) && segments.count == old(segments.count)
      ensures 0 < idx <= |sections.Order()| && sections.Order()[idx - 1] == SHSTRTAB
      ensures ehdr == old(ehdr).(shstrndx := idx % 0x1_0000)
      ensures sections.count - sections.nnodes ==
              old(sections.count - sections.nnodes) + (if SHSTRTAB in old(sections.Contents()) then 1 else 0)
    {
      hide HashTable.Valid, HashTable.Contents, HashTable.Order, HashTable.Values, LaidOut, PlacedValues;
      LayOut();
      idx := AddNames();
    }

    method Finalize() returns (ghost idx: nat)
      requires Valid()
      modifies Repr()
      ensures Valid() && fresh(Repr() - old(Repr()))
      ensures LaidOut(old(segments.count), old(segments.Values()), old(sections.Order()), old(sections.Values()),
                      segments.Values(), segments.Contents(), sections.Contents())
      ensures segments.Order() == old(segments.Order()) && segments.count == old(segments.count)
      ensures 0 < idx <= |sections.Order()| && sections.Order()[idx - 1] == SHSTRTAB
      ensures ehdr == FinalHeader(old(ehdr), segments.count, sections.count, idx)
      ensures sections.count - sections.nnodes ==
              old(sections.count - sections.nnodes) + (if SHSTRTAB in old(sections.Contents()) then 1 else 0)
    {
      hide HashTable.Valid, HashTable.Contents, HashTable.Order, HashTable.Values, LaidOut;
      idx := FixHeaderOffsets();
      var header := ehdr;
      if segments.count != 0 {
        header := header.(phnum := segments.count % 0x1_0000, phentsize := PHDR_SIZE, phoff := EHDR_SIZE);
      }
      ehdr := header.(shnum := (sections.count + 1) % 0x1_0000, shentsize := SHDR_SIZE,
                    shoff := Wrap32(EHDR_SIZE + segments.count * PHDR_SIZE));
    }

    /** `l` lists the segments and sections before and after. */
    method FinalizeLayout() returns (ghost idx: nat, ghost l: Layout)
      requires Valid()
      modifies Repr()
      ensures Valid() && fresh(Repr() - old(Repr()))
      ensures l == Layout(old(segments.Values()), old(sections.Order()), old(sections.Values()),
                          segments.Values(), segments.Contents(), sections.Order(), sections.Values())
      ensures old(segments.count == segments.nnodes) ==> l.Finished()
      ensures 0 < idx <= |l.order| && l.order[idx - 1] == SHSTRTAB
      ensures ehdr == FinalHeader(old(ehdr), old(segments.count), sections.count, idx)
      ensures ListsTable(old(segments.Order()), l.placed, l.segMap)
      ensures sections.count - |l.order| ==
              old(sections.count - sections.nnodes) + (if SHSTRTAB in l.names then 1 else 0)
    {
      hide HashTable.Valid, HashTable.Contents, HashTable.Order, HashTable.Values, LaidOut, FinalHeader;
      ghost var segs, names, secs := segments.Values(), sections.Order(), sections.Values();
      segments.OrderListsTheKeys();
      sections.OrderListsTheKeys();
      idx := Finalize();
      l := Layout(segs, names, secs, segments.Values(), segments.Contents(), sections.Order(), sections.Values());
      sections.ValuesAreContents();
      sections.OrderListsTheKeys();
      segments.ValuesAreContents();
      segments.OrderListsTheKeys();
    }

    /** `file` is newly created. */
    method GenElfFile(file: OutFile) returns (ghost idx: nat, ghost l: Layout)
      requires Valid() && file !in Repr() && file.bytes == [] && file.pos == 0
      modifies Repr(), file
      ensures Valid()
      ensures l.segs == old(segments.Values()) && l.names == old(sections.Order()) && l.secs == old(sections.Values())
      ensures old(segments.count == segments.nnodes) ==> l.Finished()
      ensures 0 < idx <= |l.order| && l.order[idx - 1] == SHSTRTAB
      ensures ehdr == FinalHeader(old(ehdr), old(segments.count), sections.count, idx)
      ensures sections.count - |l.order| ==
              old(sections.count - sections.nnodes) + (if SHSTRTAB in l.names then 1 else 0)
      ensures ListsTable(old(segments.Order()), l.placed, l.segMap)
      ensures file.bytes == WriteAll(FilePatches(ehdr, l.placed, l.table))
    {
      hide HashTable.Valid, HashTable.Contents, HashTable.Order, HashTable.Values, Layout.Finished, FinalHeader, WriteAll, FilePatches, ListsTable;
      idx, l := FinalizeLayout();
      WriteFile(ehdr, segments, sections, file);
    }
  }

  ghost predicate PlacedValues(count: nat, segs: seq<Segment>, secs: seq<Section>, segs': seq<Segment>,
                               names: seq<string>, secs': seq<Section>, segMap: map<string, Segment>, table: Section)
    requires |names| == |secs'|
  {
    && segs' == SegmentsPlaced(segs, FirstOffset(count), |segs|)
    && |secs| == |secs'|
    && secs' == SectionsPlaced(names, secs, segMap, AfterSegments(segs, FirstOffset(count)), |secs|)
    && table == NameSection(names, NamesOffset(count, segs, secs))
  }

  lemma LaidOutByValues(count: nat, segs: seq<Segment>, names: seq<string>, secs: seq<Section>,
                        segs': seq<Segment>, secs': seq<Section>, segMap: map<string, Segment>,
                        secMap: map<string, Section>, table: Section)
    requires |names| == |secs| == |secs'| && PlacedValues(count, segs, secs, segs', names, secs', segMap, table)
    requires secMap.Keys == set n | n in names
    requires forall i :: 0 <= i < |names| ==> names[i] in secMap && secMap[names[i]] == secs'[i]
    ensures LaidOut(count, segs, names, secs, segs', segMap, secMap[SHSTRTAB := table])
  {
    hide NameSection, SegmentsPlaced, SectionPlaced;
  }
}
