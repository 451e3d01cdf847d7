/** csrc/src/main.c: from operations to an executable file, and what a loader finds in it. */
module Executable {
  import opened MachineInts
  import opened Slices
  import opened Store
  import opened FlatIr
  import opened X86
  import opened CodeGen
  import opened Chains
  import opened HashMap
  import opened ElfLayout
  import opened ElfFile
  import opened ElfCorrect
  import opened ElfWriter
  import CodeSimulation

  const ORIGIN: Word := 0x0804_8000
  const TAPE_SIZE: nat := 30000

  // ----- the loader -----

  // Its numbers are those of the System V ABI: program headers of 32 bytes, 1 for a segment to be loaded, and the
  // access rights 1 for execution and 2 for writing.

  function PhdrAt(file: seq<Byte>, k: nat): Phdr
    requires HasProgramHeaders(file) && k < Half16(file, 44)
  {
    DecodePhdr(file, Word32(file, 28) + 32 * k)
  }

  predicate HasProgramHeaders(file: seq<Byte>) {
    ElfIdent(file) && file[42..44] == [32, 0] && Word32(file, 28) + 32 * Half16(file, 44) <= |file|
  }

  /** The address belongs to the memory of the segment. */
  predicate Maps(h: Phdr, addr: int) { h.kind == 1 && h.vaddr <= addr < h.vaddr + h.memsz }

  /** Memory behind the bytes of the file is zero. */
  predicate Brings(file: seq<Byte>, h: Phdr, addr: int, b: Byte)
    requires h.vaddr <= addr
  {
    var at := addr - h.vaddr;
    if at < h.filesz then h.offset + at < |file| && file[h.offset + at] == b else b == 0
  }

  predicate Allows(h: Phdr, flag: nat)
    requires flag > 0
  {
    h.flags / flag % 2 == 1
  }

  /** Loading the file puts `b` at `addr`, with the access right `flag`. */
  ghost predicate Resident(file: seq<Byte>, addr: int, b: Byte, flag: nat)
    requires flag > 0
  {
    && HasProgramHeaders(file)
    && (exists k :: 0 <= k < Half16(file, 44) && Maps(PhdrAt(file, k), addr) && Allows(PhdrAt(file, k), flag))
    && forall k :: 0 <= k < Half16(file, 44) && Maps(PhdrAt(file, k), addr) ==> Brings(file, PhdrAt(file, k), addr, b)
  }

  /** Loading the file gives the image, executable code at its entry point, and zeroed writable memory. */
  ghost predicate Loads(file: seq<Byte>, image: Image, memory: nat) {
    && HasProgramHeaders(file) && Word32(file, 24) == image.origin
    && (forall i :: 0 <= i < |image.code| ==> Resident(file, image.origin + i, image.code[i], 1))
    && forall addr :: image.bss <= addr < image.bss + memory ==> Resident(file, addr, 0, 2)
  }

  /** The number of the first loaded segment from `k` on that has this right. */
  function FindSegment(file: seq<Byte>, flag: nat, k: nat): nat
    requires HasProgramHeaders(file) && flag > 0
    decreases Half16(file, 44) - k
  {
    if k >= Half16(file, 44) || (PhdrAt(file, k).kind == 1 && Allows(PhdrAt(file, k), flag)) then k
    else FindSegment(file, flag, k + 1)
  }

  /** The file has code that begins at its entry point, and memory without bytes in the file. */
  predicate Bootable(file: seq<Byte>) {
    && HasProgramHeaders(file)
    && FindSegment(file, 1, 0) < Half16(file, 44) && FindSegment(file, 2, 0) < Half16(file, 44)
    && CodeHeader(file).offset + CodeHeader(file).filesz <= |file|
    && Word32(file, 24) == CodeHeader(file).vaddr && MemoryHeader(file).filesz == 0
  }

  function CodeHeader(file: seq<Byte>): Phdr
    requires HasProgramHeaders(file) && FindSegment(file, 1, 0) < Half16(file, 44)
  {
    PhdrAt(file, FindSegment(file, 1, 0))
  }

  function MemoryHeader(file: seq<Byte>): Phdr
    requires HasProgramHeaders(file) && FindSegment(file, 2, 0) < Half16(file, 44)
  {
    PhdrAt(file, FindSegment(file, 2, 0))
  }

  function ImageOf(file: seq<Byte>): Image
    requires Bootable(file)
  {
    var text := CodeHeader(file);
    Image(file[text.offset..text.offset + text.filesz], text.vaddr, MemoryHeader(file).vaddr)
  }

  /** The processor at the entry point, with zeroed memory. */
  function BootFile(file: seq<Byte>, regs: seq<Word>, input: seq<Byte>): Machine
    requires Bootable(file)
  {
    CodeSimulation.Boot(ImageOf(file), regs, Zeroed(MemoryHeader(file).memsz, input))
  }

  function Zeroed(size: nat, input: seq<Byte>): State { State(0, seq(size, i => 0), input, []) }

  /** A loader takes the file for this image. */
  predicate Starts(file: seq<Byte>, image: Image, memory: nat) {
    Bootable(file) && ImageOf(file) == image && MemoryHeader(file).memsz == memory
  }

  // ----- the program image -----

  function Bss(length: nat): Word { Wrap32(PageAlign(ORIGIN + length)) }

  /** The code behind a first instruction that loads edi with `x`. */
  function TextWith(ops: seq<Op>, x: Word): seq<Byte>
    requires ForwardStarts(WithHalt(ops))
  {
    CompileFrom(WithHalt(ops), 0, CodeSimulation.LoadEdi(x) + Encode(PushReg(EDI))).code
  }

  function ElfImage(ops: seq<Op>): Image
    requires ForwardStarts(WithHalt(ops))
  {
    var bss := Bss(|TextWith(ops, ORIGIN)|);
    Image(TextWith(ops, bss), ORIGIN, bss)
  }

  /** What is compiled does not depend on the bytes in front of it, only on their number. */
  lemma {:induction false} FrontIsFree(ops: seq<Op>, i: nat, a: seq<Byte>, b: seq<Byte>)
    requires ForwardStarts(ops) && |a| == |b|
    ensures var x, y := CompileFrom(ops, i, a).code, CompileFrom(ops, i, b).code;
            |x| == |y| >= |a| && x[..|a|] == a && y[..|b|] == b && x[|a|..] == y[|b|..]
    decreases |ops| - i, 0
  {
    hide EncodeAll, OpInstrs, LoopStartInstrs, LoopEndInstrs;
    if i < |ops| {
      if ops[i].kind == LoopStart {
        var body := CompileFrom(ops, i + 1, []);
        if body.result == CompileOk {
          FrontIsFreeBehind(ops, i + ops[i].arg + 1, a, b, EncodeAll(LoopStartInstrs(|body.code|)) + body.code);
          ConcatAssociates(a, EncodeAll(LoopStartInstrs(|body.code|)), body.code);
          ConcatAssociates(b, EncodeAll(LoopStartInstrs(|body.code|)), body.code);
        }
      } else if ops[i].kind != LoopEnd && !OperandTooBig(ops[i]) {
        FrontIsFreeBehind(ops, i + 1, a, b, EncodeAll(OpInstrs(ops[i])));
      }
    }
  }

  lemma {:induction false} FrontIsFreeBehind(ops: seq<Op>, i: nat, a: seq<Byte>, b: seq<Byte>, t: seq<Byte>)
    requires ForwardStarts(ops) && |a| == |b|
    ensures var x, y := CompileFrom(ops, i, a + t).code, CompileFrom(ops, i, b + t).code;
            |x| == |y| >= |a| && x[..|a|] == a && y[..|b|] == b && x[|a|..] == y[|b|..]
    decreases |ops| - i, 1
  {
    hide CompileFrom;
    FrontIsFree(ops, i, a + t, b + t);
    var x, y := CompileFrom(ops, i, a + t).code, CompileFrom(ops, i, b + t).code;
    var n := |a|;
    assert x[..n] == x[..n + |t|][..n] == a;
    assert y[..n] == y[..n + |t|][..n] == b;
    assert x[n..] == x[..n + |t|][n..] + x[n + |t|..];
    assert y[n..] == y[..n + |t|][n..] + y[n + |t|..];
    assert x[..n + |t|][n..] == t == y[..n + |t|][n..];
  }

  /** The patched first instruction loads edi with the address of .bss; the rest stays. */
  lemma PatchGivesImage(ops: seq<Op>, x: Word, y: Word)
    requires ForwardStarts(WithHalt(ops))
    ensures var t := TextWith(ops, x);
            |t| >= 5 && |TextWith(ops, y)| == |t| && t[..1] + Le32(y) + t[5..] == TextWith(ops, y)
    ensures TextWith(ops, y)[..5] == CodeSimulation.LoadEdi(y)
  {
    hide CompileFrom, Encode;
    var push := Encode(PushReg(EDI));
    var a, b := CodeSimulation.LoadEdi(x), CodeSimulation.LoadEdi(y);
    FrontIsFreeBehind(WithHalt(ops), 0, a, b, push);
    var t, u := TextWith(ops, x), TextWith(ops, y);
    assert t[..1] == t[..5][..1] == [0xB8 + EDI];
    assert u == u[..5] + u[5..];
  }

  /** The image meets what the compiler theorem asks for. */
  lemma ImageHoldsProgram(ops: seq<Op>)
    requires ForwardStarts(WithHalt(ops)) && |ElfImage(ops).code| < 0x8000_0000
    ensures CodeSimulation.HoldsProgram(ElfImage(ops), ops, TAPE_SIZE)
  {
    hide CompileFrom, Encode, PageAlign;
    PatchGivesImage(ops, ORIGIN, Bss(|TextWith(ops, ORIGIN)|));
    PageAligns(ORIGIN + |ElfImage(ops).code|);
    WrapsAreIdentity(PageAlign(ORIGIN + |ElfImage(ops).code|));
  }

  // ----- the file -----

  function TextSegment(code: seq<Byte>): Segment {
    Piece(code, |code|, true, Phdr(PT_LOAD, 0, ORIGIN, 0, 0, 0, PF_R + PF_X, PAGE_SIZE))
  }

  function BssSegment(bss: Word): Segment {
    Piece([], TAPE_SIZE, false, Phdr(PT_LOAD, 0, bss, 0, 0, 0, PF_R + PF_W, PAGE_SIZE))
  }

  /** The two segments in some order, and an ELF header that leads to them. */
  ghost predicate TwoSegments(l: Layout, h: Ehdr, image: Image, t: nat) {
    && t < 2 && |l.segs| == 2
    && l.segs[t] == TextSegment(image.code) && l.segs[1 - t] == BssSegment(image.bss)
    && h.entry == ORIGIN == image.origin && h.phoff == EHDR_SIZE && h.phnum == 2 && h.phentsize == PHDR_SIZE
    && 0 <= h.shnum < 0x1_0000 && 0 <= h.shstrndx < 0x1_0000
  }

  lemma HeadersRead(placed: seq<Segment>, table: seq<Section>, h: Ehdr, hi: nat, file: seq<Byte>)
    requires Separate(FilePatches(h, placed, table), 0, hi) && file == WriteAll(FilePatches(h, placed, table))
    requires |placed| == 2 && h.phoff == EHDR_SIZE && h.phnum == 2 && h.phentsize == PHDR_SIZE && 0 <= h.shnum < 0x1_0000 && 0 <= h.shstrndx < 0x1_0000
    ensures HasProgramHeaders(file) && Word32(file, 24) == h.entry && Half16(file, 44) == 2
    ensures PhdrAt(file, 0) == placed[0].header && PhdrAt(file, 1) == placed[1].header
    ensures Word32(file, 28) == 52 && Reads(file, 52, PhdrWords(placed[0].header)) && Reads(file, 84, PhdrWords(placed[1].header))
  {
    hide WriteAll, FilePatches, Separate, EncodeEhdr, HasSlice, Le32s, Word32, Half16, DecodePhdr, ElfIdent, Reads;
    HeadersFound(h, placed, table, hi, 0, |table|);
    HeadersFound(h, placed, table, hi, 1, |table|);
    EhdrFields(file, h);
    EhdrIdent(file, h);
    ReadsOf(file, 52, PhdrWords(placed[0].header));
    ReadsOf(file, 84, PhdrWords(placed[1].header));
    DecodeEncodePhdr(file, EHDR_SIZE, placed[0].header);
    DecodeEncodePhdr(file, EHDR_SIZE + PHDR_SIZE, placed[1].header);
  }

  lemma PlacedHeaders(l: Layout, h: Ehdr, image: Image, t: nat)
    requires l.Sound() && l.Finished() && TwoSegments(l, h, image, t) && 0 < |image.code| < 0x1_0000_0000
    ensures |l.placed| == 2
    ensures var text, bss := l.placed[t].header, l.placed[1 - t].header;
            && text == Phdr(1, text.offset, 0x0804_8000, 0, |image.code|, |image.code|, 5, 4096)
            && bss == Phdr(1, bss.offset, image.bss, 0, 0, 30000, 6, 4096)
  {
    hide AfterSegments, PageAlign, NameTable, Layout.Sound, Layout.Finished;
    FinishedCounts(l);
    WrapsAreIdentity(|image.code|);
  }

  /** What a reader finds of the two segments. */
  ghost predicate TwoHeaders(file: seq<Byte>, image: Image, t: nat) {
    && HasProgramHeaders(file) && Half16(file, 44) == 2 && t < 2 && Word32(file, 24) == image.origin == ORIGIN
    && IsText(file, PhdrAt(file, t), image) && IsBss(PhdrAt(file, 1 - t), image)
    && ORIGIN + |image.code| <= image.bss
  }

  ghost predicate IsText(file: seq<Byte>, h: Phdr, image: Image) {
    && 0 < |image.code| < 0x1_0000_0000 && h == Phdr(1, h.offset, 0x0804_8000, 0, |image.code|, |image.code|, 5, 4096)
    && HasSlice(file, h.offset, image.code)
  }

  ghost predicate IsBss(h: Phdr, image: Image) { h == Phdr(1, h.offset, image.bss, 0, 0, 30000, 6, 4096) }

  /** The bytes of the two program headers, and of the code. */
  ghost predicate PhdrsRead(file: seq<Byte>, image: Image, t: nat, x: nat, y: nat) {
    && t < 2 && ElfIdent(file) && file[42..44] == [32, 0] && Word32(file, 28) == 52 && Half16(file, 44) == 2 && Word32(file, 24) == 0x0804_8000
    && Reads(file, 52 + 32 * t, [1, x, 0x0804_8000, 0, |image.code|, |image.code|, 5, 4096])
    && Reads(file, 84 - 32 * t, [1, y, image.bss, 0, 0, 30000, 6, 4096])
    && x % 4096 == 0 && HasSlice(file, x, image.code)
  }

  lemma HeadersOfImage(l: Layout, h: Ehdr, image: Image, t: nat, file: seq<Byte>)
    requires l.Sound() && l.Finished() && l.Ample() && l.Roomy() && TwoSegments(l, h, image, t)
    requires file == WriteAll(FilePatches(h, l.placed, l.table))
    requires 0 < |image.code| < 0x1_0000_0000 && ORIGIN + |image.code| <= image.bss
    ensures TwoHeaders(file, image, t) && PhdrsRead(file, image, t, l.placed[t].header.offset, l.placed[1 - t].header.offset)
  {
    hide WriteAll, FilePatches, Separate, NameTable, NamesOffset, Layout.Sound, Layout.Finished, Layout.Ample, Layout.Roomy, Word32, Half16,
      DecodePhdr, PhdrAt, HasSlice, ElfIdent, Reads;
    PlacedHeaders(l, h, image, t);
    FileApart(h, l);
    HeadersRead(l.placed, l.table, h, l.NamesAt() + |NameTable(l.names)|, file);
    SegmentFound(h, l, t);
  }

  lemma TextResident(file: seq<Byte>, image: Image, t: nat, i: nat)
    requires TwoHeaders(file, image, t) && i < |image.code|
    ensures Resident(file, image.origin + i, image.code[i], PF_X)
  {
    hide Word32, Half16, PhdrAt, HasSlice;
    SliceEnds(file, PhdrAt(file, t).offset, image.code);
    SliceElement(file, PhdrAt(file, t).offset, image.code, i);
    assert Maps(PhdrAt(file, t), ORIGIN + i);
  }

  lemma BssResident(file: seq<Byte>, image: Image, t: nat, addr: int)
    requires TwoHeaders(file, image, t) && image.bss <= addr < image.bss + TAPE_SIZE
    ensures Resident(file, addr, 0, PF_W)
  {
    hide Word32, Half16, PhdrAt, HasSlice;
    assert Maps(PhdrAt(file, 1 - t), addr);
  }

  lemma TwoHeadersStart(file: seq<Byte>, image: Image, t: nat)
    requires TwoHeaders(file, image, t)
    ensures Starts(file, image, TAPE_SIZE)
  {
    hide Word32, Half16, PhdrAt;
    TwoFound(file, t);
  }

  /** Text and .bss are disjoint, and a loader finds both. */
  lemma LoadsImage(l: Layout, h: Ehdr, image: Image, t: nat, file: seq<Byte>)
    requires l.Sound() && l.Finished() && l.Ample() && l.Roomy() && TwoSegments(l, h, image, t)
    requires file == WriteAll(FilePatches(h, l.placed, l.table))
    requires 0 < |image.code| < 0x1_0000_0000 && ORIGIN + |image.code| <= image.bss
    ensures Loads(file, image, TAPE_SIZE) && Starts(file, image, TAPE_SIZE)
  {
    hide Resident, Starts, TwoHeaders, WriteAll, FilePatches, TwoSegments, Layout.Sound, Layout.Finished, Layout.Ample, Layout.Roomy;
    HeadersOfImage(l, h, image, t, file);
    TwoHeadersStart(file, image, t);
    HeadersLead(file, image, t);
    forall i | 0 <= i < |image.code| ensures Resident(file, image.origin + i, image.code[i], PF_X) {
      TextResident(file, image, t, i);
    }
    forall addr | image.bss <= addr < image.bss + TAPE_SIZE ensures Resident(file, addr, 0, PF_W) {
      BssResident(file, image, t, addr);
    }
  }

  lemma HeadersLead(file: seq<Byte>, image: Image, t: nat)
    requires TwoHeaders(file, image, t)
    ensures |file| >= EHDR_SIZE && Word32(file, 24) == image.origin
  {
    hide Word32, Half16, PhdrAt;
  }

  lemma TwoFound(file: seq<Byte>, t: nat)
    requires HasProgramHeaders(file) && Half16(file, 44) == 2 && t < 2
    requires PhdrAt(file, t).kind == PhdrAt(file, 1 - t).kind == PT_LOAD
    requires PhdrAt(file, t).flags == PF_R + PF_X && PhdrAt(file, 1 - t).flags == PF_R + PF_W
    ensures FindSegment(file, PF_X, 0) == t && FindSegment(file, PF_W, 0) == 1 - t
  {
    hide PhdrAt, Half16;
    assert FindSegment(file, PF_X, 1) == if t == 1 then 1 else FindSegment(file, PF_X, 2);
    assert FindSegment(file, PF_W, 1) == if t == 0 then 1 else FindSegment(file, PF_W, 2);
  }

  // ----- writing it -----

  const TEXT := ".text"
  const BSS := ".bss"

  function TextSection(): Section {
    Piece([], 0, false, Shdr(0, SHT_PROGBITS, SHF_ALLOC + SHF_EXECINSTR, ORIGIN, 0, 0, 0, 0, PAGE_SIZE, 0))
  }

  function BssSection(bss: Word): Section {
    Piece([], 0, false, Shdr(0, SHT_NOBITS, SHF_ALLOC + SHF_WRITE, bss, 0, 0, 0, 0, PAGE_SIZE, 0))
  }

  /** mov edi, ORIGIN, and the program behind it. */
  method CompileText(ops: seq<Op>) returns (code: seq<Byte>)
    requires ForwardStarts(WithHalt(ops))
    ensures code == TextWith(ops, ORIGIN)
  {
    hide CompileFrom, Encode, Le32;
    var buffer := new CodeBuffer();
    buffer.Push([0xB8 + EDI]);
    buffer.Push(Le32(ORIGIN));
    assert buffer.data == CodeSimulation.LoadEdi(ORIGIN);
    assert forall k :: 0 <= k < |ops| ==> WithHalt(ops)[k] == ops[k];
    var ok := buffer.CompileProgram(ops);
    code := buffer.data;
  }

  /** The context holds exactly these segments and sections, each set once. */
  ghost predicate Stage(ctx: ElfContext, segs: map<string, Segment>, secs: map<string, Section>)
    reads ctx, ctx.Repr()
  {
    && ctx.Valid() && ctx.segments.Contents() == segs && ctx.sections.Contents() == secs
    && ctx.segments.count == ctx.segments.nnodes && ctx.sections.count == ctx.sections.nnodes
  }

  method AddText(ctx: ElfContext) returns (text: Node<Segment>)
    requires Stage(ctx, map[], map[])
    modifies ctx.Repr()
    ensures Stage(ctx, TextOnly(None), map[TEXT := TextSection()])
    ensures fresh(ctx.Repr() - old(ctx.Repr())) && ctx.ehdr == old(ctx.ehdr)
    ensures text in ctx.segments.Nodes() && text in ctx.Repr() && text.key == TEXT
  {
    hide HashTable.Valid, HashTable.Contents;
    text := ctx.GenProgramHeader(TEXT, Phdr(PT_LOAD, 0, ORIGIN, 0, 0, 0, PF_R + PF_X, 0));
    ctx.GenSectionHeader(TEXT, Shdr(0, SHT_PROGBITS, SHF_ALLOC + SHF_EXECINSTR, ORIGIN, 0, 0, 0, 0, 0, 0));
  }

  function TextOnly(code: Option<seq<Byte>>): (m: map<string, Segment>)
    ensures m.Keys == {TEXT}
  {
    map[TEXT := if code.Some? then TextSegment(code.value) else TextSegment([]).(stored := false)]
  }

  function WithCode(segs: map<string, Segment>, code: seq<Byte>): map<string, Segment>
    requires TEXT in segs
  {
    segs[TEXT := segs[TEXT].(data := code, length := |code|, stored := true)]
  }

  lemma SegmentsBecome(ops: seq<Op>, code: seq<Byte>, base: Word)
    requires ForwardStarts(WithHalt(ops)) && code == TextWith(ops, ORIGIN) && base == Bss(|code|)
    ensures WithCode(TextOnly(None), code) == TextOnly(Some(code)) && |code| >= 5
    ensures WithCode(TextOnly(Some(code))[BSS := BssSegment(base)], code[..1] + Le32(base) + code[5..]) == ElfSegments(ops)
    ensures map[TEXT := TextSection()][BSS := BssSection(base)] == ElfSections(ops)
  {
    hide TextWith, Bss, Le32;
    PatchGivesImage(ops, ORIGIN, base);
  }

  /** The code goes into the segment itself, through the pointer kept from its creation. */
  method SetCode(ctx: ElfContext, text: Node<Segment>, code: seq<Byte>, ghost segs: map<string, Segment>, ghost secs: map<string, Section>)
    requires Stage(ctx, segs, secs) && text in ctx.segments.Nodes() && text.key == TEXT
    modifies text`value
    ensures TEXT in segs && Stage(ctx, WithCode(segs, code), secs) && ctx.Repr() == old(ctx.Repr())
  {
    hide HashTable.Valid, HashTable.Contents;
    ctx.segments.NodeHolds(text);
    ctx.UpdateSegment(text, text.value.(data := code, length := |code|, stored := true));
  }

  /** .bss begins on the page behind .text; it has a length but no bytes. */
  method AddBss(ctx: ElfContext, base: Word, ghost segs: map<string, Segment>, ghost secs: map<string, Section>)
    requires Stage(ctx, segs, secs) && BSS !in segs
    modifies ctx.Repr()
    ensures Stage(ctx, segs[BSS := BssSegment(base)], secs)
    ensures fresh(ctx.Repr() - old(ctx.Repr())) && old(ctx.segments.Nodes()) <= ctx.segments.Nodes() && ctx.ehdr == old(ctx.ehdr)
  {
    hide HashTable.Valid, HashTable.Contents, Bss;
    var bss := ctx.GenProgramHeader(BSS, Phdr(PT_LOAD, 0, base, 0, 0, 0, PF_R + PF_W, 0));
    ctx.UpdateSegment(bss, bss.value.(length := TAPE_SIZE));
  }

  method AddBssSection(ctx: ElfContext, base: Word, ghost segs: map<string, Segment>, ghost secs: map<string, Section>)
    requires Stage(ctx, segs, secs) && BSS !in secs
    modifies ctx.Repr()
    ensures Stage(ctx, segs, secs[BSS := BssSection(base)])
    ensures fresh(ctx.Repr() - old(ctx.Repr())) && old(ctx.segments.Nodes()) <= ctx.segments.Nodes() && ctx.ehdr == old(ctx.ehdr)
  {
    hide HashTable.Valid, HashTable.Contents, Bss;
    ctx.GenSectionHeader(BSS, Shdr(0, SHT_NOBITS, SHF_ALLOC + SHF_WRITE, base, 0, 0, 0, 0, 0, 0));
  }

  method SetEntry(ctx: ElfContext, entry: Word, ghost segs: map<string, Segment>, ghost secs: map<string, Section>)
    requires Stage(ctx, segs, secs)
    modifies ctx`ehdr
    ensures Stage(ctx, segs, secs) && ctx.ehdr == old(ctx.ehdr).(entry := entry) && ctx.Repr() == old(ctx.Repr())
  {
    hide HashTable.Valid, HashTable.Contents;
    ctx.ehdr := ctx.ehdr.(entry := entry);
  }

  function ElfSegments(ops: seq<Op>): (m: map<string, Segment>)
    requires ForwardStarts(WithHalt(ops))
    ensures m.Keys == {TEXT, BSS} && |m| == 2
  {
    map[TEXT := TextSegment(ElfImage(ops).code), BSS := BssSegment(ElfImage(ops).bss)]
  }

  function ElfSections(ops: seq<Op>): (m: map<string, Section>)
    requires ForwardStarts(WithHalt(ops))
    ensures m.Keys == {TEXT, BSS}
  {
    map[TEXT := TextSection(), BSS := BssSection(ElfImage(ops).bss)]
  }

  method NewText(code: seq<Byte>) returns (ctx: ElfContext, text: Node<Segment>)
    ensures fresh(ctx.Repr()) && Stage(ctx, WithCode(TextOnly(None), code), map[TEXT := TextSection()])
    ensures text in ctx.segments.Nodes() && text in ctx.Repr() && text.key == TEXT && ctx.ehdr == NEW_EHDR.(entry := ORIGIN)
  {
    hide Stage, ElfContext.Repr, WithCode, TextSection;
    ctx := NewContext();
    ghost var r := ctx.Repr();
    label Made:
    text := AddText(ctx);
    forall x | x in ctx.Repr() ensures fresh(x) {
      assert x in r || fresh@Made(x);
    }
    SetEntry(ctx, ORIGIN, TextOnly(None), map[TEXT := TextSection()]);
    SetCode(ctx, text, code, TextOnly(None), map[TEXT := TextSection()]);
  }

  method AddMemory(ctx: ElfContext, text: Node<Segment>, code: seq<Byte>, base: Word, ghost segs: map<string, Segment>, ghost secs: map<string, Section>)
    requires Stage(ctx, segs, secs) && text in ctx.segments.Nodes() && text in ctx.Repr() && text.key == TEXT && TEXT in segs
    requires BSS !in segs && BSS !in secs
    modifies ctx.Repr()
    ensures Stage(ctx, WithCode(segs[BSS := BssSegment(base)], code), secs[BSS := BssSection(base)])
    ensures fresh(ctx.Repr() - old(ctx.Repr())) && ctx.ehdr == old(ctx.ehdr)
  {
    hide Stage, ElfContext.Repr, WithCode, BssSegment, BssSection;
    AddBss(ctx, base, segs, secs);
    label Added:
    AddBssSection(ctx, base, segs[BSS := BssSegment(base)], secs);
    SetCode(ctx, text, code, segs[BSS := BssSegment(base)], secs[BSS := BssSection(base)]);
    ghost var r := old(ctx.Repr());
    forall x | x in ctx.Repr() && x !in r ensures fresh(x) {
      assert x in old@Added(ctx.Repr()) - old(ctx.Repr()) || fresh@Added(x);
    }
    assert fresh(ctx.Repr() - r);
  }

  /** .text with the compiled program, .bss, and the first instruction patched. */
  method BuildContext(ops: seq<Op>) returns (ctx: ElfContext)
    requires ForwardStarts(WithHalt(ops))
    ensures fresh(ctx.Repr()) && Stage(ctx, ElfSegments(ops), ElfSections(ops)) && ctx.ehdr == NEW_EHDR.(entry := ORIGIN)
  {
    hide Stage, ElfContext.Repr, TextWith, Bss, Le32, TextOnly, WithCode, BssSegment, TextSection, BssSection, ElfSegments, ElfSections;
    var code := CompileText(ops);
    var base := Bss(|code|);
    SegmentsBecome(ops, code, base);
    var text;
    label Compiled:
    ctx, text := NewText(code);
    label Made:
    AddMemory(ctx, text, code[..1] + Le32(base) + code[5..], base, TextOnly(Some(code)), map[TEXT := TextSection()]);
    forall x | x in ctx.Repr() ensures fresh(x) {
      assert x in old@Made(ctx.Repr()) || fresh@Made(x);
      assert fresh@Compiled(x);
    }
  }

  method NewContext() returns (ctx: ElfContext)
    ensures fresh(ctx) && fresh(ctx.Repr()) && Stage(ctx, map[], map[]) && ctx.ehdr == NEW_EHDR
  {
    hide HashTable.Valid, HashTable.Contents;
    ctx := new ElfContext();
  }

  /** A two-element order. */
  lemma OrderOfTwo(order: seq<string>) returns (t: nat)
    requires NoDup(order) && forall key :: key in order <==> key == TEXT || key == BSS
    ensures |order| == 2 && t < 2 && order[t] == TEXT && order[1 - t] == BSS
  {
    assert TEXT in order && BSS in order;
    t :| 0 <= t < |order| && order[t] == TEXT;
    var b: nat :| b < |order| && order[b] == BSS;
    DistinctCount(order);
    assert (set key | key in order) == {TEXT, BSS};
  }

  /** The tables of write_elf_file meet the conditions of the layout theorems. */
  lemma ElfIsSound(l: Layout, ops: seq<Op>, t: nat)
    requires ForwardStarts(WithHalt(ops)) && |ElfImage(ops).code| < 0x8000_0000
    requires |l.segs| == 2 && t < 2 && |l.names| == |l.secs| && NoDup(l.names)
    requires forall key :: key in l.names <==> key == TEXT || key == BSS
    requires l.segs[t] == TextSegment(ElfImage(ops).code) && l.segs[1 - t] == BssSegment(ElfImage(ops).bss)
    requires forall i :: 0 <= i < |l.secs| ==> l.secs[i].length == 0 && !l.secs[i].stored
    ensures l.Sound() && l.Ample() && l.Roomy()
  {
    hide TextWith, Bss, NameTable, AfterSections, AfterSegments, PageAlign;
    var code := ElfImage(ops).code;
    PatchGivesImage(ops, ORIGIN, ElfImage(ops).bss);
    var n := OrderOfTwo(l.names);
    assert l.secs == [l.secs[0], l.secs[1]];
    assert l.segs == [l.segs[0], l.segs[1]];
    DataFreeKeepsOffset(l.secs, l.DataEnd());
    DataFreeIsAmple(l);
    DataFreeBegins(l);
    TwoNames(l.names, n);
    TwoSegmentsEnd(l.segs, t, FirstOffset(2));
    FirstOffsetPaged(2);
    PageAligns(FirstOffset(2) + |code|);
    assert FirstOffset(2) == PAGE_SIZE;
  }

  lemma TwoNames(names: seq<string>, t: nat)
    requires |names| == 2 && t < 2 && names[t] == TEXT && names[1 - t] == BSS
    ensures |NameTable(names)| == 22
  {
    assert names[..1] == [names[0]] && names[..1][..0] == [];
    assert |NameTable([])| == 11;
    assert |NameTable(names[..1])| == 11 + |CBytes(names[0])|;
  }

  lemma TwoSegmentsEnd(segs: seq<Segment>, t: nat, start: nat)
    requires |segs| == 2 && t < 2 && InFile(segs[t]) && !InFile(segs[1 - t])
    ensures AfterSegments(segs, start) == PageAlign(start + segs[t].length)
  {
    hide PageAlign;
    assert segs[..1] == [segs[0]] && segs[..1][..0] == [];
    assert AfterSegments(segs[..1], start) == AfterSegment(segs[0], start);
  }

  lemma ImageFits(ops: seq<Op>)
    requires ForwardStarts(WithHalt(ops)) && |ElfImage(ops).code| < 0x8000_0000
    ensures ElfImage(ops).origin == ORIGIN && 0 < |ElfImage(ops).code| && ORIGIN + |ElfImage(ops).code| <= ElfImage(ops).bss
  {
    hide TextWith, PageAlign, Wrap32;
    PatchGivesImage(ops, ORIGIN, ElfImage(ops).bss);
    PageAligns(ORIGIN + |ElfImage(ops).code|);
    WrapsAreIdentity(PageAlign(ORIGIN + |ElfImage(ops).code|));
  }

  lemma ListsRead(ops: seq<Op>, l: Layout, order: seq<string>) returns (t: nat)
    requires ForwardStarts(WithHalt(ops)) && |ElfImage(ops).code| < 0x8000_0000
    requires ListsTable(order, l.segs, ElfSegments(ops)) && ListsTable(l.names, l.secs, ElfSections(ops))
    ensures l.Sound() && l.Ample() && l.Roomy() && |l.segs| == |order| == 2 && t < 2 && order[t] == TEXT && order[1 - t] == BSS
    ensures l.segs[t] == TextSegment(ElfImage(ops).code) && l.segs[1 - t] == BssSegment(ElfImage(ops).bss)
  {
    hide ElfImage, Layout.Sound, Layout.Ample, Layout.Roomy;
    t := OrderOfTwo(order);
    ElfIsSound(l, ops, t);
  }

  // ----- what the file is, in numbers -----

  /** Some section header has this name, and behind sh_name these words: sh_type, sh_flags, sh_addr, sh_offset,
      sh_size, sh_link, sh_info, sh_addralign and sh_entsize. */
  ghost predicate SectionReads(file: seq<Byte>, name: string, words: seq<int>)
    requires HasNames(file)
  {
    exists k: nat :: 0 < k < Half16(file, 48) && SectionAt(file, k, name, words)
  }

  ghost predicate SectionAt(file: seq<Byte>, k: nat, name: string, words: seq<int>)
    requires HasNames(file)
  {
    HasSection(file, k) && StringAt(file, NameAt(file, k)) == name && Reads(file, Word32(file, 32) + 40 * k + 4, words)
  }

  /** The code stands at `x`, .bss would stand at `y`, and the names, `z` bytes, where e_shstrndx leads. */
  ghost predicate Described(file: seq<Byte>, image: Image, t: nat, x: nat, y: nat, z: nat) {
    && PhdrsRead(file, image, t, x, y) && HasNames(file) && Half16(file, 48) == 4
    && SectionReads(file, ".text", [1, 6, 0x0804_8000, x, |image.code|, 0, 0, 4096, 0])
    && SectionReads(file, ".bss", [8, 3, image.bss, y, 30000, 0, 0, 4096, 0])
    && SectionReads(file, ".shstrtab", [3, 0x20, 0, OffsetField(file, Half16(file, 50)), z, 0, 0, 4096, 0])
  }

  ghost predicate Describes(file: seq<Byte>, image: Image) {
    exists t: nat, x: nat, y: nat, z: nat :: Described(file, image, t, x, y, z)
  }

  /** The file of a program: a loader finds the image, a reader of its section headers the three names, and all
      fields that matter have the numbers of the System V ABI. */
  ghost predicate IsElfOf(file: seq<Byte>, ops: seq<Op>)
    requires ForwardStarts(WithHalt(ops))
  {
    && Loads(file, ElfImage(ops), TAPE_SIZE) && Starts(file, ElfImage(ops), TAPE_SIZE)
    && HasSections(file, {".text", ".bss", ".shstrtab"}) && Describes(file, ElfImage(ops))
  }

  /** Everything gen_elf_file promises, put together. */
  lemma WrittenFileLoads(ops: seq<Op>, l: Layout, order: seq<string>, idx: nat, h: Ehdr)
    requires ForwardStarts(WithHalt(ops)) && |ElfImage(ops).code| < 0x8000_0000
    requires l.Finished() && ListsTable(order, l.segs, ElfSegments(ops)) && ListsTable(l.names, l.secs, ElfSections(ops))
    requires ListsTable(order, l.placed, l.segMap)
    requires h == FinalHeader(NEW_EHDR.(entry := ORIGIN), 2, |l.order|, idx) && 0 < idx <= |l.order| && l.order[idx - 1] == SHSTRTAB
    ensures IsElfOf(WriteAll(FilePatches(h, l.placed, l.table)), ops)
  {
    hide ElfImage, Loads, Starts, WriteAll, FilePatches, Layout.Finished, Layout.Sound, Layout.Ample, Layout.Roomy, ListsTable, ElfSegments,
      ElfSections, NamesSections, Described;
    var t := ListsRead(ops, l, order);
    var file := WriteAll(FilePatches(h, l.placed, l.table));
    ImageFits(ops);
    LoadsImage(l, h, ElfImage(ops), t, file);
    ThreeNames(ops, l);
    NamesInFile(NEW_EHDR.(entry := ORIGIN), l, idx, file);
    FileDescribed(ops, l, order, idx, t, file);
  }

  lemma FileDescribed(ops: seq<Op>, l: Layout, order: seq<string>, idx: nat, t: nat, file: seq<Byte>)
    requires ForwardStarts(WithHalt(ops)) && 0 < |ElfImage(ops).code| < 0x8000_0000
    requires l.Sound() && l.Finished() && l.Ample() && l.Roomy() && FileOf(NEW_EHDR.(entry := ORIGIN), l, idx, file)
    requires |l.order| == 3 && (set n | n in l.order) == {TEXT, BSS, SHSTRTAB} && NamesSections(file, l.order)
    requires |order| == |l.segs| == 2 && t < 2 && order[t] == TEXT && order[1 - t] == BSS
    requires l.segs[t] == TextSegment(ElfImage(ops).code) && l.segs[1 - t] == BssSegment(ElfImage(ops).bss)
    requires ListsTable(order, l.placed, l.segMap) && ListsTable(l.names, l.secs, ElfSections(ops))
    requires ORIGIN + |ElfImage(ops).code| <= ElfImage(ops).bss && ElfImage(ops).origin == ORIGIN
    ensures Describes(file, ElfImage(ops))
  {
    hide ElfImage, WriteAll, FilePatches, Layout.Finished, Layout.Sound, Layout.Ample, Layout.Roomy, ListsTable, ElfSections, NamesSections,
      PhdrsRead, SectionReads, HasNames, NamedAt, OffsetField, Half16, HasSection, FileOf, TextSegment, BssSegment;
    var image := ElfImage(ops);
    PhdrsOfImage(ops, l, idx, t, file);
    NamesCounted(file, l.order);
    var x, y := l.placed[t].header.offset, l.placed[1 - t].header.offset;
    TextSectionReads(ops, l, order, idx, t, file);
    BssSectionReads(ops, l, order, idx, 1 - t, file);
    var z := NamesSectionReads(l, idx, file);
    assert Described(file, image, t, x, y, z);
  }

  lemma PhdrsOfImage(ops: seq<Op>, l: Layout, idx: nat, t: nat, file: seq<Byte>)
    requires ForwardStarts(WithHalt(ops)) && 0 < |ElfImage(ops).code| < 0x8000_0000
    requires l.Sound() && l.Finished() && l.Ample() && l.Roomy() && FileOf(NEW_EHDR.(entry := ORIGIN), l, idx, file) && |l.order| == 3
    requires |l.segs| == 2 && t < 2 && l.segs[t] == TextSegment(ElfImage(ops).code) && l.segs[1 - t] == BssSegment(ElfImage(ops).bss)
    requires ORIGIN + |ElfImage(ops).code| <= ElfImage(ops).bss && ElfImage(ops).origin == ORIGIN
    ensures |l.placed| == 2 && PhdrsRead(file, ElfImage(ops), t, l.placed[t].header.offset, l.placed[1 - t].header.offset)
  {
    hide ElfImage, WriteAll, FilePatches, FinalHeader, Layout.Finished, Layout.Sound, Layout.Ample, Layout.Roomy, PhdrsRead, TwoHeaders,
      TwoSegments, TextSegment, BssSegment, Half16, Word32;
    FinishedCounts(l);
    HeaderOfTwo(l, ElfImage(ops), t, idx);
    HeadersOfImage(l, FinalHeader(NEW_EHDR.(entry := ORIGIN), 2, 3, idx), ElfImage(ops), t, file);
  }

  lemma HeaderOfTwo(l: Layout, image: Image, t: nat, idx: nat)
    requires |l.segs| == 2 && t < 2 && l.segs[t] == TextSegment(image.code) && l.segs[1 - t] == BssSegment(image.bss) && image.origin == ORIGIN
    ensures TwoSegments(l, FinalHeader(NEW_EHDR.(entry := ORIGIN), 2, 3, idx), image, t)
  {
    hide TextSegment, BssSegment;
  }

  lemma NamesCounted(file: seq<Byte>, order: seq<string>)
    requires NamesSections(file, order)
    ensures HasNames(file) && Half16(file, 48) == |order| + 1
  {
    hide ElfIdent, HasSection, NamedAt, Half16, Reads;
  }

  /** The section header of .text, or of .bss, describes the segment of that name. */
  lemma SegmentRow(ops: seq<Op>, l: Layout, order: seq<string>, u: nat) returns (j: nat)
    requires ForwardStarts(WithHalt(ops)) && l.Sound() && l.Finished() && |order| == |l.segs| == 2 && u < 2 && order[u] in {TEXT, BSS}
    requires (set n | n in l.order) == {TEXT, BSS, SHSTRTAB} && l.segs[u].length < 0x1_0000_0000
    requires ListsTable(order, l.placed, l.segMap) && ListsTable(l.names, l.secs, ElfSections(ops))
    ensures j < |l.order| == |l.table| && l.order[j] == order[u] && |l.placed| == 2
    ensures var header := l.table[j].header;
            header == ElfSections(ops)[order[u]].header.(name := header.name, size := l.segs[u].length, offset := l.placed[u].header.offset,
                                                         addr := l.segs[u].header.vaddr)
  {
    hide ElfImage, Layout.Sound, Layout.Finished, SegmentsPlaced, Wrap32, ElfSections;
    assert order[u] in l.order;
    j :| 0 <= j < |l.order| && l.order[j] == order[u];
    FinishedCounts(l);
    assert order[u] in l.segMap && l.segMap[order[u]] == l.placed[u];
    PlacedPart(l, u);
    WrapsAreIdentity(l.segs[u].length);
    var i := SharedRow(l, j);
    assert l.secs[i] == ElfSections(ops)[l.names[i]];
  }

  lemma TextSectionReads(ops: seq<Op>, l: Layout, order: seq<string>, idx: nat, t: nat, file: seq<Byte>)
    requires ForwardStarts(WithHalt(ops)) && |ElfImage(ops).code| < 0x8000_0000 && t < |l.segs| && l.segs[t] == TextSegment(ElfImage(ops).code)
    requires l.Sound() && l.Finished() && l.Ample() && l.Roomy() && FileOf(NEW_EHDR.(entry := ORIGIN), l, idx, file)
    requires (set n | n in l.order) == {TEXT, BSS, SHSTRTAB} && NamesSections(file, l.order) && HasNames(file)
    requires |order| == |l.segs| == 2 && order[t] == TEXT && ListsTable(order, l.placed, l.segMap) && ListsTable(l.names, l.secs, ElfSections(ops))
    ensures |l.placed| == 2
    ensures SectionReads(file, ".text", [1, 6, 0x0804_8000, l.placed[t].header.offset, |ElfImage(ops).code|, 0, 0, 4096, 0])
  {
    hide ElfImage, WriteAll, FilePatches, Layout.Sound, Layout.Finished, Layout.Ample, Layout.Roomy, NamesSections, NamedAt, HasNames, SectionAt,
      ElfIdent, Half16, Word32, Reads, ListsTable;
    var j := SegmentRow(ops, l, order, t);
    RowReads(l, idx, j, file);
    NamesCounted(file, l.order);
    assert SectionAt(file, j + 1, ".text", ShdrWords(l.table[j].header)[1..]);
  }

  lemma BssSectionReads(ops: seq<Op>, l: Layout, order: seq<string>, idx: nat, u: nat, file: seq<Byte>)
    requires ForwardStarts(WithHalt(ops)) && u < |l.segs| && l.segs[u] == BssSegment(ElfImage(ops).bss)
    requires l.Sound() && l.Finished() && l.Ample() && l.Roomy() && FileOf(NEW_EHDR.(entry := ORIGIN), l, idx, file)
    requires (set n | n in l.order) == {TEXT, BSS, SHSTRTAB} && NamesSections(file, l.order) && HasNames(file)
    requires |order| == |l.segs| == 2 && order[u] == BSS && ListsTable(order, l.placed, l.segMap) && ListsTable(l.names, l.secs, ElfSections(ops))
    ensures |l.placed| == 2
    ensures SectionReads(file, ".bss", [8, 3, ElfImage(ops).bss, l.placed[u].header.offset, 30000, 0, 0, 4096, 0])
  {
    hide ElfImage, WriteAll, FilePatches, Layout.Sound, Layout.Finished, Layout.Ample, Layout.Roomy, NamesSections, NamedAt, HasNames, SectionAt,
      ElfIdent, Half16, Word32, Reads, ListsTable;
    var j := SegmentRow(ops, l, order, u);
    RowReads(l, idx, j, file);
    NamesCounted(file, l.order);
    assert SectionAt(file, j + 1, ".bss", ShdrWords(l.table[j].header)[1..]);
  }

  lemma PlacedPart(l: Layout, u: nat)
    requires l.Sound() && l.Finished() && u < |l.segs|
    ensures |l.placed| == |l.segs|
    ensures l.placed[u].length == l.segs[u].length && l.placed[u].header.vaddr == l.segs[u].header.vaddr
  {
    hide AfterSegments, PageAlign, NameTable, Layout.Sound, Layout.Finished;
    FinishedCounts(l);
  }

  lemma RowReads(l: Layout, idx: nat, j: nat, file: seq<Byte>)
    requires l.Sound() && l.Finished() && l.Ample() && l.Roomy() && FileOf(NEW_EHDR.(entry := ORIGIN), l, idx, file)
    requires NamesSections(file, l.order) && HasNames(file) && j < |l.order| == |l.table| && EightBit(l.order[j])
    ensures SectionAt(file, j + 1, l.order[j], ShdrWords(l.table[j].header)[1..])
  {
    hide WriteAll, FilePatches, Layout.Sound, Layout.Finished, Layout.Ample, Layout.Roomy, ElfIdent, Half16, Word32, Reads, HasSlice, StringAt,
      CBytes, NameAt;
    RowInFile(NEW_EHDR.(entry := ORIGIN), l, idx, j, file);
    assert NamedAt(file, j + 1, l.order[j]);
    ReadsTail(file, Word32(file, 32) + 40 * (j + 1), ShdrWords(l.table[j].header));
  }

  lemma ReadsTail(file: seq<Byte>, at: nat, words: seq<int>)
    requires Reads(file, at, words) && words != []
    ensures Reads(file, at + 4, words[1..])
  {
    hide HoldsNumber;
    forall i | 0 <= i < |words[1..]| ensures HoldsNumber(file, at + 4 + 4 * i, words[1..][i]) {
      assert HoldsNumber(file, at + 4 * (i + 1), words[i + 1]);
    }
  }

  lemma NamesSectionReads(l: Layout, idx: nat, file: seq<Byte>) returns (z: nat)
    requires l.Sound() && l.Finished() && l.Ample() && l.Roomy() && FileOf(NEW_EHDR.(entry := ORIGIN), l, idx, file)
    requires NamesSections(file, l.order) && HasNames(file)
    ensures SectionReads(file, ".shstrtab", [3, 0x20, 0, OffsetField(file, Half16(file, 50)), z, 0, 0, 4096, 0])
  {
    hide WriteAll, FilePatches, Layout.Sound, Layout.Finished, Layout.Ample, Layout.Roomy, NamesSections, NamedAt, HasNames, SectionAt,
      ElfIdent, Half16, Word32, Reads, NameTable, Wrap32, HasSection, OffsetField;
    FinishedCounts(l);
    var j := idx - 1;
    RowInFile(NEW_EHDR.(entry := ORIGIN), l, idx, j, file);
    RowReads(l, idx, j, file);
    var _ := SectionOf(l, j);
    var header := l.table[j].header;
    z := header.size;
    assert ShdrWords(header)[1..] == [3, 0x20, 0, header.offset, z, 0, 0, 4096, 0];
    NamesCounted(file, l.order);
    assert SectionAt(file, idx, ".shstrtab", ShdrWords(header)[1..]);
  }

  lemma ThreeNames(ops: seq<Op>, l: Layout)
    requires ForwardStarts(WithHalt(ops)) && l.Sound() && l.Finished() && ListsTable(l.names, l.secs, ElfSections(ops))
    ensures NoDup(l.order) && {TEXT, BSS, SHSTRTAB} == (set n | n in l.order) && |l.order| == 3
  {
    hide ElfImage, Layout.Sound, LaidOut;
    FinishedCounts(l);
    DistinctCount(l.order);
  }

  lemma OnlyTwoNames(ops: seq<Op>, l: Layout)
    requires ForwardStarts(WithHalt(ops)) && ListsTable(l.names, l.secs, ElfSections(ops))
    ensures SHSTRTAB !in l.names
  {
    hide ElfImage;
  }

  /** The tables of a finished stage, as lists. */
  lemma StageLists(ctx: ElfContext, segs: map<string, Segment>, secs: map<string, Section>)
    requires Stage(ctx, segs, secs)
    ensures ctx.Valid() && ctx.segments.count == ctx.segments.nnodes == |ctx.segments.Order()| == |segs|
    ensures ctx.sections.count == ctx.sections.nnodes
    ensures ListsTable(ctx.segments.Order(), ctx.segments.Values(), segs)
    ensures ListsTable(ctx.sections.Order(), ctx.sections.Values(), secs)
  {
    hide HashTable.Valid, HashTable.Contents, HashTable.Order, HashTable.Values;
    ctx.segments.ValuesAreContents();
    ctx.sections.ValuesAreContents();
    ctx.segments.OrderListsTheKeys();
    ctx.sections.OrderListsTheKeys();
  }

  /** write_elf_file. The result of the compiler is ignored. */
  method WriteElfFile(ops: seq<Op>, file: OutFile)
    requires ForwardStarts(WithHalt(ops)) && file.bytes == [] && file.pos == 0
    modifies file
    ensures |ElfImage(ops).code| < 0x8000_0000 ==> IsElfOf(file.bytes, ops)
  {
    hide ElfImage, IsElfOf, ElfSegments, ElfSections, Stage;
    var ctx := BuildContext(ops);
    WriteStage(ctx, ops, file);
  }

  /** gen_elf_file, for the context of a program. */
  method WriteStage(ctx: ElfContext, ops: seq<Op>, file: OutFile)
    requires ForwardStarts(WithHalt(ops)) && Stage(ctx, ElfSegments(ops), ElfSections(ops)) && ctx.ehdr == NEW_EHDR.(entry := ORIGIN)
    requires file !in ctx.Repr() && file.bytes == [] && file.pos == 0
    modifies ctx.Repr(), file
    ensures |ElfImage(ops).code| < 0x8000_0000 ==> IsElfOf(file.bytes, ops)
  {
    hide HashTable.Valid, HashTable.Contents, HashTable.Order, HashTable.Values, ElfImage, IsElfOf, WriteAll, FilePatches,
      Layout.Finished, FinalHeader, ElfSegments, ElfSections, Stage, ListsTable;
    StageLists(ctx, ElfSegments(ops), ElfSections(ops));
    ghost var order := ctx.segments.Order();
    ghost var idx, l := ctx.GenElfFile(file);
    FinishedFile(ops, l, order, ctx.sections.count, idx, ctx.ehdr);
  }

  lemma FinishedFile(ops: seq<Op>, l: Layout, order: seq<string>, count: int, idx: nat, h: Ehdr)
    requires ForwardStarts(WithHalt(ops)) && l.Finished()
    requires ListsTable(order, l.segs, ElfSegments(ops)) && ListsTable(l.names, l.secs, ElfSections(ops))
    requires ListsTable(order, l.placed, l.segMap)
    requires count - |l.order| == if SHSTRTAB in l.names then 1 else 0
    requires count >= 0 && h == FinalHeader(NEW_EHDR.(entry := ORIGIN), 2, count, idx) && 0 < idx <= |l.order| && l.order[idx - 1] == SHSTRTAB
    ensures |ElfImage(ops).code| < 0x8000_0000 ==> IsElfOf(WriteAll(FilePatches(h, l.placed, l.table)), ops)
  {
    hide ElfImage, IsElfOf, WriteAll, FilePatches, Layout.Finished, FinalHeader, ElfSegments, ElfSections, ListsTable;
    OnlyTwoNames(ops, l);
    if |ElfImage(ops).code| < 0x8000_0000 {
      WrittenFileLoads(ops, l, order, idx, h);
    }
  }
}
