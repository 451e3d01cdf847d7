/** The bytes of an ELF file: headers in memory order, and a file written piece by piece. */
module ElfFile {
  import opened MachineInts
  import opened Slices
  import opened Chains
  import opened ElfLayout

  // ----- headers as bytes -----

  /** The two bytes of a uint16_t. */
  function Le16(x: int): (b: seq<Byte>)
    ensures |b| == 2
  {
    [x % 0x100, x / 0x100 % 0x100]
  }

  function Le32s(words: seq<Word>): (b: seq<Byte>)
    ensures |b| == 4 * |words|
  {
    if words == [] then [] else Le32(words[0]) + Le32s(words[1..])
  }

  function EncodeEhdr(h: Ehdr): (b: seq<Byte>)
    ensures |b| == EHDR_SIZE
  {
    [0x7F, 0x45, 0x4C, 0x46, 1, 1, 1, 0, 0, 0, 0, 0, 0, 0, 0, 0] + Le16(2) + Le16(3) +
    Le32s([1, h.entry, h.phoff, h.shoff, 0]) +
    Le16(EHDR_SIZE) + Le16(h.phentsize) + Le16(h.phnum) + Le16(h.shentsize) + Le16(h.shnum) + Le16(h.shstrndx)
  }

  function PhdrWords(h: Phdr): seq<Word> { [h.kind, h.offset, h.vaddr, h.paddr, h.filesz, h.memsz, h.flags, h.align] }

  function EncodePhdr(h: Phdr): (b: seq<Byte>)
    ensures |b| == PHDR_SIZE
  {
    Le32s(PhdrWords(h))
  }

  function ShdrWords(h: Shdr): seq<Word> {
    [h.name, h.kind, h.flags, h.addr, h.offset, h.size, h.link, h.info, h.addralign, h.entsize]
  }

  function EncodeShdr(h: Shdr): (b: seq<Byte>)
    ensures |b| == SHDR_SIZE
  {
    Le32s(ShdrWords(h))
  }

  // ----- reading -----

  function Word32(file: seq<Byte>, at: nat): Word
    requires at + 4 <= |file|
  {
    FromLe32(file[at], file[at + 1], file[at + 2], file[at + 3])
  }

  function Half16(file: seq<Byte>, at: nat): nat
    requires at + 2 <= |file|
  {
    file[at] as int + 0x100 * (file[at + 1] as int)
  }

  lemma {:induction false} WordFound(words: seq<Word>, k: nat, p: nat)
    requires k < |words| && p == 4 * k
    ensures HasSlice(Le32s(words), p, Le32(words[k]))
  {
    hide Le32;
    if k > 0 {
      WordFound(words[1..], k - 1, p - 4);
      SliceWithin(Le32s(words[1..]), p - 4, Le32(words[k]), Le32s(words), 4);
    }
  }

  predicate HoldsWord(file: seq<Byte>, at: nat, x: Word) { at + 4 <= |file| && Word32(file, at) == x }

  lemma Word32Of(file: seq<Byte>, at: nat, x: Word)
    requires HasSlice(file, at, Le32(x))
    ensures HoldsWord(file, at, x)
  {
    hide Le32, FromLe32;
    Le32RoundTrip(x);
    SliceElement(file, at, Le32(x), 0);
    SliceElement(file, at, Le32(x), 1);
    SliceElement(file, at, Le32(x), 2);
    SliceElement(file, at, Le32(x), 3);
  }

  lemma Words32Of(file: seq<Byte>, at: nat, words: seq<Word>, k: nat, p: nat)
    requires HasSlice(file, at, Le32s(words)) && k < |words| && p == 4 * k
    ensures HoldsWord(file, at + p, words[k])
  {
    hide HasSlice, Le32, Le32s, HoldsWord, FromLe32, Word32;
    WordFound(words, k, p);
    SliceWithin(Le32s(words), p, Le32(words[k]), file, at);
    Word32Of(file, at + p, words[k]);
  }

  function DecodePhdr(file: seq<Byte>, at: nat): Phdr
    requires at + PHDR_SIZE <= |file|
  {
    Phdr(Word32(file, at), Word32(file, at + 4), Word32(file, at + 8), Word32(file, at + 12),
         Word32(file, at + 16), Word32(file, at + 20), Word32(file, at + 24), Word32(file, at + 28))
  }

  lemma DecodeEncodePhdr(file: seq<Byte>, at: nat, h: Phdr)
    requires HasSlice(file, at, EncodePhdr(h))
    ensures at + PHDR_SIZE <= |file| && DecodePhdr(file, at) == h
  {
    hide HasSlice, Le32s, Word32;
    var w := PhdrWords(h);
    Words32Of(file, at, w, 0, 0);
    Words32Of(file, at, w, 1, 4);
    Words32Of(file, at, w, 2, 8);
    Words32Of(file, at, w, 3, 12);
    Words32Of(file, at, w, 4, 16);
    Words32Of(file, at, w, 5, 20);
    Words32Of(file, at, w, 6, 24);
    Words32Of(file, at, w, 7, 28);
  }

  /** What tells a loader that this is an executable for a 32-bit little-endian x86, current version: \x7fELF,
      ELFCLASS32, ELFDATA2LSB and EV_CURRENT; ET_EXEC, EM_386 and EV_CURRENT; and the size of this header. */
  predicate ElfIdent(file: seq<Byte>) {
    && |file| >= 52
    && file[..16] == [0x7F, 0x45, 0x4C, 0x46, 1, 1, 1, 0, 0, 0, 0, 0, 0, 0, 0, 0]
    && file[16..24] == [2, 0, 3, 0, 1, 0, 0, 0]
    && file[36..42] == [0, 0, 0, 0, 52, 0]
  }

  lemma EhdrIdent(file: seq<Byte>, h: Ehdr)
    requires HasSlice(file, 0, EncodeEhdr(h))
    ensures ElfIdent(file)
    ensures h.phentsize == PHDR_SIZE ==> file[42..44] == [32, 0]
    ensures h.shentsize == SHDR_SIZE ==> file[46..48] == [40, 0]
  {
    hide Le32s, Le32;
    var b := EncodeEhdr(h);
    var w := [1, h.entry, h.phoff, h.shoff, 0];
    WordFound(w, 0, 0);
    WordFound(w, 4, 16);
    OneAndZero();
    assert HasSlice(b, 20, Le32s(w));
    SliceWithin(Le32s(w), 0, Le32(1), b, 20);
    SliceWithin(Le32s(w), 16, Le32(0), b, 20);
    assert file[..EHDR_SIZE] == b;
    assert b[16..20] == [2, 0, 3, 0] && b[16..24] == b[16..20] + b[20..24] && b[36..42] == b[36..40] + b[40..42];
    assert file[16..24] == b[16..24] && file[36..42] == b[36..42] && file[..16] == b[..16];
    assert file[42..44] == b[42..44] && file[46..48] == b[46..48];
  }

  lemma OneAndZero()
    ensures Le32(1) == [1, 0, 0, 0] && Le32(0) == [0, 0, 0, 0]
  {
  }

  /** The numbers of these little-endian words of the file. */
  ghost predicate Reads(file: seq<Byte>, at: nat, words: seq<int>) {
    at + 4 * |words| <= |file| && forall i :: 0 <= i < |words| ==> HoldsNumber(file, at + 4 * i, words[i])
  }

  predicate HoldsNumber(file: seq<Byte>, at: nat, x: int) {
    at + 4 <= |file| && Weighted(file[at], file[at + 1], file[at + 2], file[at + 3]) == x
  }

  function Weighted(b0: int, b1: int, b2: int, b3: int): int { b0 + 0x100 * b1 + 0x1_0000 * b2 + 0x100_0000 * b3 }

  lemma ReadsOf(file: seq<Byte>, at: nat, words: seq<Word>)
    requires HasSlice(file, at, Le32s(words))
    ensures Reads(file, at, words)
  {
    hide HasSlice, Le32s, HoldsWord;
    SliceEnds(file, at, Le32s(words));
    forall i | 0 <= i < |words| ensures HoldsNumber(file, at + 4 * i, words[i]) {
      Words32Of(file, at, words, i, 4 * i);
      WordIsNumber(file, at + 4 * i, words[i]);
    }
  }

  lemma WordIsNumber(file: seq<Byte>, at: nat, x: Word)
    requires HoldsWord(file, at, x)
    ensures HoldsNumber(file, at, x)
  {
  }

  /** The string of a string table that begins here: the bytes up to the first zero. */
  function StringAt(file: seq<Byte>, at: nat): string
    decreases |file| - at
  {
    if at >= |file| || file[at] == 0 then [] else [file[at] as char] + StringAt(file, at + 1)
  }

  /** Characters of one byte, and no NUL. */
  predicate EightBit(name: string) { forall c :: c in name ==> 0 < c as int < 0x100 }

  lemma {:induction false} StringFound(file: seq<Byte>, at: nat, name: string)
    requires HasSlice(file, at, CBytes(name)) && EightBit(name)
    ensures StringAt(file, at) == name
    decreases |name|
  {
    SliceElement(file, at, CBytes(name), 0);
    if name != [] {
      assert name[0] in name;
      StringTail(file, at, name);
      StringFound(file, at + 1, name[1..]);
      assert name == [name[0]] + name[1..];
    }
  }

  lemma StringTail(file: seq<Byte>, at: nat, name: string)
    requires HasSlice(file, at, CBytes(name)) && EightBit(name) && name != []
    ensures HasSlice(file, at + 1, CBytes(name[1..])) && EightBit(name[1..])
    ensures at < |file| && file[at] == name[0] as int
  {
    assert name[0] in name && forall c :: c in name[1..] ==> c in name;
    assert CBytes(name) == [CBytes(name)[0]] + CBytes(name[1..]);
    SliceSplit(file, at, [CBytes(name)[0]], CBytes(name[1..]));
    SliceElement(file, at, CBytes(name), 0);
  }

  /** The fields of the ELF header that a loader looks at. */
  lemma EhdrFields(file: seq<Byte>, h: Ehdr)
    requires HasSlice(file, 0, EncodeEhdr(h)) && 0 <= h.phnum < 0x1_0000 && 0 <= h.shnum < 0x1_0000 && 0 <= h.shstrndx < 0x1_0000
    ensures |file| >= EHDR_SIZE && Word32(file, 24) == h.entry && Word32(file, 28) == h.phoff && Word32(file, 32) == h.shoff
    ensures Half16(file, 44) == h.phnum && Half16(file, 48) == h.shnum && Half16(file, 50) == h.shstrndx
  {
    hide Le32s, Word32;
    var b := EncodeEhdr(h);
    var w := [1, h.entry, h.phoff, h.shoff, 0];
    assert HasSlice(b, 20, Le32s(w));
    SliceWithin(b, 20, Le32s(w), file, 0);
    Words32Of(file, 20, w, 1, 4);
    Words32Of(file, 20, w, 2, 8);
    Words32Of(file, 20, w, 3, 12);
    assert file[..EHDR_SIZE] == b;
    assert file[44] == b[44] && file[45] == b[45] && file[48] == b[48] && file[49] == b[49] && file[50] == b[50] && file[51] == b[51];
  }

  // The section header number `k`, found through e_shoff.

  predicate HasSection(file: seq<Byte>, k: nat) {
    |file| >= EHDR_SIZE && Word32(file, 32) + SHDR_SIZE * k + SHDR_SIZE <= |file|
  }

  /** Its sh_name. */
  function NameField(file: seq<Byte>, k: nat): Word
    requires HasSection(file, k)
  {
    Word32(file, Word32(file, 32) + SHDR_SIZE * k)
  }

  /** Its sh_offset. */
  function OffsetField(file: seq<Byte>, k: nat): Word
    requires HasSection(file, k)
  {
    Word32(file, Word32(file, 32) + SHDR_SIZE * k + 16)
  }

  /** Its sh_size. */
  function SizeField(file: seq<Byte>, k: nat): Word
    requires HasSection(file, k)
  {
    Word32(file, Word32(file, 32) + SHDR_SIZE * k + 20)
  }

  lemma SectionFields(file: seq<Byte>, k: nat, h: Shdr)
    requires |file| >= EHDR_SIZE && HasSlice(file, Word32(file, 32) + SHDR_SIZE * k, EncodeShdr(h))
    ensures Reads(file, Word32(file, 32) + SHDR_SIZE * k, ShdrWords(h))
    ensures HasSection(file, k) && NameField(file, k) == h.name && OffsetField(file, k) == h.offset && SizeField(file, k) == h.size
  {
    hide Le32s, Word32, Reads;
    var at: nat := Word32(file, 32) + SHDR_SIZE * k;
    ReadsOf(file, at, ShdrWords(h));
    Words32Of(file, at, ShdrWords(h), 0, 0);
    Words32Of(file, at, ShdrWords(h), 4, 16);
    Words32Of(file, at, ShdrWords(h), 5, 20);
  }

  // ----- a file as the sum of its writes -----

  /** Bytes written at an offset; a gap in front of them reads as zeros. */
  function WriteAt(file: seq<Byte>, at: nat, bytes: seq<Byte>): seq<Byte> {
    if bytes == [] then file
    else
      var long := if |file| < at then file + seq(at - |file|, i => 0) else file;
      long[..at] + bytes + if at + |bytes| < |long| then long[at + |bytes|..] else []
  }

  /** What was written stands there, what it does not touch stays, and a gap in front of it is zero. */
  lemma WriteReads(file: seq<Byte>, at: nat, bytes: seq<Byte>, i: nat)
    requires bytes != [] && i < |WriteAt(file, at, bytes)|
    ensures WriteAt(file, at, bytes)[i] ==
            if at <= i < at + |bytes| then bytes[i - at] else if i < |file| then file[i] else 0
    ensures |WriteAt(file, at, bytes)| == if |file| < at + |bytes| then at + |bytes| else |file|
  {
  }

  datatype Patch = Patch(at: nat, bytes: seq<Byte>) {
    function End(): nat { at + |bytes| }
  }

  function WriteAll(ps: seq<Patch>): seq<Byte> {
    if ps == [] then [] else WriteAt(WriteAll(ps[..|ps| - 1]), ps[|ps| - 1].at, ps[|ps| - 1].bytes)
  }

  lemma WriteOneMore(ps: seq<Patch>, p: Patch)
    ensures WriteAll(ps + [p]) == WriteAt(WriteAll(ps), p.at, p.bytes)
  {
    assert (ps + [p])[..|ps|] == ps;
  }

  // ----- the writes of gen_elf_file -----

  function PhdrPatches(segs: seq<Segment>, k: nat): (ps: seq<Patch>)
    requires k <= |segs|
    ensures |ps| == k
  {
    seq(k, i requires 0 <= i < k => Patch(EHDR_SIZE + PHDR_SIZE * i, EncodePhdr(segs[i].header)))
  }

  function ShdrPatches(secs: seq<Section>, at: nat, k: nat): (ps: seq<Patch>)
    requires k <= |secs|
    ensures |ps| == k
  {
    seq(k, i requires 0 <= i < k => Patch(at + SHDR_SIZE * i, EncodeShdr(secs[i].header)))
  }

  function SegmentPatches(segs: seq<Segment>, k: nat): (ps: seq<Patch>)
    requires k <= |segs|
    ensures |ps| == k
  {
    seq(k, i requires 0 <= i < k => if segs[i].stored then Patch(segs[i].header.offset, segs[i].data) else Patch(0, []))
  }

  function SectionPatches(secs: seq<Section>, k: nat): (ps: seq<Patch>)
    requires k <= |secs|
    ensures |ps| == k
  {
    seq(k, i requires 0 <= i < k => if secs[i].stored then Patch(secs[i].header.offset, secs[i].data) else Patch(0, []))
  }

  function HeaderPatches(h: Ehdr, segs: seq<Segment>, secs: seq<Section>): seq<Patch> {
    [Patch(0, EncodeEhdr(h))] + PhdrPatches(segs, |segs|) +
    [Patch(SectionTable(|segs|), EncodeShdr(NULL_SHDR))] + ShdrPatches(secs, SectionTable(|segs|) + SHDR_SIZE, |secs|)
  }

  function FilePatches(h: Ehdr, segs: seq<Segment>, secs: seq<Section>): seq<Patch> {
    HeaderPatches(h, segs, secs) + SegmentPatches(segs, |segs|) + SectionPatches(secs, |secs|)
  }

  lemma WriteNext(ps: seq<Patch>, a: seq<Patch>, b: seq<Patch>, p: Patch)
    requires b == a + [p]
    ensures WriteAll(ps + b) == WriteAt(WriteAll(ps + a), p.at, p.bytes)
  {
    assert ps + b == (ps + a) + [p];
    WriteOneMore(ps + a, p);
  }

  lemma PhdrNext(ps: seq<Patch>, segs: seq<Segment>, k: nat)
    requires k < |segs|
    ensures WriteAll(ps + PhdrPatches(segs, k + 1)) ==
            WriteAt(WriteAll(ps + PhdrPatches(segs, k)), EHDR_SIZE + PHDR_SIZE * k, EncodePhdr(segs[k].header))
  {
    hide WriteAll, WriteAt, EncodePhdr;
    var p := Patch(EHDR_SIZE + PHDR_SIZE * k, EncodePhdr(segs[k].header));
    WriteNext(ps, PhdrPatches(segs, k), PhdrPatches(segs, k + 1), p);
  }

  lemma ShdrNext(ps: seq<Patch>, secs: seq<Section>, at: nat, k: nat)
    requires k < |secs|
    ensures WriteAll(ps + ShdrPatches(secs, at, k + 1)) ==
            WriteAt(WriteAll(ps + ShdrPatches(secs, at, k)), at + SHDR_SIZE * k, EncodeShdr(secs[k].header))
  {
    hide WriteAll, WriteAt, EncodeShdr;
    var p := Patch(at + SHDR_SIZE * k, EncodeShdr(secs[k].header));
    WriteNext(ps, ShdrPatches(secs, at, k), ShdrPatches(secs, at, k + 1), p);
  }

  lemma SegmentNext(ps: seq<Patch>, segs: seq<Segment>, k: nat)
    requires k < |segs|
    ensures var f := WriteAll(ps + SegmentPatches(segs, k));
            WriteAll(ps + SegmentPatches(segs, k + 1)) ==
            if segs[k].stored then WriteAt(f, segs[k].header.offset, segs[k].data) else f
  {
    hide WriteAll, WriteAt;
    WriteNext(ps, SegmentPatches(segs, k), SegmentPatches(segs, k + 1), SegmentPatches(segs, k + 1)[k]);
    WriteNothing(WriteAll(ps + SegmentPatches(segs, k)), 0);
  }

  lemma SectionNext(ps: seq<Patch>, secs: seq<Section>, k: nat)
    requires k < |secs|
    ensures var f := WriteAll(ps + SectionPatches(secs, k));
            WriteAll(ps + SectionPatches(secs, k + 1)) ==
            if secs[k].stored then WriteAt(f, secs[k].header.offset, secs[k].data) else f
  {
    hide WriteAll, WriteAt;
    WriteNext(ps, SectionPatches(secs, k), SectionPatches(secs, k + 1), SectionPatches(secs, k + 1)[k]);
    WriteNothing(WriteAll(ps + SectionPatches(secs, k)), 0);
  }

  /** No patches of a kind yet. */
  lemma NoPatches(ps: seq<Patch>, segs: seq<Segment>, secs: seq<Section>, at: nat)
    ensures ps + PhdrPatches(segs, 0) == ps == ps + SegmentPatches(segs, 0)
    ensures ps + ShdrPatches(secs, at, 0) == ps == ps + SectionPatches(secs, 0)
  {
  }

  function FinalHeader(h: Ehdr, segments: nat, sections: nat, idx: nat): Ehdr {
    var p := if segments > 0 then h.(phnum := segments % 0x1_0000, phentsize := PHDR_SIZE, phoff := EHDR_SIZE) else h;
    p.(shstrndx := idx % 0x1_0000, shnum := (sections + 1) % 0x1_0000, shentsize := SHDR_SIZE,
       shoff := Wrap32(EHDR_SIZE + PHDR_SIZE * segments))
  }

  class OutFile {
    var bytes: seq<Byte>
    var pos: nat

    constructor ()
      ensures bytes == [] && pos == 0
    {
      bytes, pos := [], 0;
    }

    method Seek(at: nat)
      modifies this`pos
      ensures pos == at
    {
      pos := at;
    }

    method Write(data: seq<Byte>)
      modifies this
      ensures bytes == WriteAt(old(bytes), old(pos), data) && pos == old(pos) + |data|
    {
      bytes := WriteAt(bytes, pos, data);
      pos := pos + |data|;
    }
  }

  predicate Clear(p: Patch, q: Patch) {
    p.bytes == [] || q.bytes == [] || p.End() <= q.at || q.End() <= p.at
  }

  ghost predicate AllClear(ps: seq<Patch>) {
    forall i, j :: 0 <= i < j < |ps| ==> Clear(ps[i], ps[j])
  }

  /** The pieces that are not empty lie between `lo` and `hi`, and no two of them touch. */
  ghost predicate Separate(ps: seq<Patch>, lo: nat, hi: nat) {
    && (forall i :: 0 <= i < |ps| && ps[i].bytes != [] ==> lo <= ps[i].at && ps[i].End() <= hi)
    && AllClear(ps)
  }

  lemma SeparateConcat(a: seq<Patch>, b: seq<Patch>, lo: nat, mid: nat, hi: nat)
    requires Separate(a, lo, mid) && Separate(b, mid, hi) && lo <= mid <= hi
    ensures Separate(a + b, lo, hi)
  {
    forall i, j | 0 <= i < j < |a + b| ensures Clear((a + b)[i], (a + b)[j]) {
      if i < |a| <= j {
        assert (a + b)[i] == a[i] && (a + b)[j] == b[j - |a|];
      }
    }
  }

  /** What a write does not touch stays. */
  lemma WriteKeeps(file: seq<Byte>, at: nat, bytes: seq<Byte>, from: nat, part: seq<Byte>)
    requires HasSlice(file, from, part) && (from + |part| <= at || at + |bytes| <= from)
    ensures HasSlice(WriteAt(file, at, bytes), from, part)
  {
    var r := WriteAt(file, at, bytes);
    assert forall i :: from <= i < from + |part| ==> i < |file| && r[i] == file[i];
    assert r[from..from + |part|] == file[from..from + |part|];
  }

  lemma WriteIsThere(file: seq<Byte>, at: nat, bytes: seq<Byte>)
    requires bytes != []
    ensures HasSlice(WriteAt(file, at, bytes), at, bytes)
  {
  }

  /** Pieces that do not touch are all in the file. */
  lemma {:induction false} AllWritten(ps: seq<Patch>, lo: nat, hi: nat, k: nat)
    requires Separate(ps, lo, hi) && k < |ps| && ps[k].bytes != []
    ensures HasSlice(WriteAll(ps), ps[k].at, ps[k].bytes)
  {
    hide HasSlice, WriteAt;
    var front, p := ps[..|ps| - 1], ps[|ps| - 1];
    if k == |ps| - 1 {
      WriteIsThere(WriteAll(front), p.at, p.bytes);
    } else {
      AllWritten(front, lo, hi, k);
      if p.bytes != [] {
        assert Clear(ps[k], p);
        WriteKeeps(WriteAll(front), p.at, p.bytes, ps[k].at, ps[k].bytes);
      } else {
        WriteNothing(WriteAll(front), p.at);
      }
    }
  }

  lemma WriteNothing(file: seq<Byte>, at: nat)
    ensures WriteAt(file, at, []) == file
  {
  }
}
