/** csrc/src/main.c: from the text of a program to its executable file. */
module Translator {
  import opened MachineInts
  import Runs
  import opened Store
  import FlatIr
  import opened FrontEnd
  import Behaviour
  import Brackets
  import Chunks
  import CodeGen
  import CodeSimulation
  import Source
  import SourceSimulation
  import X86
  import ElfCorrect
  import ElfFile
  import EndToEnd
  import Executable
  import SingleReads

  /** Pending or paired, the start of a loop never points backwards. */
  lemma ParsedStarts(chunks: seq<string>)
    ensures CodeGen.ForwardStarts(FlatIr.WithHalt(ParseChunks(EMPTY, chunks).ops))
  {
    Brackets.ParserTracksBrackets(chunks);
    var p := ParseChunks(EMPTY, chunks);
    forall k | 0 <= k < |FlatIr.WithHalt(p.ops)| && FlatIr.WithHalt(p.ops)[k].kind == FlatIr.LoopStart ensures FlatIr.WithHalt(p.ops)[k].arg >= 0 {
      assert Brackets.SlotOk(p, k);
    }
  }

  function Image(text: string): X86.Image {
    ParsedStarts(Chunks.Blocks(text));
    Executable.ElfImage(ParseChunks(EMPTY, Chunks.Blocks(text)).ops)
  }

  /** Nothing is written for a program with an unmatched `]`. */
  method Translate(text: string, out: ElfFile.OutFile) returns (ok: bool)
    requires out.bytes == [] && out.pos == 0
    modifies out
    ensures ok <==> Source.DepthOf(Brackets.Seen(Chunks.Blocks(text))) != Source.Unmatched
    ensures !ok ==> out.bytes == []
    ensures ok && |Image(text).code| < 0x8000_0000 ==>
              && Executable.Loads(out.bytes, Image(text), Executable.TAPE_SIZE)
              && Executable.Starts(out.bytes, Image(text), Executable.TAPE_SIZE)
              && ElfCorrect.HasSections(out.bytes, {".text", ".bss", ".shstrtab"})
              && Executable.Describes(out.bytes, Image(text))
  {
    var ctx := new IrCtx();
    ok := Chunks.ReadProgram(ctx, text);
    Brackets.ParserTracksBrackets(Chunks.Blocks(text));
    ParsedStarts(Chunks.Blocks(text));
    if ok {
      Executable.WriteElfFile(ctx.data, out);
    }
  }

  /** The store of a fresh process or interpreter. */
  function Fresh(input: seq<Byte>): State { Executable.Zeroed(Executable.TAPE_SIZE, input) }

  /** What the whole chain asks of a program. */
  ghost predicate Translatable(text: string, input: seq<Byte>) {
    && NUL !in text && Source.DepthOf(text) != Source.Unmatched && |text| <= INT32_MAX
    && (forall c :: c in Chunks.Blocks(text) ==> EndToEnd.NoDoubleRead(CString(c)))
    && SourceSimulation.StaysOnTape(text, Running(0, Fresh(input)))
    && |Image(text).code| < 0x8000_0000
  }

  /** A process started from a file that begins like the image of the text, as the one written by `Translate`
      does: it keeps meeting the characters of the text with the same tape, pointer, input and output, and
      one ends exactly when the other does. */
  lemma ExecutableMeansSource(text: string, file: seq<Byte>, input: seq<Byte>, regs: seq<Word>, final: State)
    requires Translatable(text, input) && |regs| == 8
    requires Executable.Starts(file, Image(text), Executable.TAPE_SIZE)
    ensures var image, boot := Executable.ImageOf(file), Executable.BootFile(file, regs, input);
            && Runs.KeepMeeting(Source.Step(text), Running(0, Fresh(input)), X86.Step(image), boot, CodeSimulation.Agreement(image))
            && (Behaviour.HaltsWith(Source.Step(text), Running(0, Fresh(input)), final) <==> CodeSimulation.ProcessExits(image, boot, final))
  {
    hide Executable.Bootable;
    assert Executable.BootFile(file, regs, input) == CodeSimulation.Boot(Image(text), regs, Fresh(input));
    ImageMeansSource(text, input, regs, final);
  }

  lemma ImageMeansSource(text: string, input: seq<Byte>, regs: seq<Word>, final: State)
    requires Translatable(text, input) && |regs| == 8
    ensures var boot := CodeSimulation.Boot(Image(text), regs, Fresh(input));
            && Runs.KeepMeeting(Source.Step(text), Running(0, Fresh(input)), X86.Step(Image(text)), boot, CodeSimulation.Agreement(Image(text)))
            && (Behaviour.HaltsWith(Source.Step(text), Running(0, Fresh(input)), final) <==> CodeSimulation.ProcessExits(Image(text), boot, final))
  {
    hide CodeSimulation.HoldsProgram, SourceSimulation.StaysOnTape, EndToEnd.NoDoubleRead, Runs.KeepMeeting, Behaviour.HaltsWith,
      CodeSimulation.ProcessExits, Source.DepthOf, Executable.ElfImage, CodeSimulation.Agreement;
    var chunks := Chunks.Blocks(text);
    Chunks.BlocksJoin(text);
    Chunks.SeenIsEverything(chunks);
    ParsedStarts(chunks);
    Executable.ImageHoldsProgram(ParseChunks(EMPTY, chunks).ops);
    EndToEnd.SourceMeetsProcessor(chunks, Image(text), regs, Fresh(input));
    EndToEnd.SourceAndProcessHaltTogether(chunks, Image(text), regs, Fresh(input), final);
  }

  /** For every text that is accepted, open brackets and runs of `,` included: the process keeps meeting the
      interpreter that makes one read of each run of reads, and one ends exactly when the other does. */
  lemma ExecutableMakesSingleReads(text: string, file: seq<Byte>, input: seq<Byte>, regs: seq<Word>, final: State)
    requires Source.DepthOf(Brackets.Seen(Chunks.Blocks(text))) != Source.Unmatched
    requires |Brackets.Seen(Chunks.Blocks(text))| <= INT32_MAX
    requires |Image(text).code| < 0x8000_0000 && |regs| == 8
    requires Executable.Starts(file, Image(text), Executable.TAPE_SIZE)
    requires FlatIr.StaysOnTape(SingleReadProgram(text), Running(0, Fresh(input)))
    ensures var image, boot := Executable.ImageOf(file), Executable.BootFile(file, regs, input);
            && Runs.SameRuns(FlatIr.Step(SingleReadProgram(text)), Running(0, Fresh(input)), X86.Step(image), boot, CodeSimulation.Agreement(image))
            && (Behaviour.HaltsWith(FlatIr.Step(SingleReadProgram(text)), Running(0, Fresh(input)), final) <==> CodeSimulation.ProcessExits(image, boot, final))
  {
    hide Executable.Bootable;
    assert Executable.BootFile(file, regs, input) == CodeSimulation.Boot(Image(text), regs, Fresh(input));
    ImageMakesSingleReads(text, input, regs, final);
  }

  lemma ImageMakesSingleReads(text: string, input: seq<Byte>, regs: seq<Word>, final: State)
    requires Source.DepthOf(Brackets.Seen(Chunks.Blocks(text))) != Source.Unmatched
    requires |Brackets.Seen(Chunks.Blocks(text))| <= INT32_MAX
    requires |Image(text).code| < 0x8000_0000 && |regs| == 8
    requires FlatIr.StaysOnTape(SingleReadProgram(text), Running(0, Fresh(input)))
    ensures var image, boot := Image(text), CodeSimulation.Boot(Image(text), regs, Fresh(input));
            && Runs.SameRuns(FlatIr.Step(SingleReadProgram(text)), Running(0, Fresh(input)), X86.Step(image), boot, CodeSimulation.Agreement(image))
            && (Behaviour.HaltsWith(FlatIr.Step(SingleReadProgram(text)), Running(0, Fresh(input)), final) <==> CodeSimulation.ProcessExits(image, boot, final))
  {
    hide CodeSimulation.HoldsProgram, FlatIr.StaysOnTape, SingleReads.Accepted, Behaviour.HaltsWith, CodeSimulation.ProcessExits,
      Executable.ElfImage, Runs.SameRuns, CodeSimulation.Agreement, Source.DepthOf, Brackets.BracketInv;
    var chunks := Chunks.Blocks(text);
    Brackets.ParserTracksBrackets(chunks);
    ParsedStarts(chunks);
    Executable.ImageHoldsProgram(ParseChunks(EMPTY, chunks).ops);
    SingleReads.ParsedIsAccepted(chunks);
    SingleReads.CompilerMeaning(ParseChunks(EMPTY, chunks).ops, Image(text), regs, Fresh(input));
    SingleReads.ExitsLikeSingleReads(ParseChunks(EMPTY, chunks).ops, Image(text), regs, Fresh(input), final);
  }

  function SingleReadProgram(text: string): seq<FlatIr.Op> {
    FlatIr.WithHalt(SingleReads.OneReads(ParseChunks(EMPTY, Chunks.Blocks(text)).ops))
  }
}
