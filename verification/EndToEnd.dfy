/** From the characters of a program to the bytes of its executable. */
module EndToEnd {
  import opened MachineInts
  import opened Runs
  import opened Store
  import opened FlatIr
  import opened FrontEnd
  import opened Coverage
  import opened Behaviour
  import Brackets
  import CodeSimulation
  import OpenBrackets
  import SingleReads
  import Source
  import SourceSimulation
  import X86

  /** Front-end correctness, for every accepted text and every way of cutting it into chunks. */
  lemma FrontEndCorrect(chunks: seq<string>, s: State)
    requires Source.DepthOf(Brackets.Seen(chunks)) != Source.Unmatched
    requires SourceSimulation.StaysOnTape(Brackets.Seen(chunks), Running(0, s))
    ensures var prog := WithHalt(ParseChunks(EMPTY, chunks).ops);
            SameRuns(Step(prog), Running(0, s), Source.Step(Brackets.Seen(chunks)), Running(0, s), SourceSimulation.SameStore())
            && FlatIr.StaysOnTape(prog, Running(0, s))
  {
    Brackets.ParserTracksBrackets(chunks);
    OpenBrackets.ParsedIsOpen(chunks);
    var cut := ParserCovers(chunks);
    SourceSimulation.RepresentsSameRuns(Brackets.Seen(chunks), ParseChunks(EMPTY, chunks).ops, cut, s);
  }

  // ----- parsed programs are compilable -----

  predicate NoDoubleRead(s: string) {
    forall i :: 0 < i < |s| ==> s[i - 1] != ',' || s[i] != ','
  }

  predicate ReadsOnce(ops: seq<Op>) {
    forall k :: 0 <= k < |ops| && ops[k].kind == Read ==> ops[k].arg == 1
  }

  lemma {:induction false} ReadsStayAlone(p: Parsed, prev: char, s: string)
    requires PatchInside(p) && ReadsOnce(p.ops) && NoDoubleRead([prev] + s)
    ensures ReadsOnce(ParseText(p, prev, s).ops)
    decreases |s|
  {
    if s != [] {
      assert ([prev] + s)[0] == prev && ([prev] + s)[1] == s[0];
      ReadStaysAlone(p, prev, s[0]);
      forall i | 0 < i < |s| ensures s[i - 1] != ',' || s[i] != ',' {
        assert ([prev] + s)[i] == s[i - 1] && ([prev] + s)[i + 1] == s[i];
      }
      assert [s[0]] + s[1..] == s;
      ReadsStayAlone(ParseChar(p, prev, s[0]), s[0], s[1..]);
    }
  }

  lemma ReadStaysAlone(p: Parsed, prev: char, c: char)
    requires PatchInside(p) && ReadsOnce(p.ops) && (prev != ',' || c != ',')
    ensures ReadsOnce(ParseChar(p, prev, c).ops)
  {
  }

  lemma {:induction false} ChunksReadOnce(p: Parsed, chunks: seq<string>)
    requires PatchInside(p) && ReadsOnce(p.ops)
    requires forall c :: c in chunks ==> NoDoubleRead(CString(c))
    ensures ReadsOnce(ParseChunks(p, chunks).ops)
    decreases |chunks|
  {
    if chunks != [] {
      var text := CString(chunks[0]);
      assert chunks[0] in chunks;
      forall i | 0 < i < |[NUL] + text| ensures ([NUL] + text)[i - 1] != ',' || ([NUL] + text)[i] != ',' {
        if i > 1 {
          assert ([NUL] + text)[i] == text[i - 1] && ([NUL] + text)[i - 1] == text[i - 2];
        }
      }
      ReadsStayAlone(p, NUL, text);
      ChunksReadOnce(ParseChunk(p, chunks[0]), chunks[1..]);
    }
  }

  /** A balanced program below 2 GiB without `,,` inside a chunk is accepted by the code generator. */
  lemma ParsedIsCompilable(chunks: seq<string>)
    requires Source.BalancedSource(Brackets.Seen(chunks)) && |Brackets.Seen(chunks)| <= INT32_MAX
    requires forall c :: c in chunks ==> NoDoubleRead(CString(c))
    ensures CodeSimulation.Compilable(ParseChunks(EMPTY, chunks).ops)
  {
    Brackets.ParserTracksBrackets(chunks);
    var src, ops := Brackets.Seen(chunks), ParseChunks(EMPTY, chunks).ops;
    var cut := ParserCovers(chunks);
    ChunksReadOnce(EMPTY, chunks);
    forall k | 0 <= k < |ops| ensures CodeSimulation.Executable(ops[k]) && ops[k].kind != Halt {
      assert Piece(src, ops, cut, k);
      NetBound(ops[k].kind, src[cut[k]..cut[k + 1]]);
    }
  }

  // ----- the executable -----

  /** The source text and the processor keep meeting with the same tape, pointer, input and output. */
  lemma SourceMeetsProcessor(chunks: seq<string>, image: X86.Image, regs: seq<Word>, s: State)
    requires Source.DepthOf(Brackets.Seen(chunks)) != Source.Unmatched && |Brackets.Seen(chunks)| <= INT32_MAX
    requires forall c :: c in chunks ==> NoDoubleRead(CString(c))
    requires CodeSimulation.HoldsProgram(image, ParseChunks(EMPTY, chunks).ops, |s.tape|)
    requires s.dp == 0 && |regs| == 8
    requires SourceSimulation.StaysOnTape(Brackets.Seen(chunks), Running(0, s))
    ensures KeepMeeting(Source.Step(Brackets.Seen(chunks)), Running(0, s),
                        X86.Step(image), CodeSimulation.Boot(image, regs, s), CodeSimulation.Agreement(image))
  {
    hide CodeSimulation.HoldsProgram, SingleReads.Accepted, SourceSimulation.StaysOnTape, Brackets.BracketInv;
    var src, ops := Brackets.Seen(chunks), ParseChunks(EMPTY, chunks).ops;
    var prog := WithHalt(ops);
    SourceSimulation.StaysOnTapeLater(src, Running(0, s), 0);
    FrontEndCorrect(chunks, s);
    Brackets.ParserTracksBrackets(chunks);
    SingleReads.ParsedIsAccepted(chunks);
    ChunksReadOnce(EMPTY, chunks);
    SingleAlready(ops);
    SingleReads.CompilerMeaning(ops, image, regs, s);
    ViewsCompose(image);
    FollowersMeet(Step(prog), Running(0, s), Source.Step(src), Running(0, s),
                  X86.Step(image), CodeSimulation.Boot(image, regs, s),
                  SourceSimulation.SameStore(), CodeSimulation.Agreement(image), CodeSimulation.Agreement(image));
  }

  lemma SingleAlready(ops: seq<Op>)
    requires ReadsOnce(ops)
    ensures SingleReads.OneReads(ops) == ops
  {
  }

  lemma ViewsCompose(image: X86.Image)
    ensures Composes(SourceSimulation.SameStore(), CodeSimulation.Agreement(image), CodeSimulation.Agreement(image))
  {
  }

  /** The process exits exactly when the source halts, with the same output, tape, pointer and unread input. */
  lemma SourceAndProcessHaltTogether(chunks: seq<string>, image: X86.Image, regs: seq<Word>, s: State, final: State)
    requires Source.DepthOf(Brackets.Seen(chunks)) != Source.Unmatched && |Brackets.Seen(chunks)| <= INT32_MAX
    requires forall c :: c in chunks ==> NoDoubleRead(CString(c))
    requires CodeSimulation.HoldsProgram(image, ParseChunks(EMPTY, chunks).ops, |s.tape|)
    requires s.dp == 0 && |regs| == 8
    requires SourceSimulation.StaysOnTape(Brackets.Seen(chunks), Running(0, s))
    ensures HaltsWith(Source.Step(Brackets.Seen(chunks)), Running(0, s), final) <==>
            CodeSimulation.ProcessExits(image, CodeSimulation.Boot(image, regs, s), final)
  {
    hide CodeSimulation.HoldsProgram, CodeSimulation.Holds, SourceSimulation.StaysOnTape;
    var src, boot := Brackets.Seen(chunks), CodeSimulation.Boot(image, regs, s);
    SourceMeetsProcessor(chunks, image, regs, s);
    if HaltsWith(Source.Step(src), Running(0, s), final) {
      HaltReachesExit(src, image, boot, s, final);
    }
    if CodeSimulation.ProcessExits(image, boot, final) {
      ExitReachesHalt(src, image, boot, s, final);
    }
  }

  lemma HaltReachesExit(src: string, image: X86.Image, boot: X86.Machine, s: State, final: State)
    requires KeepMeeting(Source.Step(src), Running(0, s), X86.Step(image), boot, CodeSimulation.Agreement(image))
    requires HaltsWith(Source.Step(src), Running(0, s), final)
    ensures CodeSimulation.ProcessExits(image, boot, final)
  {
    var a, b := Source.Step(src), X86.Step(image);
    var n: nat :| Iterate(a, n, Running(0, s)) == Halted(final);
    assert MeetsAfterLeft(a, Running(0, s), n, b, boot, CodeSimulation.Agreement(image));
    var i: nat, j: nat :| Meets(a, Running(0, s), i, b, boot, j, CodeSimulation.Agreement(image)) && n <= i;
    FinalStays(a, Running(0, s), n, i);
    assert CodeSimulation.ExitedWith(image, Iterate(b, j, boot), final);
  }

  lemma ExitReachesHalt(src: string, image: X86.Image, boot: X86.Machine, s: State, final: State)
    requires KeepMeeting(Source.Step(src), Running(0, s), X86.Step(image), boot, CodeSimulation.Agreement(image))
    requires CodeSimulation.ProcessExits(image, boot, final)
    ensures HaltsWith(Source.Step(src), Running(0, s), final)
  {
    hide CodeSimulation.Holds;
    var a, b := Source.Step(src), X86.Step(image);
    var n: nat :| CodeSimulation.ExitedWith(image, Iterate(b, n, boot), final);
    assert MeetsAfter(a, Running(0, s), b, boot, n, CodeSimulation.Agreement(image));
    var i: nat, j: nat :| Meets(a, Running(0, s), i, b, boot, j, CodeSimulation.Agreement(image)) && n <= j;
    FinalStays(b, boot, n, j);
    CodeSimulation.HoldsDetermines(image, Iterate(b, n, boot).cpu, final, Iterate(a, i, Running(0, s)).st);
  }
}
