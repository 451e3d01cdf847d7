/** The code generator emits one read for a run of reads. What that makes of a program: the processor
    follows the interpreter on the operations with every count of a read set to 1. */
module SingleReads {
  import opened MachineInts
  import opened Runs
  import opened Slices
  import opened Store
  import opened FlatIr
  import opened CodeSimulation
  import Behaviour
  import Brackets
  import Chunks
  import CodeGen
  import CodeLayout
  import Coverage
  import FrontEnd
  import OpenBrackets
  import PendingLoops
  import Source
  import X86

  function OneRead(op: Op): Op { if op.kind == Read && FitsInt32(op.arg) then Op(Read, 1) else op }

  function OneReads(ops: seq<Op>): (r: seq<Op>)
    ensures |r| == |ops|
  {
    seq(|ops|, i requires 0 <= i < |ops| => OneRead(ops[i]))
  }

  lemma StartsStay(ops: seq<Op>)
    requires CodeGen.ForwardStarts(ops)
    ensures CodeGen.ForwardStarts(OneReads(ops))
  {
  }

  /** The counts of reads leave no trace in the code. */
  lemma {:induction false} SameCode(ops: seq<Op>, i: nat, buf: seq<Byte>)
    requires CodeGen.ForwardStarts(ops) && CodeGen.ForwardStarts(OneReads(ops))
    ensures CodeGen.CompileFrom(OneReads(ops), i, buf) == CodeGen.CompileFrom(ops, i, buf)
    decreases |ops| - i
  {
    hide X86.EncodeAll, CodeGen.LoopStartInstrs, CodeGen.LoopEndInstrs, CodeGen.SyscallInstrs;
    if i < |ops| {
      var op := ops[i];
      if op.kind == LoopStart {
        SameCode(ops, i + 1, []);
        var body := CodeGen.CompileFrom(ops, i + 1, []);
        if body.result == CodeGen.CompileOk {
          SameCode(ops, i + op.arg + 1, buf + X86.EncodeAll(CodeGen.LoopStartInstrs(|body.code|)) + body.code);
        }
      } else if op.kind != LoopEnd && !CodeGen.OperandTooBig(op) {
        assert CodeGen.OpInstrs(OneRead(op)) == CodeGen.OpInstrs(op);
        SameCode(ops, i + 1, buf + X86.EncodeAll(CodeGen.OpInstrs(op)));
      }
    }
  }

  /** What the compiler turns into a program: brackets in pairs or never closed, operands that fit, nothing
      that traps. */
  ghost predicate Accepted(ops: seq<Op>) {
    && OpenBrackets.Open(WithHalt(ops))
    && forall k :: 0 <= k < |ops| ==> !CodeGen.OperandTooBig(ops[k]) && ops[k].kind !in {Set, Halt}
  }

  lemma StaysOpen(ops: seq<Op>)
    requires OpenBrackets.Open(ops)
    ensures OpenBrackets.Open(OneReads(ops))
  {
    var one := OneReads(ops);
    forall k | 0 <= k < |one| ensures OpenBrackets.OpenAt(one, k) {
      assert OpenBrackets.OpenAt(ops, k);
      if ops[k].kind == LoopStart && !OpenBrackets.IsPending(ops[k]) {
        assert PairOk(ops, k) && forall m :: 0 <= m < |ops| ==> OpenBrackets.IsPending(one[m]) == OpenBrackets.IsPending(ops[m]);
      }
    }
  }

  lemma SameImage(ops: seq<Op>, image: X86.Image, memory: nat)
    requires Accepted(ops) && HoldsProgram(image, ops, memory)
    ensures HoldsProgram(image, OneReads(ops), memory)
  {
    hide CodeGen.CompileFrom, X86.Encode, Accepted;
    assert OneReads(WithHalt(ops)) == WithHalt(OneReads(ops));
    StartsStay(WithHalt(ops));
    SameCode(WithHalt(ops), 0, LoadEdi(image.bss) + X86.Encode(X86.PushReg(X86.EDI)));
  }

  /** The code of an accepted program is that of its expansion. */
  lemma ExpansionBuilt(ops: seq<Op>, image: X86.Image, memory: nat) returns (pos: int -> int)
    requires Accepted(ops) && HoldsProgram(image, OneReads(ops), memory)
    ensures var e := PendingLoops.Expand(WithHalt(OneReads(ops)), 0);
            Built(e, image, pos) && pos(0) == 7 && pos(|e|) == |image.code|
    ensures HasSlice(image.code, 0, LoadEdi(image.bss) + X86.Encode(X86.PushReg(X86.EDI)))
  {
    hide HasSlice, CodeGen.CompileFrom, CodeLayout.Laid, X86.Encode, PendingLoops.Expand, OpenBrackets.Open, CodeGen.OperandTooBig;
    var prog := WithHalt(OneReads(ops));
    EncodePush(X86.EDI);
    OpenSingle(ops);
    SingleFits(ops);
    var code;
    code, pos := PendingLoops.OpenLays(prog, 0, LoadEdi(image.bss) + X86.Encode(X86.PushReg(X86.EDI)));
    PendingLoops.ExpandJumpsOk(prog);
    PendingLoops.ExpandJumps(prog, 0);
    PendingLoops.ExpandEnds(prog, 0);
    var e := PendingLoops.Expand(prog, 0);
    forall k | 0 <= k < |e| ensures Executable(e[k]) {
      assert PendingLoops.JumpsAhead(prog, e, k);
      StartsFit(e[k]);
    }
  }

  lemma StartsFit(op: Op)
    ensures op.kind == LoopStart ==> Executable(op)
  {
  }

  lemma OpenSingle(ops: seq<Op>)
    requires Accepted(ops)
    ensures OpenBrackets.Open(WithHalt(OneReads(ops)))
  {
    hide OpenBrackets.Open;
    StaysOpen(WithHalt(ops));
    assert OneReads(WithHalt(ops)) == WithHalt(OneReads(ops));
  }

  lemma SingleFits(ops: seq<Op>)
    requires Accepted(ops)
    ensures var prog := WithHalt(OneReads(ops));
            CodeLayout.InRange(prog, 0, |prog|) && forall op :: op in prog ==> Executable(op)
  {
    hide OpenBrackets.Open;
    var prog := WithHalt(OneReads(ops));
    forall k | 0 <= k < |prog| ensures Executable(prog[k]) {
      if k < |ops| {
        assert prog[k] == OneRead(ops[k]);
      }
    }
  }

  /** What compiled code does, for any counts of reads and any pending `[`: the processor and the interpreter
      with all reads single keep meeting with the same store. */
  lemma CompilerMeaning(ops: seq<Op>, image: X86.Image, regs: seq<Word>, s: State)
    requires Accepted(ops) && HoldsProgram(image, ops, |s.tape|)
    requires s.dp == 0 && s.OnTape() && |regs| == 8
    requires StaysOnTape(WithHalt(OneReads(ops)), Running(0, s))
    ensures SameRuns(Step(WithHalt(OneReads(ops))), Running(0, s), X86.Step(image), Boot(image, regs, s), Agreement(image))
  {
    hide HoldsProgram, Built, Accepted, HasSlice, PendingLoops.Expand, OpenBrackets.Open, StaysOnTape;
    SameImage(ops, image, |s.tape|);
    MemoryFits(ops, image, |s.tape|);
    OpenSingle(ops);
    var pos := ExpansionBuilt(ops, image, |s.tape|);
    var prog := WithHalt(OneReads(ops));
    ExpansionStays(prog, s);
    BuiltRuns(PendingLoops.Expand(prog, 0), image, pos, regs, s);
    ExpansionMeets(prog, image, regs, s);
  }

  lemma ExpansionStays(prog: seq<Op>, s: State)
    requires OpenBrackets.Open(prog) && prog != [] && prog[|prog| - 1].kind == Halt
    ensures StaysOnTape(prog, Running(0, s)) <==> StaysOnTape(PendingLoops.Expand(prog, 0), Running(0, s))
  {
    hide OpenBrackets.Open, PendingLoops.Expand, NoWrap, Step;
    var e, c := PendingLoops.Expand(prog, 0), Running(0, s);
    forall n: nat ensures NoWrap(prog, Iterate(Step(prog), n, c)) <==> NoWrap(e, Iterate(Step(e), n, c)) {
      PendingLoops.ExpansionRuns(prog, s, n);
    }
  }

  lemma ExpansionMeets(prog: seq<Op>, image: X86.Image, regs: seq<Word>, s: State)
    requires OpenBrackets.Open(prog) && prog != [] && prog[|prog| - 1].kind == Halt
    requires SameRuns(Step(PendingLoops.Expand(prog, 0)), Running(0, s), X86.Step(image), Boot(image, regs, s), Agreement(image))
    ensures SameRuns(Step(prog), Running(0, s), X86.Step(image), Boot(image, regs, s), Agreement(image))
  {
    hide OpenBrackets.Open, PendingLoops.Expand, Holds, PendingLoops.InCopy;
    var e, c, b, m := PendingLoops.Expand(prog, 0), Running(0, s), X86.Step(image), Boot(image, regs, s);
    forall n: nat, k: nat
      ensures Meets(Step(e), c, n, b, m, k, Agreement(image)) ==> Meets(Step(prog), c, n, b, m, k, Agreement(image))
    {
      PendingLoops.ExpansionRuns(prog, s, n);
    }
    forall n: nat ensures MeetsAt(Step(prog), c, n, b, m, Agreement(image)) {
      assert MeetsAt(Step(e), c, n, b, m, Agreement(image));
    }
    forall k: nat ensures MeetsAfter(Step(prog), c, b, m, k, Agreement(image)) {
      assert MeetsAfter(Step(e), c, b, m, k, Agreement(image));
    }
  }

  /** The process exits exactly when that interpreter halts, and leaves the same store. */
  lemma ExitsLikeSingleReads(ops: seq<Op>, image: X86.Image, regs: seq<Word>, s: State, final: State)
    requires Accepted(ops) && HoldsProgram(image, ops, |s.tape|)
    requires s.dp == 0 && s.OnTape() && |regs| == 8
    requires StaysOnTape(WithHalt(OneReads(ops)), Running(0, s))
    ensures Behaviour.HaltsWith(Step(WithHalt(OneReads(ops))), Running(0, s), final)
            <==> ProcessExits(image, Boot(image, regs, s), final)
  {
    hide HoldsProgram, StaysOnTape, Accepted, Holds;
    CompilerMeaning(ops, image, regs, s);
    var a, b, c, boot := Step(WithHalt(OneReads(ops))), X86.Step(image), Running(0, s), Boot(image, regs, s);
    if Behaviour.HaltsWith(a, c, final) {
      var n: nat :| Iterate(a, n, c) == Halted(final);
      assert MeetsAt(a, c, n, b, boot, Agreement(image));
      var m: nat :| Meets(a, c, n, b, boot, m, Agreement(image));
      assert ExitedWith(image, Iterate(b, m, boot), final);
    }
    if ProcessExits(image, boot, final) {
      var m: nat :| ExitedWith(image, Iterate(b, m, boot), final);
      assert MeetsAfter(a, c, b, boot, m, Agreement(image));
      var n: nat, k: nat :| Meets(a, c, n, b, boot, k, Agreement(image)) && m <= k;
      FinalStays(b, boot, m, k);
      HoldsDetermines(image, Iterate(b, m, boot).cpu, final, Iterate(a, n, c).st);
    }
  }

  /** Every text below 2 GiB without an unmatched `]` is accepted. */
  lemma ParsedIsAccepted(chunks: seq<string>)
    requires FrontEnd.ParseChunks(FrontEnd.EMPTY, chunks).ok && |Brackets.Seen(chunks)| <= INT32_MAX
    ensures Accepted(FrontEnd.ParseChunks(FrontEnd.EMPTY, chunks).ops)
  {
    hide OpenBrackets.Open;
    OpenBrackets.ParsedIsOpen(chunks);
    var src, ops := Brackets.Seen(chunks), FrontEnd.ParseChunks(FrontEnd.EMPTY, chunks).ops;
    var cut := Coverage.ParserCovers(chunks);
    forall k | 0 <= k < |ops| ensures !CodeGen.OperandTooBig(ops[k]) && ops[k].kind !in {Set, Halt} {
      assert Coverage.Piece(src, ops, cut, k);
      Coverage.NetBound(ops[k].kind, src[cut[k]..cut[k + 1]]);
    }
  }

  // ----- a program that shows the difference -----

  const TWO_READS := [Op(Read, 2)]

  /** `,,` parses to one operation that is accepted by the compiler. */
  lemma TwoReadsParsed()
    ensures FrontEnd.ParseChunks(FrontEnd.EMPTY, [",,"]).ops == TWO_READS && Accepted(TWO_READS)
    ensures OneReads(TWO_READS) == [Op(Read, 1)]
  {
    Chunks.SplitRun();
    forall k | 0 <= k < 2 ensures OpenBrackets.OpenAt(WithHalt(TWO_READS), k) {
    }
  }

  /** On the input 1, 2 the text `,,` leaves 2 in the cell, and its executable leaves 1 and reads no further. */
  lemma DoubleReadDiffers(image: X86.Image, regs: seq<Word>, tape: seq<Byte>)
    requires |tape| > 0 && |regs| == 8
    requires HoldsProgram(image, FrontEnd.ParseChunks(FrontEnd.EMPTY, [",,"]).ops, |tape|)
    ensures var s := State(0, tape, [1, 2], []);
            && Behaviour.HaltsWith(Source.Step(",,"), Running(0, s), State(0, tape[0 := 2], [], []))
            && ProcessExits(image, Boot(image, regs, s), State(0, tape[0 := 1], [2], []))
            && !ProcessExits(image, Boot(image, regs, s), State(0, tape[0 := 2], [], []))
  {
    hide HoldsProgram, Accepted, ProcessExits;
    var s := State(0, tape, [1, 2], []);
    TwoReadsParsed();
    TextReadsTwice(tape);
    OneReadRuns(tape);
    ExitsLikeSingleReads(TWO_READS, image, regs, s, State(0, tape[0 := 1], [2], []));
    ExitsLikeSingleReads(TWO_READS, image, regs, s, State(0, tape[0 := 2], [], []));
  }

  lemma TextReadsTwice(tape: seq<Byte>)
    requires |tape| > 0
    ensures Behaviour.HaltsWith(Source.Step(",,"), Running(0, State(0, tape, [1, 2], [])), State(0, tape[0 := 2], [], []))
  {
    var step, s := Source.Step(",,"), State(0, tape, [1, 2], []);
    var t, u := State(0, tape[0 := 1], [2], []), State(0, tape[0 := 2], [], []);
    assert step(Running(0, s)) == Running(1, t) && step(Running(1, t)) == Running(2, u) && step(Running(2, u)) == Halted(u);
    assert Iterate(step, 3, Running(0, s)) == Iterate(step, 2, Running(1, t)) == Iterate(step, 1, Running(2, u)) == Iterate(step, 0, Halted(u));
  }

  /** The single read halts with 1 in the cell, whatever the number of steps it is given. */
  lemma OneReadRuns(tape: seq<Byte>)
    requires |tape| > 0
    ensures var step, c := Step(WithHalt([Op(Read, 1)])), Running(0, State(0, tape, [1, 2], []));
            && StaysOnTape(WithHalt([Op(Read, 1)]), c)
            && Behaviour.HaltsWith(step, c, State(0, tape[0 := 1], [2], []))
            && !Behaviour.HaltsWith(step, c, State(0, tape[0 := 2], [], []))
  {
    var prog, s, t := WithHalt([Op(Read, 1)]), State(0, tape, [1, 2], []), State(0, tape[0 := 1], [2], []);
    var step, c := Step(prog), Running(0, s);
    assert ReadN(s, 1) == ReadN(s.Read(), 0) == t;
    assert step(c) == Running(1, t) && step(Running(1, t)) == Halted(t);
    assert Iterate(step, 2, c) == Iterate(step, 1, Running(1, t)) == Iterate(step, 0, Halted(t));
    assert Iterate(step, 1, c) == Iterate(step, 0, Running(1, t));
    forall n: nat ensures Iterate(step, n, c) in [c, Running(1, t), Halted(t)] {
      if n >= 2 {
        FinalStays(step, c, 2, n);
      }
    }
    assert t.tape[0] == 1 && State(0, tape[0 := 2], [], []).tape[0] == 2;
  }
}
