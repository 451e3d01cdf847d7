/** The emitted bytes, run on the processor, do what the flat interpreter does. */
module CodeSimulation {
  import opened MachineInts
  import opened Runs
  import opened Slices
  import opened Store
  import opened X86
  import opened CodeGen
  import opened CodeLayout
  import FlatIr

  type Op = FlatIr.Op

  /** edi points at the current cell; the other registers and ZF are scratch. */
  ghost predicate Holds(image: Image, cpu: Cpu, s: State) {
    && |cpu.regs| == 8
    && image.bss + |s.tape| <= 0x1_0000_0000
    && s.OnTape()
    && cpu.regs[EDI] == image.bss + s.dp
    && cpu.tape == s.tape && cpu.input == s.input && cpu.output == s.output
  }

  /** Running `block` from `cpu` takes the store to `s`, ending right behind the block. */
  ghost predicate Performs(image: Image, block: seq<Instr>, cpu: Cpu, s: State) {
    var m := ExecuteAll(image, block, Active(cpu));
    m.Active? && m.cpu.eip == cpu.eip + |EncodeAll(block)| && Holds(image, m.cpu, s)
  }

  lemma ExecuteOne(image: Image, i: Instr, cpu: Cpu)
    ensures ExecuteAll(image, [i], Active(cpu)) == Execute(image, i, cpu.(eip := cpu.eip + |EncodeAll([i])|))
  {
    hide Execute, Encode;
    EncodeAllShort([i]);
    assert [i][1..] == [];
  }

  lemma {:induction false} ExecuteConcat(image: Image, a: seq<Instr>, b: seq<Instr>, m: Machine)
    ensures ExecuteAll(image, a + b, m) == ExecuteAll(image, b, ExecuteAll(image, a, m))
  {
    hide Execute, Encode;
    if a == [] {
      assert a + b == b;
    } else if m.Active? {
      assert (a + b)[0] == a[0] && (a + b)[1..] == a[1..] + b;
      ExecuteConcat(image, a[1..], b, Execute(image, a[0], m.cpu.(eip := m.cpu.eip + |Encode(a[0])|)));
    }
  }

  lemma PerformsBoth(image: Image, a: seq<Instr>, b: seq<Instr>, cpu: Cpu, s: State, t: State)
    requires Performs(image, a, cpu, s)
    requires Performs(image, b, ExecuteAll(image, a, Active(cpu)).cpu, t)
    ensures Performs(image, a + b, cpu, t)
  {
    hide ExecuteAll, EncodeAll;
    ExecuteConcat(image, a, b, Active(cpu));
    EncodeAllConcat(a, b);
  }

  /** Subtracting the magnitude is adding the argument, also when 2^31 turns into -2^31. */
  lemma MagnitudeWraps(x: int, arg: int)
    requires FitsInt32(arg)
    ensures arg > 0 ==> Signed32(Wrap32(arg)) == arg
    ensures arg < 0 ==> Wrap32(x - Signed32(Wrap32(-arg))) == Wrap32(x + arg)
  {
    if arg > INT32_MIN {
      Signed32OfWrap(arg);
      Signed32OfWrap(-arg);
    }
  }

  lemma EdiMoves(image: Image, arg: int, cpu: Cpu)
    requires |cpu.regs| == 8 && FitsInt32(arg) && arg != 0
    ensures var m := Execute(image, AddSubInstrs(RegDirect, arg)[0], cpu);
            m == Active(cpu.(regs := cpu.regs[EDI := Wrap32(cpu.regs[EDI] as int + arg)], zf := m.cpu.zf))
  {
    hide Signed32, Wrap32;
    MagnitudeWraps(cpu.regs[EDI], arg);
  }

  lemma PerformsTape(image: Image, arg: int, cpu: Cpu, s: State)
    requires Holds(image, cpu, s) && FitsInt32(arg) && 0 <= s.dp + arg < |s.tape|
    ensures Performs(image, AddSubInstrs(RegDirect, arg), cpu, s.Move(arg))
  {
    hide Encode, EncodeAll, Execute;
    EncodeNothing();
    if arg != 0 {
      var block := AddSubInstrs(RegDirect, arg);
      EdiMoves(image, arg, cpu.(eip := cpu.eip + |EncodeAll(block)|));
      ExecuteOne(image, block[0], cpu);
    }
  }

  /** `op` on the current cell with the operand given in the instruction. */
  lemma CellChanges(image: Image, op: Alu, y: int, cpu: Cpu, s: State)
    requires Holds(image, cpu, s)
    ensures var m := AluMem(image, cpu, op, EDI, y);
            m.Active? && m.cpu.eip == cpu.eip && m.cpu.regs == cpu.regs
            && Holds(image, m.cpu, match op case Add => s.AddCell(y) case Sub => s.AddCell(-y) case Cmp => s)
            && (op.Cmp? && y == 0 ==> m.cpu.zf == (s.Cell() == 0))
  {
  }

  lemma PerformsCell(image: Image, arg: int, cpu: Cpu, s: State)
    requires Holds(image, cpu, s) && FitsInt32(arg)
    ensures Performs(image, AddSubInstrs(RegIndirect, arg), cpu, s.AddCell(arg))
  {
    hide Encode, EncodeAll, AluMem;
    EncodeNothing();
    var block := AddSubInstrs(RegIndirect, arg);
    var op, size := if arg > 0 then Add else Sub, if arg > 0 then arg else -arg;
    var after := cpu.(eip := cpu.eip + |EncodeAll(block)|);
    if arg == 0 {
      assert s.AddCell(0) == s;
    } else if -INT8_MAX <= arg <= INT8_MAX {
      ExecuteOne(image, block[0], cpu);
      CellChanges(image, op, size, after, s);
    } else {
      PerformsLargeCell(image, op, size, cpu, s);
    }
  }

  lemma PerformsMov(image: Image, x: Word, cpu: Cpu, s: State)
    requires Holds(image, cpu, s)
    ensures Performs(image, [MovImm(EAX, x, true)], cpu, s)
    ensures var mid := ExecuteAll(image, [MovImm(EAX, x, true)], Active(cpu)).cpu; |mid.regs| == 8 && mid.regs[EAX] == x
  {
    hide Encode, EncodeAll, ExecuteAll;
    ExecuteOne(image, MovImm(EAX, x, true), cpu);
  }

  lemma PerformsAlu(image: Image, op: Alu, cpu: Cpu, s: State)
    requires Holds(image, cpu, s) && !op.Cmp?
    ensures var y: int := Wrap8(cpu.regs[EAX]);
            Performs(image, [AluMemReg(op, EDI, EAX)], cpu, if op.Add? then s.AddCell(y) else s.AddCell(-y))
  {
    hide Encode, EncodeAll, AluMem;
    var alu := AluMemReg(op, EDI, EAX);
    ExecuteOne(image, alu, cpu);
    CellChanges(image, op, Wrap8(cpu.regs[EAX]), cpu.(eip := cpu.eip + |EncodeAll([alu])|), s);
  }

  lemma PerformsLargeCell(image: Image, op: Alu, size: int, cpu: Cpu, s: State)
    requires Holds(image, cpu, s) && !op.Cmp?
    ensures Performs(image, [MovImm(EAX, Wrap32(size), true), AluMemReg(op, EDI, EAX)], cpu,
                     s.AddCell(if op.Add? then size else -size))
  {
    hide Encode, EncodeAll, ExecuteAll, Performs, Wrap32;
    var mov, alu := MovImm(EAX, Wrap32(size), true), AluMemReg(op, EDI, EAX);
    PerformsMov(image, Wrap32(size), cpu, s);
    var mid := ExecuteAll(image, [mov], Active(cpu)).cpu;
    PerformedHolds(image, [mov], cpu, s);
    PerformsAlu(image, op, mid, s);
    LowByte(s.Cell(), size);
    PerformsBoth(image, [mov], [alu], cpu, s, s.AddCell(if op.Add? then size else -size));
    assert [mov] + [alu] == [mov, alu];
  }

  lemma PerformedHolds(image: Image, block: seq<Instr>, cpu: Cpu, s: State)
    requires Performs(image, block, cpu, s)
    ensures Holds(image, ExecuteAll(image, block, Active(cpu)).cpu, s)
  {
    hide ExecuteAll, EncodeAll;
  }

  lemma RunMov(image: Image, r: Reg, i: Instr, x: Word, cpu: Cpu)
    requires |cpu.regs| == 8
    requires i == MovImm(r, x, false) || (i.MovReg? && i.dst == r && x == cpu.regs[i.src])
    ensures ExecuteAll(image, [i], Active(cpu)) ==
            Active(cpu.(eip := cpu.eip + |EncodeAll([i])|, regs := cpu.regs[r := x]))
  {
    hide Encode, EncodeAll;
    ExecuteOne(image, i, cpu);
  }

  /** The arguments of a system call are in place before the interrupt. */
  lemma SyscallArguments(image: Image, number: Word, fd: Word, cpu: Cpu)
    requires |cpu.regs| == 8
    ensures var b := SyscallInstrs(number, fd)[..4];
            ExecuteAll(image, b, Active(cpu)) ==
            Active(cpu.(eip := cpu.eip + |EncodeAll(b)|,
                        regs := cpu.regs[EAX := number][EBX := fd][ECX := cpu.regs[EDI]][EDX := 1]))
  {
    hide Execute, ExecuteAll, Encode, EncodeAll;
    var b := SyscallInstrs(number, fd);
    RunMov(image, EAX, b[0], number, cpu);
    var c1 := ExecuteAll(image, [b[0]], Active(cpu)).cpu;
    RunMov(image, EBX, b[1], fd, c1);
    var c2 := ExecuteAll(image, [b[1]], Active(c1)).cpu;
    RunMov(image, ECX, b[2], cpu.regs[EDI], c2);
    var c3 := ExecuteAll(image, [b[2]], Active(c2)).cpu;
    RunMov(image, EDX, b[3], 1, c3);
    ExecuteConcat(image, [b[0]], [b[1]], Active(cpu));
    ExecuteConcat(image, [b[0]] + [b[1]], [b[2]], Active(cpu));
    ExecuteConcat(image, [b[0]] + [b[1]] + [b[2]], [b[3]], Active(cpu));
    EncodeAllConcat([b[0]], [b[1]]);
    EncodeAllConcat([b[0]] + [b[1]], [b[2]]);
    EncodeAllConcat([b[0]] + [b[1]] + [b[2]], [b[3]]);
    assert [b[0]] + [b[1]] + [b[2]] + [b[3]] == b[..4];
  }

  lemma PerformsSyscall(image: Image, number: Word, fd: Word, cpu: Cpu, s: State)
    requires Holds(image, cpu, s)
    requires (number, fd) == (SYS_WRITE, 1) || (number, fd) == (SYS_READ, 0)
    ensures Performs(image, SyscallInstrs(number, fd), cpu, if number == SYS_WRITE then s.Write() else s.Read())
  {
    hide Encode, EncodeAll, ExecuteAll;
    var b := SyscallInstrs(number, fd);
    SyscallArguments(image, number, fd, cpu);
    var mid := ExecuteAll(image, b[..4], Active(cpu)).cpu;
    ExecuteOne(image, b[4], mid);
    PerformsBoth(image, b[..4], [b[4]], cpu, s, if number == SYS_WRITE then s.Write() else s.Read());
    assert b[..4] + [b[4]] == b;
  }

  lemma {:induction false} PerformsWrite(image: Image, n: nat, cpu: Cpu, s: State)
    requires Holds(image, cpu, s)
    ensures Performs(image, WriteInstrs(n), cpu, WriteN(s, n))
  {
    hide Encode, EncodeAll, SyscallInstrs, Holds;
    if n == 0 {
      EncodeNothing();
    } else {
      PerformsWrite(image, n - 1, cpu, s);
      var mid := ExecuteAll(image, WriteInstrs(n - 1), Active(cpu)).cpu;
      assert s.OnTape() by { HoldsOnTape(image, cpu, s); }
      WriteNStep(s, n - 1);
      PerformsSyscall(image, SYS_WRITE, 1, mid, WriteN(s, n - 1));
      PerformsBoth(image, WriteInstrs(n - 1), SyscallInstrs(SYS_WRITE, 1), cpu, WriteN(s, n - 1), WriteN(s, n));
    }
  }

  lemma HoldsOnTape(image: Image, cpu: Cpu, s: State)
    requires Holds(image, cpu, s)
    ensures s.OnTape()
  {
  }

  lemma RunExit(image: Image, arg: int, cpu: Cpu, s: State)
    requires Holds(image, cpu, s)
    ensures var m := ExecuteAll(image, ExitInstrs(arg), Active(cpu));
            m.Exited? && m.status == Wrap32(arg) && Holds(image, m.cpu, s)
  {
    hide Encode, EncodeAll, ExecuteAll;
    var b := ExitInstrs(arg);
    RunMov(image, EAX, b[0], SYS_EXIT, cpu);
    var c1 := ExecuteAll(image, [b[0]], Active(cpu)).cpu;
    RunMov(image, EBX, b[1], Wrap32(arg), c1);
    var c2 := ExecuteAll(image, [b[1]], Active(c1)).cpu;
    ExecuteOne(image, b[2], c2);
    ExecuteConcat(image, [b[0]], [b[1]], Active(cpu));
    ExecuteConcat(image, [b[0]] + [b[1]], [b[2]], Active(cpu));
    assert [b[0]] + [b[1]] + [b[2]] == b;
  }

  /** Compare the current cell with zero and jump to `target`, or fall through. */
  lemma RunBranch(image: Image, jump: Instr, cpu: Cpu, s: State, target: int)
    requires Holds(image, cpu, s) && jump.Jcc?
    requires var block := [AluMemImm(Cmp, EDI, 0), jump];
             target == cpu.eip + |EncodeAll(block)| + jump.rel && 0 <= target < 0x1_0000_0000
    ensures var block := [AluMemImm(Cmp, EDI, 0), jump];
            var m := ExecuteAll(image, block, Active(cpu));
            m.Active? && Holds(image, m.cpu, s)
            && m.cpu.eip == if (s.Cell() == 0) == jump.whenZero then target else cpu.eip + |EncodeAll(block)|
  {
    hide Encode, EncodeAll, ExecuteAll, AluMem;
    var cmp := AluMemImm(Cmp, EDI, 0);
    ExecuteOne(image, cmp, cpu);
    CellChanges(image, Cmp, 0, cpu.(eip := cpu.eip + |EncodeAll([cmp])|), s);
    var mid := ExecuteAll(image, [cmp], Active(cpu)).cpu;
    ExecuteOne(image, jump, mid);
    ExecuteConcat(image, [cmp], [jump], Active(cpu));
    EncodeAllConcat([cmp], [jump]);
    assert [cmp] + [jump] == [cmp, jump];
  }

  // ----- the simulation -----

  /** What the simulation asks of an operation: its operand was accepted, a read reads one byte
      (the emitted code reads one byte whatever the count) and nothing traps. */
  predicate Executable(op: Op) {
    && !OperandTooBig(op)
    && op.kind != FlatIr.Set
    && (op.kind == FlatIr.Read ==> op.arg == 1)
    && (op.kind == FlatIr.Halt ==> op.arg == 0)
  }

  ghost predicate Built(prog: seq<Op>, image: Image, pos: int -> int) {
    && JumpsOk(prog)
    && (forall k :: 0 <= k < |prog| ==> Executable(prog[k]))
    && |prog| > 0 && prog[|prog| - 1].kind == FlatIr.Halt
    && |image.code| < 0x8000_0000 && image.origin + |image.code| < 0x1_0000_0000
    && Laid(prog, image.code, pos, 0, |prog|)
  }

  /** Same store, and both running or both over, the process with exit status 0. */
  ghost predicate Agree(image: Image, c: Config, m: Machine) {
    match m
    case Active(cpu) => c.Running? && Holds(image, cpu, c.st)
    case Exited(status, cpu) => c.Halted? && status == 0 && Holds(image, cpu, c.st)
    case Stuck(_) => false
  }

  ghost predicate Related(prog: seq<Op>, image: Image, pos: int -> int, c: Config, m: Machine) {
    && Agree(image, c, m)
    && (c.Running? ==> 0 <= c.pc < |prog| && m.cpu.eip == image.origin + pos(c.pc))
    && FlatIr.StaysOnTape(prog, c)
  }

  function Rank(prog: seq<Op>): Config -> nat {
    (c: Config) => if c.Running? && 0 <= c.pc <= |prog| then |prog| - c.pc else 0
  }

  lemma NextInside(prog: seq<Op>, k: nat)
    requires JumpsOk(prog) && |prog| > 0 && prog[|prog| - 1].kind == FlatIr.Halt && k < |prog|
    ensures prog[k].kind != FlatIr.Halt ==> k + 1 < |prog|
    ensures IsLoop(prog[k]) ==> 0 <= Target(prog, k) < |prog|
  {
    assert JumpOk(prog, k);
  }

  /** Executing the segment of operation `ip` is one step of the interpreter. */
  lemma SegmentSimulates(prog: seq<Op>, image: Image, pos: int -> int, ip: nat, cpu: Cpu, s: State)
    requires Built(prog, image, pos) && ip < |prog| && Holds(image, cpu, s)
    requires cpu.eip == image.origin + pos(ip) && FlatIr.NoWrap(prog, Running(ip, s))
    ensures var m := ExecuteAll(image, SegmentInstrs(prog, pos, ip), Active(cpu));
            var c := FlatIr.Execute(prog[ip], ip, s);
            Agree(image, c, m) && (c.Running? ==> 0 <= c.pc < |prog| && m.cpu.eip == image.origin + pos(c.pc))
  {
    hide HasSlice, Encode, EncodeAll, ExecuteAll, Execute, AddSubInstrs, WriteInstrs, SyscallInstrs, ExitInstrs,
         LoopStartInstrs, LoopEndInstrs, Laid;
    var op := prog[ip];
    NextInside(prog, ip);
    PlacedAt(prog, image.code, pos, ip);
    match op.kind
    case Tape => PerformsTape(image, op.arg, cpu, s);
    case Cell => PerformsCell(image, op.arg, cpu, s);
    case Write => PerformsWrite(image, if op.arg > 0 then op.arg else 0, cpu, s);
    case Read =>
      PerformsSyscall(image, SYS_READ, 0, cpu, s);
      assert ReadN(s, 1) == s.Read();
    case Halt => RunExit(image, op.arg, cpu, s);
    case LoopStart => BranchSimulates(prog, image, pos, ip, cpu, s);
    case LoopEnd => BranchSimulates(prog, image, pos, ip, cpu, s);
  }

  lemma PlacedAt(prog: seq<Op>, code: seq<Byte>, pos: int -> int, k: nat)
    requires Laid(prog, code, pos, 0, |prog|) && k < |prog|
    ensures Placed(prog, code, pos, k)
  {
  }

  lemma BranchSimulates(prog: seq<Op>, image: Image, pos: int -> int, ip: nat, cpu: Cpu, s: State)
    requires Built(prog, image, pos) && ip < |prog| && Holds(image, cpu, s) && IsLoop(prog[ip])
    requires cpu.eip == image.origin + pos(ip)
    ensures var m := ExecuteAll(image, SegmentInstrs(prog, pos, ip), Active(cpu));
            var c := FlatIr.Execute(prog[ip], ip, s);
            Agree(image, c, m) && c.Running? && 0 <= c.pc < |prog| && m.cpu.eip == image.origin + pos(c.pc)
  {
    hide HasSlice, Encode, EncodeAll, ExecuteAll, Execute, LoopStartInstrs, LoopEndInstrs, Laid;
    PlacedAt(prog, image.code, pos, ip);
    NextInside(prog, ip);
    assert JumpOk(prog, ip);
    JumpLands(prog, image.code, pos, ip);
    var block := SegmentInstrs(prog, pos, ip);
    assert block == [AluMemImm(Cmp, EDI, 0), block[1]];
    Monotone(prog, image.code, pos, Target(prog, ip), |prog|);
    RunBranch(image, block[1], cpu, s, image.origin + pos(Target(prog, ip)));
  }

  ghost function Relation(prog: seq<Op>, image: Image, pos: int -> int): (Config, Machine) -> bool {
    (c: Config, m: Machine) => Related(prog, image, pos, c, m)
  }

  lemma StepSimulates(prog: seq<Op>, image: Image, pos: int -> int, c: Config, m: Machine) returns (n: nat)
    requires Built(prog, image, pos) && Related(prog, image, pos, c, m)
    ensures Advances(FlatIr.Step(prog), Step(image), Relation(prog, image, pos), Rank(prog), c, m, n)
  {
    FlatIr.StaysOnTapeStep(prog, c);
    if c.Running? {
      hide HasSlice, Encode, EncodeAll, ExecuteAll, Execute, Laid, FlatIr.StaysOnTape, SegmentInstrs;
      var block := SegmentInstrs(prog, pos, c.pc);
      PlacedAt(prog, image.code, pos, c.pc);
      SegmentEmitted(prog, image.code, pos, c.pc);
      SegmentSimulates(prog, image, pos, c.pc, m.cpu, c.st);
      RunBlock(image, block, m);
      n := |block|;
      if n == 0 {
        EmptySegment(prog, pos, c.pc);
      }
    } else {
      n := 1;
      assert Iterate(Step(image), 1, m) == Step(image)(m);
    }
  }

  lemma EmptySegment(prog: seq<Op>, pos: int -> int, k: nat)
    requires k < |prog| && SegmentInstrs(prog, pos, k) == []
    ensures prog[k].kind in {FlatIr.Tape, FlatIr.Cell, FlatIr.Write}
  {
  }

  lemma BuiltSimulates(prog: seq<Op>, image: Image, pos: int -> int)
    requires Built(prog, image, pos)
    ensures Simulation(FlatIr.Step(prog), Step(image), Relation(prog, image, pos), Rank(prog))
  {
    forall c, m ensures CanAdvance(FlatIr.Step(prog), Step(image), Relation(prog, image, pos), Rank(prog), c, m) {
      if Related(prog, image, pos, c, m) {
        var n := StepSimulates(prog, image, pos, c, m);
      }
    }
  }

  ghost function Agreement(image: Image): (Config, Machine) -> bool {
    (c: Config, m: Machine) => Agree(image, c, m)
  }

  /** The section of a compiled program: five bytes that load edi, then the output of the compiler. */
  function LoadEdi(bss: Word): seq<Byte> { [0xB8 + EDI] + Le32(bss) }

  function Boot(image: Image, regs: seq<Word>, s: State): Machine {
    Active(Cpu(image.origin, regs, false, s.tape, s.input, s.output))
  }

  /** Operations the compiler turns into code with the same effect. */
  ghost predicate Compilable(ops: seq<Op>) {
    && FlatIr.Balanced(ops)
    && forall k :: 0 <= k < |ops| ==> Executable(ops[k]) && ops[k].kind != FlatIr.Halt
  }

  /** The image holds the output of the compiler, everything fits a 32-bit address space. */
  ghost predicate HoldsProgram(image: Image, ops: seq<Op>, memory: nat) {
    && ForwardStarts(FlatIr.WithHalt(ops))
    && image.code == CompileFrom(FlatIr.WithHalt(ops), 0, LoadEdi(image.bss) + Encode(PushReg(EDI))).code
    && |image.code| < 0x8000_0000 && image.origin + |image.code| < 0x1_0000_0000
    && image.bss + memory <= 0x1_0000_0000
  }

  lemma ProgramBuilt(ops: seq<Op>, image: Image, memory: nat) returns (pos: int -> int)
    requires Compilable(ops) && HoldsProgram(image, ops, memory)
    ensures Built(FlatIr.WithHalt(ops), image, pos) && pos(0) == 7
    ensures HasSlice(image.code, 0, LoadEdi(image.bss) + Encode(PushReg(EDI)))
  {
    hide HasSlice, CompileFrom, Laid, Encode;
    EncodePush(EDI);
    var code;
    code, pos := ProgramLaid(ops, LoadEdi(image.bss) + Encode(PushReg(EDI)));
    BalancedWithHalt(ops);
    BalancedJumps(FlatIr.WithHalt(ops));
  }

  /** Compiler correctness. The interpreter from the first operation and the processor from the entry point
      keep meeting with the same store, as long as the pointer of the interpreter stays on the tape. */
  lemma CompilerCorrect(ops: seq<Op>, image: Image, regs: seq<Word>, s: State)
    requires Compilable(ops) && HoldsProgram(image, ops, |s.tape|)
    requires s.dp == 0 && s.OnTape() && |regs| == 8
    requires FlatIr.StaysOnTape(FlatIr.WithHalt(ops), Running(0, s))
    ensures SameRuns(FlatIr.Step(FlatIr.WithHalt(ops)), Running(0, s),
                     Step(image), Boot(image, regs, s), Agreement(image))
  {
    hide Compilable, HoldsProgram, Built, FlatIr.StaysOnTape, HasSlice, Encode;
    MemoryFits(ops, image, |s.tape|);
    var pos := ProgramBuilt(ops, image, |s.tape|);
    BuiltRuns(FlatIr.WithHalt(ops), image, pos, regs, s);
  }

  lemma BuiltRuns(prog: seq<Op>, image: Image, pos: int -> int, regs: seq<Word>, s: State)
    requires Built(prog, image, pos) && pos(0) == 7 && image.bss + |s.tape| <= 0x1_0000_0000
    requires HasSlice(image.code, 0, LoadEdi(image.bss) + Encode(PushReg(EDI)))
    requires s.dp == 0 && s.OnTape() && |regs| == 8 && FlatIr.StaysOnTape(prog, Running(0, s))
    ensures SameRuns(FlatIr.Step(prog), Running(0, s), Step(image), Boot(image, regs, s), Agreement(image))
  {
    hide Built, FlatIr.StaysOnTape, HasSlice, Encode;
    var start := Running(0, s);
    var m := BootReaches(image, regs, s);
    assert prog != [] by { BuiltHasHalt(prog, image, pos); }
    BuiltSimulates(prog, image, pos);
    SimulationGivesSameRuns(FlatIr.Step(prog), Step(image), Relation(prog, image, pos), Rank(prog), start, m);
    SameRunsWeaken(FlatIr.Step(prog), start, Step(image), m, Relation(prog, image, pos), Agreement(image));
    SameRunsFromEarlier(FlatIr.Step(prog), start, Step(image), Boot(image, regs, s), 2, Agreement(image));
  }

  lemma BuiltHasHalt(prog: seq<Op>, image: Image, pos: int -> int)
    requires Built(prog, image, pos)
    ensures prog != []
  {
  }

  lemma MemoryFits(ops: seq<Op>, image: Image, memory: nat)
    requires HoldsProgram(image, ops, memory)
    ensures image.bss + memory <= 0x1_0000_0000
  {
  }

  // ----- reads -----

  /** Whatever count the compiler accepts, the code it emits reads one byte. */
  lemma EveryReadIsOne(image: Image, n: int, cpu: Cpu, s: State)
    requires !OperandTooBig(FlatIr.Op(FlatIr.Read, n)) && Holds(image, cpu, s)
    ensures s.OnTape() && Performs(image, OpInstrs(FlatIr.Op(FlatIr.Read, n)), cpu, s.Read())
  {
    hide SyscallInstrs, Performs;
    PerformsSyscall(image, SYS_READ, 0, cpu, s);
  }

  /** The emitted code of a read does what the interpreter does, from every state of the processor. */
  ghost predicate ReadAgrees(image: Image, n: int) {
    var op := FlatIr.Op(FlatIr.Read, n);
    forall cpu, s :: Holds(image, cpu, s) ==> Performs(image, OpInstrs(op), cpu, FlatIr.Execute(op, 0, s).st)
  }

  /** That is so exactly when the count is 1. */
  lemma ReadOnceOnly(image: Image, n: int)
    requires !OperandTooBig(FlatIr.Op(FlatIr.Read, n))
    ensures ReadAgrees(image, n) <==> n == 1
  {
    hide OpInstrs, ExecuteAll, EncodeAll;
    var op := FlatIr.Op(FlatIr.Read, n);
    if n == 1 {
      forall cpu, s | Holds(image, cpu, s) ensures Performs(image, OpInstrs(op), cpu, FlatIr.Execute(op, 0, s).st) {
        EveryReadIsOne(image, n, cpu, s);
        assert ReadN(s, 1) == ReadN(s.Read(), 0);
      }
    } else {
      var s := State(0, [0], [1, 2], []);
      var cpu := Cpu(0, [0, 0, 0, 0, 0, 0, 0, image.bss], false, s.tape, s.input, s.output);
      EveryReadIsOne(image, n, cpu, s);
      ReadsDiffer(n);
    }
  }

  lemma ReadsDiffer(n: int)
    requires n != 1
    ensures var s := State(0, [0], [1, 2], []); s.Read() != FlatIr.Execute(FlatIr.Op(FlatIr.Read, n), 0, s).st
  {
    var s := State(0, [0], [1, 2], []);
    assert s.Read() == State(0, [1], [2], []);
    if n > 1 {
      assert s.Read().Read() == State(0, [2], [], []);
      ReadAtEnd(State(0, [2], [], []), n - 2);
      assert ReadN(s, n) == ReadN(s.Read().Read(), n - 2);
    }
  }

  lemma {:induction false} ReadAtEnd(s: State, n: nat)
    requires s.OnTape() && s.input == []
    ensures ReadN(s, n) == s
  {
    if n > 0 {
      ReadAtEnd(s, n - 1);
    }
  }

  /** The first two instructions point edi at the tape. */
  lemma BootReaches(image: Image, regs: seq<Word>, s: State) returns (m: Machine)
    requires HasSlice(image.code, 0, LoadEdi(image.bss) + Encode(PushReg(EDI))) && |regs| == 8
    requires s.dp == 0 && s.OnTape() && image.bss + |s.tape| <= 0x1_0000_0000
    ensures m == Iterate(Step(image), 2, Boot(image, regs, s))
    ensures m.Active? && m.cpu.eip == image.origin + 7 && Holds(image, m.cpu, s)
  {
    hide Encode, EncodeAll, ExecuteAll, HasSlice;
    var mov, push := MovImm(EDI, image.bss, false), PushReg(EDI);
    var cpu := Boot(image, regs, s).cpu;
    EncodeAllShort([mov, push]);
    EncodeMovImm(EDI, image.bss);
    EncodePush(EDI);
    assert Emitted([mov, push]);
    RunBlock(image, [mov, push], Active(cpu));
    m := ExecuteAll(image, [mov, push], Active(cpu));
    RunMov(image, EDI, mov, image.bss, cpu);
    var mid := ExecuteAll(image, [mov], Active(cpu)).cpu;
    ExecuteOne(image, push, mid);
    ExecuteConcat(image, [mov], [push], Active(cpu));
    EncodeAllShort([mov]);
    EncodeAllShort([push]);
    assert [mov] + [push] == [mov, push];
  }

  lemma EncodePush(r: Reg)
    ensures Encode(PushReg(r)) == [0xFF, ModRm(3, 6, r)]
  {
  }

  // ----- how the process ends -----

  /** The process ends with status 0, having left `final` behind. */
  ghost predicate ProcessExits(image: Image, boot: Machine, final: State) {
    exists n: nat :: ExitedWith(image, Iterate(X86.Step(image), n, boot), final)
  }

  ghost predicate ExitedWith(image: Image, m: Machine, final: State) {
    m.Exited? && m.status == 0 && Holds(image, m.cpu, final)
  }

  lemma HoldsDetermines(image: Image, cpu: Cpu, s: State, t: State)
    requires Holds(image, cpu, s) && Holds(image, cpu, t)
    ensures s == t
  {
  }
}
