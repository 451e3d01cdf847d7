/** The fragment of IA-32 that the code generator emits: instruction encodings (Intel SDM volume 2A,
    section 2.1 and the entries of the instructions), a decoder, and a machine with eight registers,
    the zero flag, the memory of .bss and the read, write and exit system calls of 32-bit Linux. */
module X86 {
  import opened MachineInts
  import opened Runs
  import opened Slices

  type Reg = r: int | 0 <= r < 8

  const EAX: Reg := 0
  const ECX: Reg := 1
  const EDX: Reg := 2
  const EBX: Reg := 3
  const EDI: Reg := 7

  const SYS_EXIT := 1
  const SYS_READ := 3
  const SYS_WRITE := 4

  datatype Alu = Add | Sub | Cmp {
    /** The opcode extension of group 1. */
    function Digit(): Reg { match this case Add => 0 case Sub => 5 case Cmp => 7 }
  }

  datatype Instr =
    | IncReg(r: Reg)
    | DecReg(r: Reg)
    | IncMem(base: Reg)
    | DecMem(base: Reg)
    | AluMemImm(op: Alu, base: Reg, imm8: Byte)
    | AluMemReg(op: Alu, base: Reg, src: Reg)
    | AluRegImm(op: Alu, r: Reg, imm: int, wide: bool)
    | MovImm(r: Reg, word: Word, generic: bool)
    | MovReg(dst: Reg, src: Reg)
    | PushReg(r: Reg)
    | Jcc(whenZero: bool, rel: int, near: bool)
    | Int(vector: Byte)

  /** Register-indirect addressing without SIB byte or displacement excludes esp and ebp. */
  predicate PlainBase(r: Reg) { r != 4 && r != 5 }

  predicate Encodable(i: Instr) {
    match i
    case IncMem(b) => PlainBase(b)
    case DecMem(b) => PlainBase(b)
    case AluMemImm(_, b, _) => PlainBase(b)
    case AluMemReg(_, b, src) => PlainBase(b) && src < 4
    case AluRegImm(_, _, imm, wide) => if wide then FitsInt32(imm) else FitsInt8(imm)
    case Jcc(_, rel, near) => if near then FitsInt32(rel) else FitsInt8(rel)
    case _ => true
  }

  function ModRm(mode: int, reg: Reg, rm: Reg): Byte
    requires 0 <= mode < 4
  {
    0x40 * mode + 8 * reg + rm
  }

  function Encode(i: Instr): (b: seq<Byte>)
    ensures 1 <= |b| <= 6
  {
    match i
    case IncReg(r) => [0x40 + r]
    case DecReg(r) => [0x48 + r]
    case IncMem(base) => [0xFE, ModRm(0, 0, base)]
    case DecMem(base) => [0xFE, ModRm(0, 1, base)]
    case AluMemImm(op, base, imm8) => [0x80, ModRm(0, op.Digit(), base), imm8]
    case AluMemReg(op, base, src) => [8 * op.Digit(), ModRm(0, src, base)]
    case AluRegImm(op, r, imm, wide) =>
      if wide then [0x81, ModRm(3, op.Digit(), r)] + Le32(imm) else [0x83, ModRm(3, op.Digit(), r), Wrap8(imm)]
    case MovImm(r, word, generic) => (if generic then [0xC7, ModRm(3, 0, r)] else [0xB8 + r]) + Le32(word)
    case MovReg(dst, src) => [0x89, ModRm(3, src, dst)]
    case PushReg(r) => [0xFF, ModRm(3, 6, r)]
    case Jcc(whenZero, rel, near) =>
      var cc := if whenZero then 4 else 5;
      if near then [0x0F, 0x80 + cc] + Le32(rel) else [0x70 + cc, Wrap8(rel)]
    case Int(vector) => [0xCD, vector]
  }

  function EncodeAll(block: seq<Instr>): seq<Byte> {
    if block == [] then [] else Encode(block[0]) + EncodeAll(block[1..])
  }

  lemma ConcatAssociates<T>(a: seq<T>, b: seq<T>, c: seq<T>)
    ensures a + (b + c) == (a + b) + c
  {
  }

  lemma {:induction false} EncodeAllConcat(a: seq<Instr>, b: seq<Instr>)
    ensures EncodeAll(a + b) == EncodeAll(a) + EncodeAll(b)
  {
    if a == [] {
      assert a + b == b;
    } else {
      assert (a + b)[0] == a[0] && (a + b)[1..] == a[1..] + b;
      calc {
        EncodeAll(a + b);
        Encode(a[0]) + EncodeAll(a[1..] + b);
        { EncodeAllConcat(a[1..], b); }
        Encode(a[0]) + (EncodeAll(a[1..]) + EncodeAll(b));
        { ConcatAssociates(Encode(a[0]), EncodeAll(a[1..]), EncodeAll(b)); }
        EncodeAll(a) + EncodeAll(b);
      }
    }
  }

  lemma EncodeNothing()
    ensures EncodeAll([]) == []
  {
  }

  lemma EncodeAllShort(block: seq<Instr>)
    requires 1 <= |block| <= 2
    ensures EncodeAll(block) == if |block| == 1 then Encode(block[0]) else Encode(block[0]) + Encode(block[1])
  {
    hide Encode;
    if |block| == 1 {
      assert EncodeAll(block[1..]) == [];
      assert Encode(block[0]) + [] == Encode(block[0]);
    } else {
      assert EncodeAll(block[1..][1..]) == [];
      assert EncodeAll(block[1..]) == Encode(block[1]) + [];
    }
  }

  // ----- decoding -----

  datatype Decoded = Decoded(i: Instr, size: nat) | Undefined

  predicate IsAlu(digit: Reg) { digit == 0 || digit == 5 || digit == 7 }

  function AluOf(digit: Reg): Alu
    requires IsAlu(digit)
  {
    if digit == 0 then Add else if digit == 5 then Sub else Cmp
  }

  function Imm32(code: seq<Byte>, at: nat): Word
    requires at + 4 <= |code|
  {
    FromLe32(code[at], code[at + 1], code[at + 2], code[at + 3])
  }

  /** The instruction that starts at `at`; `Undefined` for every other byte pattern. */
  function Decode(code: seq<Byte>, at: nat): Decoded {
    if at >= |code| then Undefined
    else
      var b := code[at];
      var room := |code| - at;
      if 0x40 <= b < 0x48 then Decoded(IncReg(b - 0x40), 1)
      else if 0x48 <= b < 0x50 then Decoded(DecReg(b - 0x48), 1)
      else if 0xB8 <= b < 0xC0 then
        if room < 5 then Undefined else Decoded(MovImm(b - 0xB8, Imm32(code, at + 1), false), 5)
      else if room < 2 then Undefined
      else
        var m := code[at + 1];
        if b == 0xCD then Decoded(Int(m), 2)
        else if b == 0x74 || b == 0x75 then Decoded(Jcc(b == 0x74, Signed8(m), false), 2)
        else if b == 0x0F then
          if room < 6 || (m != 0x84 && m != 0x85) then Undefined
          else Decoded(Jcc(m == 0x84, Signed32(Imm32(code, at + 2)), true), 6)
        else
          DecodeModRm(code, at, b, m / 0x40, m / 8 % 8, m % 8)
  }

  /** Instructions whose second byte is a ModR/M byte with fields `mode`, `reg` and `rm`. */
  function DecodeModRm(code: seq<Byte>, at: nat, b: Byte, mode: int, reg: Reg, rm: Reg): Decoded
    requires at + 2 <= |code|
  {
    var room := |code| - at;
    if mode == 0 && PlainBase(rm) then
      if b == 0xFE && reg == 0 then Decoded(IncMem(rm), 2)
      else if b == 0xFE && reg == 1 then Decoded(DecMem(rm), 2)
      else if b == 0x80 && room >= 3 && IsAlu(reg) then
        Decoded(AluMemImm(AluOf(reg), rm, code[at + 2]), 3)
      else if b % 8 == 0 && b < 0x40 && IsAlu(b / 8) && reg < 4 then
        Decoded(AluMemReg(AluOf(b / 8), rm, reg), 2)
      else Undefined
    else if mode == 3 then
      if b == 0x83 && room >= 3 && IsAlu(reg) then
        Decoded(AluRegImm(AluOf(reg), rm, Signed8(code[at + 2]), false), 3)
      else if b == 0x81 && room >= 6 && IsAlu(reg) then
        Decoded(AluRegImm(AluOf(reg), rm, Signed32(Imm32(code, at + 2)), true), 6)
      else if b == 0xC7 && room >= 6 && reg == 0 then Decoded(MovImm(rm, Imm32(code, at + 2), true), 6)
      else if b == 0x89 then Decoded(MovReg(rm, reg), 2)
      else if b == 0xFF && reg == 6 then Decoded(PushReg(rm), 2)
      else Undefined
    else Undefined
  }

  lemma ModRmFields(mode: int, reg: Reg, rm: Reg)
    requires 0 <= mode < 4
    ensures var m := ModRm(mode, reg, rm); m / 0x40 == mode && m / 8 % 8 == reg && m % 8 == rm
  {
    var m := ModRm(mode, reg, rm);
    Split8(m, 8 * mode + reg, rm);
    Split8(8 * mode + reg, mode, reg);
    Split64(m, mode, 8 * reg + rm);
  }

  lemma Split8(m: nat, q: nat, r: nat)
    requires m == 8 * q + r && r < 8
    ensures m / 8 == q && m % 8 == r
  {
  }

  lemma Split64(m: nat, q: nat, r: nat)
    requires m == 0x40 * q + r && r < 0x40
    ensures m / 0x40 == q
  {
  }

  lemma SmallRoundTrip(x: int)
    requires FitsInt8(x)
    ensures Signed8(Wrap8(x)) == x
  {
  }

  lemma Imm32RoundTrip(code: seq<Byte>, at: nat, x: int)
    requires HasSlice(code, at, Le32(x))
    ensures Imm32(code, at) == Wrap32(x)
  {
    var b := Le32(x);
    var c := code[at..at + 4];
    assert c[0] == code[at] && c[1] == code[at + 1] && c[2] == code[at + 2] && c[3] == code[at + 3];
    Le32RoundTrip(x);
  }

  predicate TakesModRm(b: Byte) { b in {0x00, 0x28, 0x38, 0x80, 0x81, 0x83, 0x89, 0xC7, 0xFE, 0xFF} }

  lemma DecodesModRm(code: seq<Byte>, at: nat, b: Byte, mode: int, reg: Reg, rm: Reg)
    requires 0 <= mode < 4 && at + 2 <= |code|
    requires TakesModRm(b) && code[at] == b && code[at + 1] == ModRm(mode, reg, rm)
    ensures Decode(code, at) == DecodeModRm(code, at, b, mode, reg, rm)
  {
    ModRmFields(mode, reg, rm);
  }

  lemma TrailingImm32(code: seq<Byte>, at: nat, head: seq<Byte>, x: int)
    requires HasSlice(code, at, head + Le32(x))
    ensures at + |head| + 4 <= |code| && Imm32(code, at + |head|) == Wrap32(x)
    ensures FitsInt32(x) ==> Signed32(Imm32(code, at + |head|)) == x
    ensures 0 <= x < 0x1_0000_0000 ==> Imm32(code, at + |head|) == x
  {
    hide Le32, FromLe32, Imm32, HasSlice, Signed32;
    SliceEnds(code, at, head + Le32(x));
    SliceSplit(code, at, head, Le32(x));
    Imm32RoundTrip(code, at + |head|, x);
    if FitsInt32(x) {
      Signed32OfWrap(x);
    }
  }

  /** Decoding inverts encoding, for instructions with a ModR/M byte. */
  lemma DecodeEncodeModRm(code: seq<Byte>, at: nat, i: Instr)
    requires Encodable(i) && HasSlice(code, at, Encode(i)) && TakesModRm(Encode(i)[0])
    ensures Decode(code, at) == Decoded(i, |Encode(i)|)
  {
    hide Decode, Imm32, Le32, ModRm, Signed8, Signed32, Wrap8, Wrap32;
    var e := Encode(i);
    assert e[0] == code[at] && (|e| > 1 ==> e[1] == code[at + 1]) && (|e| > 2 ==> e[2] == code[at + 2]);
    match i
    case IncMem(base) => DecodesModRm(code, at, e[0], 0, 0, base);
    case DecMem(base) => DecodesModRm(code, at, e[0], 0, 1, base);
    case AluMemImm(op, base, imm8) => DecodesModRm(code, at, e[0], 0, op.Digit(), base);
    case AluMemReg(op, base, src) => DecodesModRm(code, at, e[0], 0, src, base);
    case AluRegImm(op, r, imm, wide) =>
      DecodesModRm(code, at, e[0], 3, op.Digit(), r);
      if wide {
        TrailingImm32(code, at, e[..2], imm);
      } else {
        SmallRoundTrip(imm);
      }
    case MovImm(r, word, generic) =>
      DecodesModRm(code, at, e[0], 3, 0, r);
      TrailingImm32(code, at, e[..2], word);
    case MovReg(dst, src) => DecodesModRm(code, at, e[0], 3, src, dst);
    case PushReg(r) => DecodesModRm(code, at, e[0], 3, 6, r);
  }

  /** Decoding inverts encoding. */
  lemma DecodeEncode(code: seq<Byte>, at: nat, i: Instr)
    requires Encodable(i) && HasSlice(code, at, Encode(i))
    ensures Decode(code, at) == Decoded(i, |Encode(i)|)
  {
    hide DecodeModRm, Imm32, Le32, ModRm, Signed8, Signed32, Wrap8, Wrap32;
    var e := Encode(i);
    if TakesModRm(e[0]) {
      DecodeEncodeModRm(code, at, i);
    } else {
      assert e[0] == code[at] && (|e| > 1 ==> e[1] == code[at + 1]);
      match i
      case IncReg(r) =>
      case DecReg(r) =>
      case MovImm(r, word, generic) => TrailingImm32(code, at, e[..1], word);
      case Jcc(whenZero, rel, near) =>
        if near {
          TrailingImm32(code, at, e[..2], rel);
        } else {
          SmallRoundTrip(rel);
        }
      case Int(vector) =>
    }
  }

  /** Linear disassembly. */
  function DecodeAll(code: seq<Byte>, at: nat, end: nat): seq<Instr>
    requires end <= |code|
    decreases end - at
  {
    if at >= end then []
    else match Decode(code, at)
      case Undefined => []
      case Decoded(i, size) => if size == 0 then [] else [i] + DecodeAll(code, at + size, end)
  }

  lemma {:induction false} DecodeAllEncodeAll(code: seq<Byte>, at: nat, block: seq<Instr>)
    requires forall i :: i in block ==> Encodable(i)
    requires HasSlice(code, at, EncodeAll(block))
    ensures DecodeAll(code, at, at + |EncodeAll(block)|) == block
    decreases |block|
  {
    hide Encode, Decode;
    if block != [] {
      SliceSplit(code, at, Encode(block[0]), EncodeAll(block[1..]));
      DecodeEncode(code, at, block[0]);
      DecodeAllEncodeAll(code, at + |Encode(block[0])|, block[1..]);
    }
  }

  // ----- the machine -----

  /** Code loaded at `origin`; the tape occupies memory from `bss` on. */
  datatype Image = Image(code: seq<Byte>, origin: Word, bss: Word)

  datatype Cpu = Cpu(eip: int, regs: seq<Word>, zf: bool, tape: seq<Byte>, input: seq<Byte>, output: seq<Byte>)

  datatype Machine = Active(cpu: Cpu) | Exited(status: Word, cpu: Cpu) | Stuck(cpu: Cpu)

  predicate Mapped(image: Image, cpu: Cpu, addr: int) {
    image.bss <= addr < image.bss + |cpu.tape|
  }

  function Load(image: Image, cpu: Cpu, addr: int): Byte
    requires Mapped(image, cpu, addr)
  {
    cpu.tape[addr - image.bss]
  }

  function StoreByte(image: Image, cpu: Cpu, addr: int, b: Byte): Cpu
    requires Mapped(image, cpu, addr)
  {
    cpu.(tape := cpu.tape[addr - image.bss := b])
  }

  function SetReg(cpu: Cpu, r: Reg, x: int): Cpu
    requires |cpu.regs| == 8
  {
    cpu.(regs := cpu.regs[r := Wrap32(x)])
  }

  /** Register result of an arithmetic instruction, which also sets ZF. */
  function AluReg(cpu: Cpu, r: Reg, x: int): Cpu
    requires |cpu.regs| == 8
  {
    SetReg(cpu, r, x).(zf := Wrap32(x) == 0)
  }

  /** Byte-sized arithmetic on [base] with second operand `y`. */
  function AluMem(image: Image, cpu: Cpu, op: Alu, base: Reg, y: int): Machine
    requires |cpu.regs| == 8
  {
    var addr := cpu.regs[base];
    if !Mapped(image, cpu, addr) then Stuck(cpu)
    else
      var x := Load(image, cpu, addr);
      var r := Wrap8(if op.Add? then x + y else x - y);
      Active((if op.Cmp? then cpu else StoreByte(image, cpu, addr, r)).(zf := r == 0))
  }

  /** The kernel's side of int 0x80: eax (0) has the number, ebx (3), ecx (1) and edx (2) the arguments, and
      the numbers are those of 32-bit Linux: 1 for exit, 3 for read, 4 for write. */
  function Syscall(image: Image, cpu: Cpu): Machine
    requires |cpu.regs| == 8
  {
    var number, first, addr, count := cpu.regs[0], cpu.regs[3], cpu.regs[1], cpu.regs[2];
    if number == 1 then Exited(first, cpu)
    else if count != 1 || !Mapped(image, cpu, addr) then Stuck(cpu)
    else if number == 4 && first == 1 then
      Active(SetReg(cpu, 0, 1).(output := cpu.output + [Load(image, cpu, addr)]))
    else if number == 3 && first == 0 then
      if cpu.input == [] then Active(SetReg(cpu, 0, 0))
      else Active(SetReg(StoreByte(image, cpu, addr, cpu.input[0]), 0, 1).(input := cpu.input[1..]))
    else Stuck(cpu)
  }

  /** Effect of one instruction; `cpu.eip` already points behind it. */
  function Execute(image: Image, i: Instr, cpu: Cpu): Machine {
    if |cpu.regs| != 8 then Stuck(cpu)
    else match i
      case IncReg(r) => Active(AluReg(cpu, r, cpu.regs[r] as int + 1))
      case DecReg(r) => Active(AluReg(cpu, r, cpu.regs[r] as int - 1))
      case IncMem(base) => AluMem(image, cpu, Add, base, 1)
      case DecMem(base) => AluMem(image, cpu, Sub, base, 1)
      case AluMemImm(op, base, imm8) => AluMem(image, cpu, op, base, imm8)
      case AluMemReg(op, base, src) => AluMem(image, cpu, op, base, Wrap8(cpu.regs[src]))
      case AluRegImm(op, r, imm, _) =>
        var x := if op.Add? then cpu.regs[r] + imm else cpu.regs[r] - imm;
        Active(if op.Cmp? then cpu.(zf := Wrap32(x) == 0) else AluReg(cpu, r, x))
      case MovImm(r, word, _) => Active(SetReg(cpu, r, word))
      case MovReg(dst, src) => Active(SetReg(cpu, dst, cpu.regs[src]))
      case PushReg(_) => Active(cpu)
      case Jcc(whenZero, rel, _) => Active(if cpu.zf == whenZero then cpu.(eip := Wrap32(cpu.eip + rel)) else cpu)
      case Int(vector) => if vector == 0x80 then Syscall(image, cpu) else Stuck(cpu)
  }

  function Step(image: Image): Machine -> Machine {
    (m: Machine) => match m
      case Active(cpu) =>
        if cpu.eip < image.origin then Stuck(cpu)
        else (match Decode(image.code, cpu.eip - image.origin)
              case Undefined => Stuck(cpu)
              case Decoded(i, size) => Execute(image, i, cpu.(eip := cpu.eip + size)))
      case _ => m
  }

  // ----- straight-line code -----

  function ExecuteAll(image: Image, block: seq<Instr>, m: Machine): Machine {
    if block == [] || !m.Active? then m
    else ExecuteAll(image, block[1..], Execute(image, block[0], m.cpu.(eip := m.cpu.eip + |Encode(block[0])|)))
  }

  predicate Emitted(block: seq<Instr>) {
    && (forall i :: i in block ==> Encodable(i))
    && (forall k :: 0 <= k < |block| - 1 ==> !block[k].Jcc?)
  }

  lemma FallsThrough(image: Image, i: Instr, cpu: Cpu)
    requires !i.Jcc?
    ensures var m := Execute(image, i, cpu); m.Active? ==> m.cpu.eip == cpu.eip
  {
  }

  /** Running the bytes of a block is executing its instructions one after the other. */
  lemma {:induction false} RunBlock(image: Image, block: seq<Instr>, m: Machine)
    requires m.Active? ==> m.cpu.eip >= image.origin
    requires m.Active? ==> HasSlice(image.code, m.cpu.eip - image.origin, EncodeAll(block))
    requires Emitted(block)
    ensures Iterate(Step(image), |block|, m) == ExecuteAll(image, block, m)
  {
    hide Encode, Decode, Execute;
    if block != [] {
      var next := Step(image)(m);
      if m.Active? {
        SliceSplit(image.code, m.cpu.eip - image.origin, Encode(block[0]), EncodeAll(block[1..]));
        DecodeEncode(image.code, m.cpu.eip - image.origin, block[0]);
        if |block| > 1 {
          FallsThrough(image, block[0], m.cpu.(eip := m.cpu.eip + |Encode(block[0])|));
        }
        assert next == Execute(image, block[0], m.cpu.(eip := m.cpu.eip + |Encode(block[0])|));
      }
      if |block| == 1 {
        assert block[1..] == [];
      } else {
        RunBlock(image, block[1..], next);
      }
    }
  }
}
