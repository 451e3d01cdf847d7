/** csrc/src/ir_compile.c: from flat IR to IA-32 bytes. The emitters append raw bytes to a growable
    buffer; their contracts name the instructions those bytes encode. */
module CodeGen {
  import opened MachineInts
  import opened FlatIr
  import opened X86

  /** The results the compiler can return; malformed-loop and illegal-state are never returned. */
  datatype CompileResult = CompileOk | OperandSize

  datatype Mode = RegIndirect | RegDirect

  function ModeBits(mode: Mode): int { match mode case RegIndirect => 0 case RegDirect => 3 }

  // ----- the instructions of each operation -----

  function AddSubInstrs(mode: Mode, arg: int): seq<Instr> {
    if arg == 0 then []
    else if mode.RegDirect? then
      if arg == 1 then [IncReg(EDI)]
      else if arg == -1 then [DecReg(EDI)]
      else if arg > 0 then [AluRegImm(Add, EDI, Signed32(Wrap32(arg)), arg > INT8_MAX)]
      else [AluRegImm(Sub, EDI, Signed32(Wrap32(-arg)), -arg > INT8_MAX)]
    else
      if arg == 1 then [IncMem(EDI)]
      else if arg == -1 then [DecMem(EDI)]
      else if 0 < arg <= INT8_MAX then [AluMemImm(Add, EDI, arg)]
      else if 0 < arg then [MovImm(EAX, Wrap32(arg), true), AluMemReg(Add, EDI, EAX)]
      else if -arg <= INT8_MAX then [AluMemImm(Sub, EDI, -arg)]
      else [MovImm(EAX, Wrap32(-arg), true), AluMemReg(Sub, EDI, EAX)]
  }

  function SyscallInstrs(number: Word, fd: Word): seq<Instr> {
    [MovImm(EAX, number, false), MovImm(EBX, fd, false), MovReg(ECX, EDI), MovImm(EDX, 1, false), Int(0x80)]
  }

  function WriteInstrs(n: nat): seq<Instr> {
    if n == 0 then [] else WriteInstrs(n - 1) + SyscallInstrs(SYS_WRITE, 1)
  }

  function ExitInstrs(arg: int): seq<Instr> {
    [MovImm(EAX, SYS_EXIT, false), MovImm(EBX, Wrap32(arg), false), Int(0x80)]
  }

  /** `size` is the length of the compiled body, closing jump included. */
  function LoopStartInstrs(size: nat): seq<Instr> {
    [AluMemImm(Cmp, EDI, 0),
     if size + 2 <= INT8_MAX then Jcc(true, size, false) else Jcc(true, Signed32(Wrap32(size)), true)]
  }

  /** `len` is the length of the body in front of the closing jump. */
  function LoopEndInstrs(len: nat): seq<Instr> {
    var offset := Signed32(Wrap32(-(len + 5)));
    [AluMemImm(Cmp, EDI, 0),
     if offset >= INT8_MIN then Jcc(false, Signed8(Wrap8(offset)), false)
     else Jcc(false, Signed32(Wrap32(offset - 4)), true)]
  }

  predicate IsLoop(op: Op) { op.kind == LoopStart || op.kind == LoopEnd }

  function OpInstrs(op: Op): seq<Instr>
    requires !IsLoop(op)
  {
    match op.kind
    case Tape => AddSubInstrs(RegDirect, op.arg)
    case Cell => AddSubInstrs(RegIndirect, op.arg)
    case Write => WriteInstrs(if op.arg > 0 then op.arg else 0)
    case Read => SyscallInstrs(SYS_READ, 0)
    case Set => [Int(0x03)]
    case Halt => ExitInstrs(op.arg)
  }

  /** The operand check of the emitters: moves and additions of zero skip it, the trap has none. */
  predicate OperandTooBig(op: Op) {
    match op.kind
    case Tape | Cell => op.arg != 0 && !FitsInt32(op.arg)
    case Write | Read | Halt => !FitsInt32(op.arg)
    case _ => false
  }

  // ----- what the compiler computes -----

  datatype Outcome = Outcome(result: CompileResult, code: seq<Byte>)

  predicate ForwardStarts(ops: seq<Op>) {
    forall k :: 0 <= k < |ops| && ops[k].kind == LoopStart ==> ops[k].arg >= 0
  }

  /** Code appended to `buf` by operation `i` and its successors, up to and including the first
      end of a loop. A loop body goes through an empty buffer of its own. */
  function CompileFrom(ops: seq<Op>, i: nat, buf: seq<Byte>): Outcome
    requires ForwardStarts(ops)
    decreases |ops| - i
  {
    if i >= |ops| then Outcome(CompileOk, buf)
    else if ops[i].kind == LoopStart then
      var body := CompileFrom(ops, i + 1, []);
      if body.result != CompileOk then Outcome(body.result, buf)
      else CompileFrom(ops, i + ops[i].arg + 1, buf + EncodeAll(LoopStartInstrs(|body.code|)) + body.code)
    else if ops[i].kind == LoopEnd then Outcome(CompileOk, buf + EncodeAll(LoopEndInstrs(|buf|)))
    else if OperandTooBig(ops[i]) then Outcome(OperandSize, buf)
    else CompileFrom(ops, i + 1, buf + EncodeAll(OpInstrs(ops[i])))
  }

  // ----- the code generator -----

  class CodeBuffer {
    var data: seq<Byte>

    constructor ()
      ensures data == []
    {
      data := [];
    }

    method Push(bytes: seq<Byte>)
      modifies this
      ensures data == old(data) + bytes
    {
      data := data + bytes;
    }

    method EmitAddSub(mode: Mode, op: Op) returns (err: CompileResult)
      requires op.kind == (if mode.RegDirect? then Tape else Cell)
      modifies this
      ensures err == if OperandTooBig(op) then OperandSize else CompileOk
      ensures data == old(data) + if err == CompileOk then EncodeAll(OpInstrs(op)) else []
    {
      err := CompileOk;
      if op.arg == 0 {
        return;
      }
      if op.arg > INT32_MAX || op.arg < INT32_MIN {
        return OperandSize;
      }
      EncodeAllShort(OpInstrs(op));
      if op.arg == 1 {
        if mode == RegDirect {
          Push([0x40 + EDI]);
        } else {
          Push([0xFE, ModRm(ModeBits(mode), 0, EDI)]);
        }
      } else if op.arg == -1 {
        if mode == RegDirect {
          Push([0x48 + EDI]);
        } else {
          Push([0xFE, ModRm(ModeBits(mode), 1, EDI)]);
        }
      } else {
        var alu := if op.arg > 0 then Add else Sub;
        var size := if op.arg > 0 then op.arg else -op.arg;
        if mode == RegIndirect {
          EmitMem(alu, size);
        } else {
          EmitReg(alu, size);
        }
      }
    }

    /** The byte-sized forms for [edi]: an operand above 127 goes through eax. */
    method EmitMem(alu: Alu, size: int)
      requires 2 <= size && !alu.Cmp?
      modifies this
      ensures data == old(data) + EncodeAll(AddSubInstrs(RegIndirect, if alu.Add? then size else -size))
    {
      hide EncodeAll, Le32, Wrap32, ModRm;
      EncodeAllShort(AddSubInstrs(RegIndirect, if alu.Add? then size else -size));
      Le32OfSigned(size);
      if size <= INT8_MAX {
        Push([0x80, ModRm(0, alu.Digit(), EDI), Wrap8(size)]);
      } else {
        Push([0xC7, ModRm(3, 0, EAX)]);
        Push(Le32(size));
        assert data == old(data) + Encode(MovImm(EAX, Wrap32(size), true));
        Push([if alu.Add? then 0x00 else 0x28, ModRm(0, EAX, EDI)]);
      }
    }

    /** The 32-bit forms for edi, with a sign-extended imm8 where it fits. */
    method EmitReg(alu: Alu, size: int)
      requires 2 <= size && !alu.Cmp?
      modifies this
      ensures data == old(data) + EncodeAll(AddSubInstrs(RegDirect, if alu.Add? then size else -size))
    {
      hide EncodeAll, Le32, Wrap32, Signed32, ModRm;
      EncodeAllShort(AddSubInstrs(RegDirect, if alu.Add? then size else -size));
      Le32OfSigned(size);
      if size <= INT8_MAX {
        Signed32OfWrap(size);
      }
      if size <= INT8_MAX {
        Push([0x83, ModRm(3, alu.Digit(), EDI), Wrap8(size)]);
      } else {
        Push([0x81, ModRm(3, alu.Digit(), EDI)]);
        Push(Le32(size));
      }
    }

    method EmitLoopStart(size: nat)
      modifies this
      ensures data == old(data) + EncodeAll(LoopStartInstrs(size))
    {
      hide EncodeAll, Le32, Wrap32, Signed32, ModRm;
      EncodeAllShort(LoopStartInstrs(size));
      Le32OfSigned(size);
      Push([0x80, ModRm(0, 7, EDI), 0x0]);
      if size + 2 <= INT8_MAX {
        Push([0x74, Wrap8(size)]);
      } else {
        Push([0x0F, 0x84]);
        Push(Le32(size));
      }
    }

    method EmitLoopEnd()
      modifies this
      ensures data == old(data) + EncodeAll(LoopEndInstrs(|old(data)|))
    {
      hide EncodeAll, LoopEndInstrs, Encode, Le32, Wrap8, Wrap32, Signed32, ModRm;
      LoopEndBytes(|data|);
      Push([0x80, ModRm(0, 7, EDI), 0x0]);
      var offset := Signed32(Wrap32(-(|data| + 2)));
      if offset >= INT8_MIN {
        Push([0x75, Wrap8(offset)]);
      } else {
        Push([0x0F, 0x85]);
        Push(Le32(offset - 4));
      }
    }

    /** mov eax, number; mov ebx, fd; mov ecx, edi; mov edx, 1; int 0x80 */
    method EmitSyscall(number: Byte, fd: int)
      requires 0 <= fd < 256
      modifies this
      ensures data == old(data) + EncodeAll(SyscallInstrs(number, fd))
    {
      hide EncodeAll, SyscallInstrs, Le32, ModRm;
      EncodeSyscall(number, fd);
      Push([0xB8 + EAX, number, 0x0, 0x0, 0x0]);
      Push([0xB8 + EBX]);
      Push(Le32(fd));
      Push([0x89, ModRm(3, EDI, ECX)]);
      Push([0xB8 + EDX]);
      Push(Le32(1));
      Push([0xCD, 0x80]);
    }

    method EmitWrite(op: Op) returns (err: CompileResult)
      requires op.kind == Write
      modifies this
      ensures err == if OperandTooBig(op) then OperandSize else CompileOk
      ensures data == old(data) + if err == CompileOk then EncodeAll(OpInstrs(op)) else []
    {
      if op.arg > INT32_MAX || op.arg < INT32_MIN {
        return OperandSize;
      }
      hide Encode, EncodeAll, SyscallInstrs, WriteInstrs, OpInstrs;
      WriteBlock(op);
      var i := 0;
      while i < op.arg
        invariant 0 <= i <= if op.arg > 0 then op.arg else 0
        invariant data == old(data) + EncodeAll(WriteInstrs(i))
      {
        WriteBlockGrows(i);
        ConcatAssociates(old(data), EncodeAll(WriteInstrs(i)), EncodeAll(SyscallInstrs(SYS_WRITE, 1)));
        EmitSyscall(SYS_WRITE, 1);
        i := i + 1;
      }
      err := CompileOk;
    }

    /** One read, whatever the count. */
    method EmitRead(op: Op) returns (err: CompileResult)
      requires op.kind == Read
      modifies this
      ensures err == if OperandTooBig(op) then OperandSize else CompileOk
      ensures data == old(data) + if err == CompileOk then EncodeAll(OpInstrs(op)) else []
    {
      if op.arg > INT32_MAX || op.arg < INT32_MIN {
        return OperandSize;
      }
      EmitSyscall(SYS_READ, 0);
      err := CompileOk;
    }

    method EmitTrap()
      modifies this
      ensures data == old(data) + EncodeAll([Int(0x03)])
    {
      EncodeAllShort([Int(0x03)]);
      Push([0xCD, 0x03]);
    }

    method EmitExit(op: Op) returns (err: CompileResult)
      requires op.kind == Halt
      modifies this
      ensures err == if OperandTooBig(op) then OperandSize else CompileOk
      ensures data == old(data) + if err == CompileOk then EncodeAll(OpInstrs(op)) else []
    {
      if op.arg > INT32_MAX || op.arg < INT32_MIN {
        return OperandSize;
      }
      Push([0xB8 + EAX, SYS_EXIT, 0x0, 0x0, 0x0]);
      Push([0xB8 + EBX]);
      Push(Le32(op.arg));
      Push([0xCD, 0x80]);
      EncodeExit(op.arg);
      err := CompileOk;
    }

    /** The dispatch through code_fn for operations other than the start of a loop. */
    method EmitOp(op: Op) returns (err: CompileResult)
      requires op.kind != LoopStart
      modifies this
      ensures err == if OperandTooBig(op) then OperandSize else CompileOk
      ensures data == old(data) +
                      if err != CompileOk then []
                      else EncodeAll(if op.kind == LoopEnd then LoopEndInstrs(|old(data)|) else OpInstrs(op))
    {
      err := CompileOk;
      match op.kind
      case Tape => err := EmitAddSub(RegDirect, op);
      case Cell => err := EmitAddSub(RegIndirect, op);
      case LoopEnd => EmitLoopEnd();
      case Write => err := EmitWrite(op);
      case Read => err := EmitRead(op);
      case Set => EmitTrap();
      case Halt => err := EmitExit(op);
    }

    method Compile(ops: seq<Op>, idx: nat) returns (err: CompileResult)
      requires ForwardStarts(ops)
      modifies this
      ensures Outcome(err, data) == CompileFrom(ops, idx, old(data))
      decreases |ops| - idx
    {
      hide EncodeAll, OpInstrs, LoopStartInstrs, LoopEndInstrs;
      var i := idx;
      while i < |ops|
        invariant idx <= i
        invariant CompileFrom(ops, i, data) == CompileFrom(ops, idx, old(data))
      {
        var opcode := ops[i];
        if opcode.kind == LoopStart {
          var loopCode := new CodeBuffer();
          err := loopCode.Compile(ops, i + 1);
          if err == CompileOk {
            EmitLoopStart(|loopCode.data|);
            Push(loopCode.data);
            i := i + opcode.arg;
          }
        } else {
          err := EmitOp(opcode);
        }
        if err != CompileOk {
          return;
        }
        if opcode.kind == LoopEnd {
          return;
        }
        i := i + 1;
      }
      err := CompileOk;
    }

    /** ir_ctx_compile: push edi, then the operations followed by a halt. */
    method CompileProgram(ops: seq<Op>) returns (ok: bool)
      requires ForwardStarts(ops)
      modifies this
      ensures var out := CompileFrom(WithHalt(ops), 0, old(data) + Encode(PushReg(EDI)));
              data == out.code && ok == (out.result == CompileOk)
    {
      Push([0xFF, ModRm(3, 6, EDI)]);
      var err := Compile(WithHalt(ops), 0);
      ok := err == CompileOk;
    }
  }

  lemma LoopEndBytes(len: nat)
    ensures var offset := Signed32(Wrap32(-(len + 5)));
            EncodeAll(LoopEndInstrs(len)) ==
            [0x80, ModRm(0, 7, EDI), 0x0] + if offset >= INT8_MIN then [0x75, Wrap8(offset)] else [0x0F, 0x85] + Le32(offset - 4)
  {
    hide EncodeAll, Le32, Wrap8, Wrap32, Signed8, Signed32, ModRm;
    var offset := Signed32(Wrap32(-(len + 5)));
    EncodeAllShort(LoopEndInstrs(len));
    Le32OfSigned(offset - 4);
    Wrap8OfSigned(offset);
  }

  lemma EncodeMovByte(r: Reg, b: Byte)
    ensures Encode(MovImm(r, b, false)) == [0xB8 + r, b, 0x0, 0x0, 0x0]
  {
    assert Le32(b) == [b, 0, 0, 0];
  }

  lemma EncodeInt(n: Byte)
    ensures Encode(Int(n)) == [0xCD, n]
  {
  }

  lemma EncodeMovReg(dst: Reg, src: Reg)
    ensures Encode(MovReg(dst, src)) == [0x89, ModRm(3, src, dst)]
  {
  }

  lemma EncodeMovImm(r: Reg, x: int)
    ensures Encode(MovImm(r, Wrap32(x), false)) == [0xB8 + r] + Le32(x)
  {
    Le32OfSigned(x);
  }

  lemma EncodeSyscall(number: Byte, fd: int)
    requires 0 <= fd < 256
    ensures EncodeAll(SyscallInstrs(number, fd)) ==
            [0xB8 + EAX, number, 0x0, 0x0, 0x0] + [0xB8 + EBX] + Le32(fd) +
            [0x89, ModRm(3, EDI, ECX)] + [0xB8 + EDX] + Le32(1) + [0xCD, 0x80]
  {
    hide Encode, EncodeAll, Le32, ModRm;
    var b := SyscallInstrs(number, fd);
    EncodeMovByte(EAX, number);
    EncodeMovImm(EBX, fd);
    EncodeMovImm(EDX, 1);
    EncodeMovReg(ECX, EDI);
    EncodeInt(0x80);
    EncodeAllShort(b[..2]);
    EncodeAllShort(b[2..4]);
    EncodeAllShort(b[4..]);
    EncodeAllConcat(b[..2], b[2..4]);
    EncodeAllConcat(b[..4], b[4..]);
    assert b[..2] + b[2..4] == b[..4] && b[..4] + b[4..] == b;
  }

  lemma WriteBlock(op: Op)
    requires op.kind == Write
    ensures OpInstrs(op) == WriteInstrs(if op.arg > 0 then op.arg else 0)
    ensures EncodeAll(WriteInstrs(0)) == []
  {
  }

  lemma WriteBlockGrows(n: nat)
    ensures EncodeAll(WriteInstrs(n + 1)) == EncodeAll(WriteInstrs(n)) + EncodeAll(SyscallInstrs(SYS_WRITE, 1))
  {
    EncodeAllConcat(WriteInstrs(n), SyscallInstrs(SYS_WRITE, 1));
  }

  lemma EncodeExit(arg: int)
    ensures EncodeAll(ExitInstrs(arg)) ==
            [0xB8 + EAX, SYS_EXIT, 0x0, 0x0, 0x0] + [0xB8 + EBX] + Le32(arg) + [0xCD, 0x80]
  {
    hide Encode, EncodeAll, Le32, Wrap32;
    var b := ExitInstrs(arg);
    EncodeMovImm(EBX, arg);
    EncodeMovByte(EAX, SYS_EXIT);
    EncodeInt(0x80);
    EncodeAllShort(b[..2]);
    EncodeAllShort(b[2..]);
    EncodeAllConcat(b[..2], b[2..]);
    assert b[..2] + b[2..] == b;
  }
}
