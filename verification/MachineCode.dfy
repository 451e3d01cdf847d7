/** The emitted bytes as numbers, operation by operation, as the Intel SDM (volume 2A) and the system call table
    of 32-bit Linux give them: inc and dec, the arithmetic of group 1, mov, je and jne, int 0x80. */
module MachineCode {
  import opened MachineInts
  import opened FlatIr
  import opened CodeGen
  import opened Slices
  import opened X86
  import CodeLayout
  import CodeSimulation
  import PendingLoops
  import SingleReads

  function Weighted(b: seq<int>): int
    requires |b| == 4
  {
    b[0] + 0x100 * b[1] + 0x1_0000 * b[2] + 0x100_0000 * b[3]
  }

  /** A 32-bit operand: four bytes, the lowest first. */
  lemma OperandBytes(x: int)
    ensures Weighted(Le32(x)) == x % 0x1_0000_0000
  {
    hide Le32;
    Le32RoundTrip(x);
  }

  /** inc edi, dec edi, and add and sub of edi with a byte or a word. */
  function MoveBytes(n: int): seq<int> {
    if n == 0 then []
    else if n == 1 then [0x47]
    else if n == -1 then [0x4F]
    else if 0 < n <= 127 then [0x83, 0xC7, n]
    else if 0 < n then [0x81, 0xC7] + Le32(n)
    else if -127 <= n then [0x83, 0xEF, -n]
    else [0x81, 0xEF] + Le32(-n)
  }

  /** inc and dec of the byte at [edi]; add and sub with a byte, or with al after mov eax. */
  function AddBytes(n: int): seq<int> {
    if n == 0 then []
    else if n == 1 then [0xFE, 0x07]
    else if n == -1 then [0xFE, 0x0F]
    else if 0 < n <= 127 then [0x80, 0x07, n]
    else if 0 < n then [0xC7, 0xC0] + Le32(n) + [0x00, 0x07]
    else if -127 <= n then [0x80, 0x2F, -n]
    else [0xC7, 0xC0] + Le32(-n) + [0x28, 0x07]
  }

  /** cmp byte [edi], 0, and je over a body of `size` bytes. */
  function StartBytes(size: nat): seq<int> {
    [0x80, 0x3F, 0x00] + if size <= 125 then [0x74, size] else [0x0F, 0x84] + Le32(size)
  }

  /** cmp byte [edi], 0, and jne back over this comparison, the jump and the `len` bytes in front of them. */
  function EndBytes(len: nat): seq<int> {
    [0x80, 0x3F, 0x00] + if len <= 123 then [0x75, 251 - len] else [0x0F, 0x85] + Le32(-(len + 9))
  }

  /** mov eax, 4; mov ebx, 1; mov ecx, edi; mov edx, 1; int 0x80: write(1, edi, 1), `n` times. */
  function WriteBytes(n: int): seq<int> {
    if n <= 0 then []
    else
      WriteBytes(n - 1) +
      [0xB8, 0x04, 0x00, 0x00, 0x00, 0xBB, 0x01, 0x00, 0x00, 0x00, 0x89, 0xF9, 0xBA, 0x01, 0x00, 0x00, 0x00, 0xCD, 0x80]
  }

  /** read(0, edi, 1), once. */
  const READ_BYTES: seq<int> :=
    [0xB8, 0x03, 0x00, 0x00, 0x00, 0xBB, 0x00, 0x00, 0x00, 0x00, 0x89, 0xF9, 0xBA, 0x01, 0x00, 0x00, 0x00, 0xCD, 0x80]

  /** exit(n) */
  function ExitBytes(n: int): seq<int> { [0xB8, 0x01, 0x00, 0x00, 0x00, 0xBB] + Le32(n) + [0xCD, 0x80] }

  function OpBytes(op: Op): seq<int> {
    match op.kind
    case Tape => MoveBytes(op.arg)
    case Cell => AddBytes(op.arg)
    case Write => WriteBytes(op.arg)
    case Read => READ_BYTES
    case Set => [0xCD, 0x03]
    case Halt => ExitBytes(op.arg)
    case _ => []
  }

  lemma MoveEmitted(n: int)
    requires FitsInt32(n)
    ensures EncodeAll(AddSubInstrs(RegDirect, n)) == MoveBytes(n)
  {
    hide EncodeAll, Le32, Wrap32, Signed32;
    EncodeNothing();
    Le32OfSigned(n);
    Le32OfSigned(-n);
    if n != 0 {
      EncodeAllShort(AddSubInstrs(RegDirect, n));
      if 1 < n <= 127 {
        Signed32OfWrap(n);
      } else if -127 <= n < -1 {
        Signed32OfWrap(-n);
      }
    }
  }

  lemma AddEmitted(n: int)
    requires FitsInt32(n)
    ensures EncodeAll(AddSubInstrs(RegIndirect, n)) == AddBytes(n)
  {
    hide EncodeAll, Le32, Wrap32;
    EncodeNothing();
    Le32OfSigned(n);
    Le32OfSigned(-n);
    if n != 0 {
      EncodeAllShort(AddSubInstrs(RegIndirect, n));
    }
  }

  lemma SyscallEmitted(number: Byte, fd: Byte)
    ensures EncodeAll(SyscallInstrs(number, fd)) ==
            [0xB8, number, 0x00, 0x00, 0x00, 0xBB, fd, 0x00, 0x00, 0x00, 0x89, 0xF9, 0xBA, 0x01, 0x00, 0x00, 0x00, 0xCD, 0x80]
  {
    hide EncodeAll, SyscallInstrs;
    EncodeSyscall(number, fd);
    SmallOperand(fd);
    SmallOperand(1);
  }

  lemma SmallOperand(x: Byte)
    ensures Le32(x) == [x, 0, 0, 0]
  {
  }

  lemma {:induction false} WriteEmitted(n: nat)
    ensures EncodeAll(WriteInstrs(n)) == WriteBytes(n)
  {
    hide EncodeAll, SyscallInstrs;
    if n == 0 {
      EncodeNothing();
    } else {
      WriteEmitted(n - 1);
      WriteBlockGrows(n - 1);
      SyscallEmitted(4, 1);
    }
  }

  lemma ExitEmitted(n: int)
    ensures EncodeAll(ExitInstrs(n)) == ExitBytes(n)
  {
    hide EncodeAll, ExitInstrs, Le32;
    EncodeExit(n);
  }

  /** Every operation that is compiled becomes exactly these bytes. */
  lemma OpEmitted(op: Op)
    requires !IsLoop(op) && !OperandTooBig(op)
    ensures EncodeAll(OpInstrs(op)) == OpBytes(op)
  {
    hide EncodeAll, AddSubInstrs, WriteInstrs, SyscallInstrs, ExitInstrs, MoveBytes, AddBytes, WriteBytes, ExitBytes;
    match op.kind
    case Tape => if op.arg == 0 { MoveEmitted(0); } else { MoveEmitted(op.arg); }
    case Cell => if op.arg == 0 { AddEmitted(0); } else { AddEmitted(op.arg); }
    case Write =>
      WriteEmitted(if op.arg > 0 then op.arg else 0);
      NoWrites(op.arg);
    case Read => SyscallEmitted(3, 0);
    case Set => TrapEmitted();
    case Halt => ExitEmitted(op.arg);
  }

  lemma NoWrites(n: int)
    ensures WriteBytes(n) == WriteBytes(if n > 0 then n else 0)
  {
  }

  lemma TrapEmitted()
    ensures EncodeAll([Int(0x03)]) == [0xCD, 0x03]
  {
    EncodeAllShort([Int(0x03)]);
  }

  /** The comparison and the jump in front of a loop. */
  lemma StartEmitted(size: nat)
    ensures EncodeAll(LoopStartInstrs(size)) == StartBytes(size)
  {
    hide EncodeAll, Le32, Signed32, Wrap32;
    EncodeAllShort(LoopStartInstrs(size));
    Le32OfSigned(size);
  }

  /** The comparison and the jump behind a body whose size fits the distance of the jump. */
  lemma EndEmitted(len: nat)
    requires FitsInt32(-(len + 5))
    ensures EncodeAll(LoopEndInstrs(len)) == EndBytes(len)
  {
    hide EncodeAll, LoopEndInstrs, Le32, Signed32, Wrap32;
    LoopEndBytes(len);
    Signed32OfWrap(-(len + 5));
    if len <= 123 {
      assert Wrap8(-(len + 5)) == 251 - len;
    }
  }

  /** Every compiled program begins with mov edi and push edi, and ends with exit(0). */
  lemma ProgramBytes(ops: seq<Op>, image: Image, memory: nat)
    requires SingleReads.Accepted(ops) && CodeSimulation.HoldsProgram(image, ops, memory)
    ensures HasSlice(image.code, 0, [0xBF] + Le32(image.bss) + [0xFF, 0xF7])
    ensures |image.code| >= 12 && HasSlice(image.code, |image.code| - 12, EXIT_BYTES)
  {
    hide HasSlice, EncodeAll, Le32, SingleReads.Accepted, CodeSimulation.HoldsProgram, PendingLoops.Expand;
    SingleReads.SameImage(ops, image, memory);
    var pos := SingleReads.ExpansionBuilt(ops, image, memory);
    var e := PendingLoops.Expand(WithHalt(SingleReads.OneReads(ops)), 0);
    LastIsExit(e, image, pos);
    assert CodeSimulation.LoadEdi(image.bss) + Encode(PushReg(EDI)) == [0xBF] + Le32(image.bss) + [0xFF, 0xF7];
  }

  /** exit(0) */
  const EXIT_BYTES: seq<Byte> := [0xB8, 0x01, 0x00, 0x00, 0x00, 0xBB, 0x00, 0x00, 0x00, 0x00, 0xCD, 0x80]

  lemma LastIsExit(e: seq<Op>, image: Image, pos: int -> int)
    requires CodeSimulation.Built(e, image, pos) && pos(|e|) == |image.code|
    ensures |image.code| >= 12 && HasSlice(image.code, |image.code| - 12, EXIT_BYTES)
  {
    hide HasSlice, EncodeAll, Le32;
    assert CodeLayout.Placed(e, image.code, pos, |e| - 1);
    assert e[|e| - 1] == Op(Halt, 0);
    ExitEmitted(0);
    SmallOperand(0);
    assert ExitBytes(0) == EXIT_BYTES;
  }
}
