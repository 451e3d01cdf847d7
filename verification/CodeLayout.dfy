/** Where the code of each operation lies in the output of the compiler, and where its jumps land. */
module CodeLayout {
  import opened MachineInts
  import opened Slices
  import opened FlatIr
  import opened X86
  import opened CodeGen

  /** The instructions of operation `k` when operation `i` starts at offset `pos(i)`. */
  function SegmentInstrs(prog: seq<Op>, pos: int -> int, k: nat): seq<Instr>
    requires k < |prog|
  {
    var op := prog[k];
    match op.kind
    case LoopStart => LoopStartInstrs(NatOf(pos(k + op.arg + 1) - pos(k + 1)))
    case LoopEnd => LoopEndInstrs(NatOf(pos(k) - pos(k + op.arg + 1)))
    case _ => OpInstrs(op)
  }

  function NatOf(x: int): nat { if x >= 0 then x else 0 }

  ghost predicate Placed(prog: seq<Op>, code: seq<Byte>, pos: int -> int, k: nat)
    requires k < |prog|
  {
    && 0 <= pos(k) <= pos(k + 1)
    && pos(k + 1) == pos(k) + |EncodeAll(SegmentInstrs(prog, pos, k))|
    && HasSlice(code, pos(k), EncodeAll(SegmentInstrs(prog, pos, k)))
  }

  /** ops[lo..hi] is compiled in order into code[pos(lo)..pos(hi)], nothing left out. */
  ghost predicate Laid(prog: seq<Op>, code: seq<Byte>, pos: int -> int, lo: nat, hi: nat) {
    && lo <= hi <= |prog|
    && 0 <= pos(lo) <= pos(hi) <= |code|
    && forall k :: lo <= k < hi ==> Placed(prog, code, pos, k)
  }

  ghost predicate InRange(prog: seq<Op>, lo: nat, hi: nat)
    requires hi <= |prog|
  {
    forall k :: lo <= k < hi ==> !OperandTooBig(prog[k])
  }

  lemma BalancedStarts(prog: seq<Op>)
    requires Balanced(prog)
    ensures ForwardStarts(prog)
  {
    forall k | 0 <= k < |prog| && prog[k].kind == LoopStart ensures prog[k].arg >= 0 {
      assert PairOk(prog, k);
    }
  }

  /** Splicing a buffer into a larger one moves all its code by the same offset. */
  lemma PlacedShifts(prog: seq<Op>, code: seq<Byte>, pos: int -> int, k: nat, whole: seq<Byte>, offset: nat, pos': int -> int)
    requires k < |prog| && Placed(prog, code, pos, k) && HasSlice(whole, offset, code)
    requires pos'(k) == pos(k) + offset && pos'(k + 1) == pos(k + 1) + offset
    requires IsLoop(prog[k]) ==> pos'(k + prog[k].arg + 1) == pos(k + prog[k].arg + 1) + offset
    ensures Placed(prog, whole, pos', k)
  {
    hide EncodeAll, OpInstrs, LoopStartInstrs, LoopEndInstrs;
    assert SegmentInstrs(prog, pos', k) == SegmentInstrs(prog, pos, k);
    SliceWithin(code, pos(k), EncodeAll(SegmentInstrs(prog, pos, k)), whole, offset);
  }

  /** Operation reached by the jump that ends operation `k`. */
  function Target(prog: seq<Op>, k: nat): int
    requires k < |prog|
  {
    k + prog[k].arg + 1
  }

  /** Jumps inside ops[lo..hi] do not leave it. */
  predicate TargetsIn(prog: seq<Op>, lo: nat, hi: nat)
    requires hi <= |prog|
  {
    forall k :: lo <= k < hi && IsLoop(prog[k]) ==> lo <= Target(prog, k) <= hi
  }

  lemma ClosedTargets(prog: seq<Op>, lo: nat, hi: nat)
    requires Closed(prog, lo, hi) && Paired(prog, lo, hi)
    ensures TargetsIn(prog, lo, hi)
  {
    forall k | lo <= k < hi && IsLoop(prog[k]) ensures lo <= Target(prog, k) <= hi {
      assert PairOk(prog, k);
    }
  }

  /** The same for a whole range whose jumps do not leave it. */
  lemma LaidShifts(prog: seq<Op>, code: seq<Byte>, pos: int -> int, lo: nat, hi: nat,
                   whole: seq<Byte>, offset: nat, pos': int -> int)
    requires Laid(prog, code, pos, lo, hi) && TargetsIn(prog, lo, hi) && HasSlice(whole, offset, code)
    requires forall k :: lo <= k <= hi ==> pos'(k) == pos(k) + offset
    ensures Laid(prog, whole, pos', lo, hi)
  {
    forall k | lo <= k < hi ensures Placed(prog, whole, pos', k) {
      assert Placed(prog, code, pos, k);
      PlacedShifts(prog, code, pos, k, whole, offset, pos');
    }
  }

  /** What is laid out for ops[lo..hi] behind `buf`. */
  ghost predicate Appended(prog: seq<Op>, lo: nat, hi: nat, buf: seq<Byte>, code: seq<Byte>, pos: int -> int) {
    && |buf| <= |code| && HasSlice(code, 0, buf)
    && pos(lo) == |buf| && pos(hi) == |code|
    && Laid(prog, code, pos, lo, hi)
  }

  function Closing(prog: seq<Op>, hi: nat, code: seq<Byte>): seq<Byte> {
    if hi >= |prog| then [] else EncodeAll(LoopEndInstrs(|code|))
  }

  /** A closed range in front of a loop end, or of the end of the program, is compiled operation by operation. */
  lemma {:induction false} CompileLays(prog: seq<Op>, lo: nat, hi: nat, buf: seq<Byte>) returns (code: seq<Byte>, pos: int -> int)
    requires ForwardStarts(prog) && Closed(prog, lo, hi) && Paired(prog, lo, hi) && InRange(prog, lo, hi)
    requires hi == |prog| || prog[hi].kind == LoopEnd
    ensures Appended(prog, lo, hi, buf, code, pos)
    ensures CompileFrom(prog, lo, buf) == Outcome(CompileOk, code + Closing(prog, hi, code))
    decreases hi - lo, 1
  {
    hide EncodeAll, OpInstrs, LoopStartInstrs, LoopEndInstrs, OperandTooBig, TargetsIn;
    if lo == hi {
      code, pos := buf, (k: int) => |buf|;
    } else {
      RestClosed(prog, lo, hi);
      if prog[lo].kind == LoopStart {
        code, pos := CompileLaysLoop(prog, lo, hi, buf);
      } else {
        var rest;
        code, rest := CompileLays(prog, lo + 1, hi, buf + EncodeAll(OpInstrs(prog[lo])));
        ClosedTargets(prog, lo + 1, hi);
        pos := AssembleOne(prog, lo, hi, buf, code, rest);
      }
    }
  }

  /** An operation in front of what follows it. */
  lemma AssembleOne(prog: seq<Op>, lo: nat, hi: nat, buf: seq<Byte>, code: seq<Byte>, rest: int -> int) returns (pos: int -> int)
    requires lo < hi <= |prog| && !IsLoop(prog[lo]) && TargetsIn(prog, lo + 1, hi)
    requires Appended(prog, lo + 1, hi, buf + EncodeAll(OpInstrs(prog[lo])), code, rest)
    ensures Appended(prog, lo, hi, buf, code, pos)
  {
    hide EncodeAll, OpInstrs, HasSlice, Laid, TargetsIn;
    var head := EncodeAll(OpInstrs(prog[lo]));
    pos := (k: int) => if k <= lo then |buf| else rest(k);
    SliceSplit(code, 0, buf, head);
    SliceWhole(code);
    LaidShifts(prog, code, rest, lo + 1, hi, code, 0, pos);
    LaidOne(prog, code, pos, lo, head);
    LaidJoin(prog, code, pos, lo, lo + 1, hi);
  }

  lemma {:induction false} CompileLaysLoop(prog: seq<Op>, lo: nat, hi: nat, buf: seq<Byte>) returns (code: seq<Byte>, pos: int -> int)
    requires ForwardStarts(prog) && Closed(prog, lo, hi) && Paired(prog, lo, hi) && InRange(prog, lo, hi)
    requires hi == |prog| || prog[hi].kind == LoopEnd
    requires lo < hi && prog[lo].kind == LoopStart
    ensures Appended(prog, lo, hi, buf, code, pos)
    ensures CompileFrom(prog, lo, buf) == Outcome(CompileOk, code + Closing(prog, hi, code))
    decreases hi - lo, 0
  {
    hide EncodeAll, OpInstrs, LoopStartInstrs, LoopEndInstrs, OperandTooBig, HasSlice, Laid;
    RestClosed(prog, lo, hi);
    BodyClosedIn(prog, lo, hi, lo);
    var j := lo + prog[lo].arg;
    var inner, bpos := CompileLays(prog, lo + 1, j, []);
    var body := inner + EncodeAll(LoopEndInstrs(|inner|));
    ClosedTargets(prog, lo + 1, j);
    ClosedTargets(prog, j + 1, hi);
    var rest;
    code, rest := CompileLays(prog, j + 1, hi, buf + EncodeAll(LoopStartInstrs(|body|)) + body);
    pos := AssembleLoop(prog, lo, hi, buf, inner, bpos, code, rest);
  }

  /** A loop is its start, its body moved behind it, its end, and what follows. */
  lemma AssembleLoop(prog: seq<Op>, lo: nat, hi: nat, buf: seq<Byte>,
                     inner: seq<Byte>, bpos: int -> int, code: seq<Byte>, rest: int -> int) returns (pos: int -> int)
    requires lo < hi <= |prog| && prog[lo].kind == LoopStart && PairOk(prog, lo) && lo + prog[lo].arg < hi
    requires TargetsIn(prog, lo + 1, lo + prog[lo].arg) && TargetsIn(prog, lo + prog[lo].arg + 1, hi)
    requires Appended(prog, lo + 1, lo + prog[lo].arg, [], inner, bpos)
    requires var body := inner + EncodeAll(LoopEndInstrs(|inner|));
             Appended(prog, lo + prog[lo].arg + 1, hi, buf + EncodeAll(LoopStartInstrs(|body|)) + body, code, rest)
    ensures Appended(prog, lo, hi, buf, code, pos)
  {
    hide EncodeAll, LoopStartInstrs, LoopEndInstrs, HasSlice, Laid, TargetsIn, PairOk, SegmentInstrs;
    PairEnds(prog, lo);
    var j := lo + prog[lo].arg;
    var end := EncodeAll(LoopEndInstrs(|inner|));
    var start := EncodeAll(LoopStartInstrs(|inner + end|));
    var offset := |buf| + |start|;
    pos := (k: int) => if k <= lo then |buf| else if k <= j then bpos(k) + offset else rest(k);
    SliceSplit(code, 0, buf + start, inner + end);
    SliceSplit(code, 0, buf, start);
    SliceSplit(code, offset, inner, end);
    LaidShifts(prog, inner, bpos, lo + 1, j, code, offset, pos);
    SliceWhole(code);
    LaidShifts(prog, code, rest, j + 1, hi, code, 0, pos);
    BracketsLaid(prog, code, pos, lo, |inner|);
    LaidJoin(prog, code, pos, lo, lo + 1, j);
    LaidJoin(prog, code, pos, lo, j, j + 1);
    LaidJoin(prog, code, pos, lo, j + 1, hi);
  }

  lemma PairEnds(prog: seq<Op>, k: nat)
    requires k < |prog| && prog[k].kind == LoopStart && PairOk(prog, k)
    ensures 0 < prog[k].arg && k + prog[k].arg < |prog| && prog[k + prog[k].arg] == Op(LoopEnd, -prog[k].arg)
  {
  }

  /** The start and the end of a loop around a body of `size` bytes. */
  lemma BracketsLaid(prog: seq<Op>, code: seq<Byte>, pos: int -> int, lo: nat, size: nat)
    requires lo < |prog| && prog[lo].kind == LoopStart && PairOk(prog, lo)
    requires var j := lo + prog[lo].arg;
             var end := EncodeAll(LoopEndInstrs(size));
             var start := EncodeAll(LoopStartInstrs(size + |end|));
             && 0 <= pos(lo) && pos(lo + 1) == pos(lo) + |start| && pos(j) == pos(lo + 1) + size && pos(j + 1) == pos(j) + |end|
             && HasSlice(code, pos(lo), start) && HasSlice(code, pos(j), end)
    ensures Laid(prog, code, pos, lo, lo + 1)
    ensures lo + prog[lo].arg < |prog| && Laid(prog, code, pos, lo + prog[lo].arg, lo + prog[lo].arg + 1)
  {
    hide EncodeAll, LoopStartInstrs, LoopEndInstrs, HasSlice, Laid, PairOk;
    PairEnds(prog, lo);
    var j := lo + prog[lo].arg;
    var end := EncodeAll(LoopEndInstrs(size));
    LaidOne(prog, code, pos, lo, EncodeAll(LoopStartInstrs(size + |end|)));
    LaidOne(prog, code, pos, j, end);
  }

  lemma LaidOne(prog: seq<Op>, code: seq<Byte>, pos: int -> int, k: nat, bytes: seq<Byte>)
    requires k < |prog| && 0 <= pos(k) && pos(k + 1) == pos(k) + |bytes|
    requires bytes == EncodeAll(SegmentInstrs(prog, pos, k)) && HasSlice(code, pos(k), bytes)
    ensures Laid(prog, code, pos, k, k + 1)
  {
    assert Placed(prog, code, pos, k);
  }

  lemma LaidJoin(prog: seq<Op>, code: seq<Byte>, pos: int -> int, lo: nat, mid: nat, hi: nat)
    requires Laid(prog, code, pos, lo, mid) && Laid(prog, code, pos, mid, hi)
    ensures Laid(prog, code, pos, lo, hi)
  {
  }

  /** An operand outside int32_t makes the whole compilation fail. */
  lemma {:induction false} CompileFails(prog: seq<Op>, lo: nat, hi: nat, buf: seq<Byte>)
    requires Balanced(prog) && ForwardStarts(prog) && Closed(prog, lo, hi) && !InRange(prog, lo, hi)
    requires hi == |prog| || prog[hi].kind == LoopEnd
    ensures CompileFrom(prog, lo, buf).result == OperandSize
    decreases hi - lo
  {
    hide EncodeAll, OpInstrs, LoopStartInstrs, LoopEndInstrs, Balanced, Closed, Paired, PairOk, InRange, OperandTooBig;
    FailsWhere(prog, lo, hi);
    if prog[lo].kind == LoopStart {
      var j := lo + prog[lo].arg;
      if InRange(prog, lo + 1, j) {
        var inner, bpos := CompileLays(prog, lo + 1, j, []);
        var body := inner + EncodeAll(LoopEndInstrs(|inner|));
        CompileFails(prog, j + 1, hi, buf + EncodeAll(LoopStartInstrs(|body|)) + body);
      } else {
        CompileFails(prog, lo + 1, j, []);
      }
    } else if !OperandTooBig(prog[lo]) {
      CompileFails(prog, lo + 1, hi, buf + EncodeAll(OpInstrs(prog[lo])));
    }
  }

  /** The oversized operand is in the body of the first loop or behind it. */
  lemma FailsWhere(prog: seq<Op>, lo: nat, hi: nat)
    requires Balanced(prog) && Closed(prog, lo, hi) && !InRange(prog, lo, hi)
    ensures lo < hi <= |prog| && prog[lo].kind != LoopEnd
    ensures prog[lo].kind == LoopStart ==>
              var j := lo + prog[lo].arg;
              && lo < j < hi && prog[j].kind == LoopEnd && Closed(prog, lo + 1, j) && Paired(prog, lo + 1, j) && Closed(prog, j + 1, hi)
              && (InRange(prog, lo + 1, j) ==> !InRange(prog, j + 1, hi))
    ensures prog[lo].kind != LoopStart && !OperandTooBig(prog[lo]) ==> Closed(prog, lo + 1, hi) && !InRange(prog, lo + 1, hi)
  {
    assert Paired(prog, lo, hi);
    RestClosed(prog, lo, hi);
    if prog[lo].kind == LoopStart {
      BodyClosed(prog, lo);
    }
  }

  lemma BalancedWithHalt(ops: seq<Op>)
    requires Balanced(ops)
    ensures var prog := WithHalt(ops); Balanced(prog) && ForwardStarts(prog) && Closed(prog, 0, |prog|)
  {
    var prog := WithHalt(ops);
    forall k | 0 <= k < |prog| ensures PairOk(prog, k) {
      if k < |ops| {
        assert PairOk(ops, k);
      }
    }
    BalancedStarts(prog);
    WholeClosed(prog);
  }

  /** The compiler succeeds exactly when every operand fits, and then lays out the whole program. */
  lemma ProgramLaid(ops: seq<Op>, buf: seq<Byte>) returns (code: seq<Byte>, pos: int -> int)
    requires Balanced(ops)
    ensures var prog := WithHalt(ops);
            ForwardStarts(prog) &&
            if InRange(ops, 0, |ops|) then
              CompileFrom(prog, 0, buf) == Outcome(CompileOk, code) && Appended(prog, 0, |prog|, buf, code, pos)
            else CompileFrom(prog, 0, buf).result == OperandSize
  {
    var prog := WithHalt(ops);
    BalancedWithHalt(ops);
    code, pos := [], (k: int) => 0;
    if InRange(ops, 0, |ops|) {
      code, pos := CompileLays(prog, 0, |prog|, buf);
      assert code + [] == code;
    } else {
      var k :| 0 <= k < |ops| && OperandTooBig(ops[k]);
      assert OperandTooBig(prog[k]);
      CompileFails(prog, 0, |prog|, buf);
    }
  }

  // ----- jumps -----

  lemma EndDisplacement(len: nat)
    ensures var b := LoopEndInstrs(len);
            |b| == 2 && b[0] == AluMemImm(Cmp, EDI, 0) && b[1].Jcc? && !b[1].whenZero
    ensures var size := |EncodeAll(LoopEndInstrs(len))|;
            len + size <= 0x8000_0000 ==>
              Encodable(LoopEndInstrs(len)[1]) && LoopEndInstrs(len)[1].rel == -(len + size)
  {
    var b := LoopEndInstrs(len);
    EncodeAllShort(b);
    if len + 5 <= 0x8000_0000 {
      Signed32OfWrap(-(len + 5));
    }
    if len + 5 <= 128 {
      SmallRoundTrip(-(len + 5));
    } else if len + 9 <= 0x8000_0000 {
      Signed32OfWrap(-(len + 9));
    }
  }

  lemma StartDisplacement(size: nat)
    requires size < 0x8000_0000
    ensures var b := LoopStartInstrs(size);
            b[1].Jcc? && Encodable(b[1]) && b[1].rel == size && (b[1].near <==> size > 125)
  {
    Signed32OfWrap(size);
  }

  ghost predicate LandsOnTarget(prog: seq<Op>, pos: int -> int, k: nat)
    requires k < |prog|
  {
    var b := SegmentInstrs(prog, pos, k);
    |b| == 2 && b[0] == AluMemImm(Cmp, EDI, 0) && Encodable(b[1])
    && b[1].Jcc? && b[1].whenZero == prog[k].kind.LoopStart?
    && pos(k + 1) + b[1].rel == pos(Target(prog, k))
  }

  /** Starts jump forward and ends backward, inside the program. */
  predicate JumpOk(prog: seq<Op>, k: nat)
    requires k < |prog|
  {
    match prog[k].kind
    case LoopStart => k < Target(prog, k) < |prog|
    case LoopEnd => 0 <= Target(prog, k) <= k
    case _ => true
  }

  predicate JumpsOk(prog: seq<Op>) { forall k :: 0 <= k < |prog| ==> JumpOk(prog, k) }

  lemma BalancedJumps(prog: seq<Op>)
    requires Balanced(prog) && prog != [] && prog[|prog| - 1].kind != LoopEnd
    ensures JumpsOk(prog)
  {
    forall k | 0 <= k < |prog| ensures JumpOk(prog, k) {
      assert PairOk(prog, k);
    }
  }

  /** At either width a jump lands on the first byte of the operation it is meant for. */
  lemma JumpLands(prog: seq<Op>, code: seq<Byte>, pos: int -> int, k: nat)
    requires k < |prog| && IsLoop(prog[k]) && 0 <= Target(prog, k) <= |prog| && |code| < 0x8000_0000
    requires if prog[k].kind == LoopStart then k < Target(prog, k) else Target(prog, k) <= k
    requires Laid(prog, code, pos, 0, |prog|)
    ensures LandsOnTarget(prog, pos, k)
  {
    hide HasSlice, Encode, EncodeAll, LoopEndInstrs;
    var t := Target(prog, k);
    Monotone(prog, code, pos, k + 1, |prog|);
    if prog[k].kind == LoopStart {
      Monotone(prog, code, pos, k + 1, t);
      Monotone(prog, code, pos, t, |prog|);
      StartDisplacement(pos(t) - pos(k + 1));
    } else {
      assert Placed(prog, code, pos, k);
      Monotone(prog, code, pos, t, k);
      EndDisplacement(pos(k) - pos(t));
    }
  }

  /** In a balanced program the opening jump of a loop lands on the first byte behind its closing jump ... */
  lemma StartLands(prog: seq<Op>, code: seq<Byte>, pos: int -> int, k: nat)
    requires Balanced(prog) && k < |prog| && prog[k].kind == LoopStart && |code| < 0x8000_0000
    requires Laid(prog, code, pos, 0, |prog|)
    ensures PairOk(prog, k) && prog[Target(prog, k) - 1].kind == LoopEnd && LandsOnTarget(prog, pos, k)
  {
    hide Laid, LandsOnTarget;
    assert PairOk(prog, k);
    JumpLands(prog, code, pos, k);
  }

  /** ... and its closing jump on the first byte of its body. */
  lemma EndLands(prog: seq<Op>, code: seq<Byte>, pos: int -> int, k: nat)
    requires Balanced(prog) && k < |prog| && prog[k].kind == LoopEnd && |code| < 0x8000_0000
    requires Laid(prog, code, pos, 0, |prog|)
    ensures PairOk(prog, k) && prog[Target(prog, k) - 1].kind == LoopStart && LandsOnTarget(prog, pos, k)
  {
    hide Laid, LandsOnTarget;
    assert PairOk(prog, k);
    JumpLands(prog, code, pos, k);
  }

  lemma {:induction false} Monotone(prog: seq<Op>, code: seq<Byte>, pos: int -> int, i: nat, j: nat)
    requires Laid(prog, code, pos, 0, |prog|) && i <= j <= |prog|
    ensures 0 <= pos(i) <= pos(j) <= |code|
    decreases j - i
  {
    if i < j {
      assert Placed(prog, code, pos, i);
      Monotone(prog, code, pos, i + 1, j);
    } else if i < |prog| {
      assert Placed(prog, code, pos, i);
    }
  }

  // ----- decoding the output -----

  lemma {:induction false} WriteEmitted(n: nat)
    ensures Emitted(WriteInstrs(n)) && forall i :: i in WriteInstrs(n) ==> !i.Jcc?
  {
    if n > 0 {
      WriteEmitted(n - 1);
    }
  }

  lemma AddSubEmitted(mode: Mode, arg: int)
    ensures Emitted(AddSubInstrs(mode, arg))
  {
    if -INT8_MAX <= arg <= INT8_MAX {
      Signed32OfWrap(arg);
      Signed32OfWrap(-arg);
    }
  }

  /** Every instruction of a segment has an encoding, and at most its last one jumps. */
  lemma SegmentEmitted(prog: seq<Op>, code: seq<Byte>, pos: int -> int, k: nat)
    requires JumpsOk(prog) && k < |prog| && |code| < 0x8000_0000
    requires Laid(prog, code, pos, 0, |prog|)
    ensures Emitted(SegmentInstrs(prog, pos, k))
  {
    hide HasSlice, Encode, EncodeAll, LoopStartInstrs, LoopEndInstrs, AddSubInstrs, Laid;
    assert JumpOk(prog, k);
    match prog[k].kind
    case Tape => AddSubEmitted(RegDirect, prog[k].arg);
    case Cell => AddSubEmitted(RegIndirect, prog[k].arg);
    case LoopStart => JumpLands(prog, code, pos, k);
    case LoopEnd => JumpLands(prog, code, pos, k);
    case Write => WriteEmitted(if prog[k].arg > 0 then prog[k].arg else 0);
    case _ =>
  }

  function AllInstrs(prog: seq<Op>, pos: int -> int, lo: nat, hi: nat): seq<Instr>
    requires lo <= hi <= |prog|
    decreases hi - lo
  {
    if lo == hi then [] else SegmentInstrs(prog, pos, lo) + AllInstrs(prog, pos, lo + 1, hi)
  }

  lemma {:induction false} RangeBytes(prog: seq<Op>, code: seq<Byte>, pos: int -> int, lo: nat, hi: nat)
    requires JumpsOk(prog) && lo <= hi <= |prog| && |code| < 0x8000_0000
    requires Laid(prog, code, pos, 0, |prog|)
    ensures 0 <= pos(lo) && pos(hi) == pos(lo) + |EncodeAll(AllInstrs(prog, pos, lo, hi))|
    ensures HasSlice(code, pos(lo), EncodeAll(AllInstrs(prog, pos, lo, hi)))
    ensures forall i :: i in AllInstrs(prog, pos, lo, hi) ==> Encodable(i)
    decreases hi - lo
  {
    hide SegmentInstrs, EncodeAll, Encodable;
    Monotone(prog, code, pos, lo, hi);
    if lo == hi {
      EncodeNothing();
    } else {
      var first, rest := SegmentInstrs(prog, pos, lo), AllInstrs(prog, pos, lo + 1, hi);
      assert Placed(prog, code, pos, lo);
      RangeBytes(prog, code, pos, lo + 1, hi);
      SegmentEmitted(prog, code, pos, lo);
      EncodeAllConcat(first, rest);
      SliceJoin(code, pos(lo), EncodeAll(first), EncodeAll(rest));
    }
  }

  /** Linear disassembly recovers the instructions of every range of operations and ends exactly at
      the next operation: all offsets `pos(k)`, among them all jump targets, are instruction boundaries. */
  lemma DecodingRecoversOperations(prog: seq<Op>, code: seq<Byte>, pos: int -> int, lo: nat, hi: nat)
    requires JumpsOk(prog) && lo <= hi <= |prog| && |code| < 0x8000_0000
    requires Laid(prog, code, pos, 0, |prog|)
    ensures 0 <= pos(lo) <= pos(hi) <= |code|
    ensures DecodeAll(code, pos(lo), pos(hi)) == AllInstrs(prog, pos, lo, hi)
  {
    hide SegmentInstrs, AllInstrs, Encode, EncodeAll, Encodable, Decode, DecodeAll, JumpsOk, Laid, HasSlice;
    RangeBytes(prog, code, pos, lo, hi);
    SliceEnds(code, pos(lo), EncodeAll(AllInstrs(prog, pos, lo, hi)));
    DecodeAllEncodeAll(code, pos(lo), AllInstrs(prog, pos, lo, hi));
  }
}
