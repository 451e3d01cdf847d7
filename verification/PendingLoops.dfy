/** Programs with a `[` that is never closed. The interpreter runs past such a start, whose distance is still 0.
    The code generator compiles all that follows twice, once as the body and once behind it. Written out as
    operations, what it compiles is `Expand`. */
module PendingLoops {
  import opened MachineInts
  import opened Slices
  import opened Store
  import opened FlatIr
  import opened OpenBrackets
  import opened CodeGen
  import opened CodeLayout
  import Runs
  import X86

  function Doubled(r: seq<Op>): (all: seq<Op>)
    ensures |all| == 1 + 2 * |r| && all[0] == Op(LoopStart, |r|)
  {
    [Op(LoopStart, |r|)] + r + r
  }

  /** The operations from `i` on, with everything behind a pending start twice. */
  function Expand(prog: seq<Op>, i: nat): seq<Op>
    decreases |prog| - i
  {
    if i >= |prog| then []
    else
      var rest := Expand(prog, i + 1);
      if IsPending(prog[i]) then Doubled(rest) else [prog[i]] + rest
  }

  lemma ExpandPlain(prog: seq<Op>, i: nat)
    requires i < |prog|
    ensures Expand(prog, i) != []
    ensures !IsPending(prog[i]) ==> Expand(prog, i) == [prog[i]] + Expand(prog, i + 1)
    ensures IsPending(prog[i]) ==> Expand(prog, i) == Doubled(Expand(prog, i + 1))
  {
  }

  lemma ConcatAssociates<T>(a: seq<T>, b: seq<T>, c: seq<T>)
    ensures a + (b + c) == a + b + c
  {
  }

  /** Up to the next pending start the expansion is the program itself. */
  lemma {:induction false} ExpandPrefix(prog: seq<Op>, i: nat, k: nat)
    requires i <= k <= |prog| && NonePending(prog, i, k)
    ensures Expand(prog, i) == prog[i..k] + Expand(prog, k)
    decreases k - i
  {
    hide Expand, Doubled;
    if i < k {
      ExpandPrefix(prog, i + 1, k);
      ExpandPlain(prog, i);
      ConcatAssociates([prog[i]], prog[i + 1..k], Expand(prog, k));
      assert prog[i..k] == [prog[i]] + prog[i + 1..k];
    } else {
      assert prog[i..k] == [];
    }
  }

  lemma {:induction false} ExpandEnds(prog: seq<Op>, i: nat)
    requires i < |prog| && prog[|prog| - 1].kind == Halt
    ensures var e := Expand(prog, i); e != [] && e[|e| - 1].kind == Halt
    decreases |prog| - i
  {
    if i + 1 < |prog| {
      ExpandEnds(prog, i + 1);
    } else {
      assert Expand(prog, i + 1) == [];
    }
  }

  // ----- the code of the expansion -----

  /** The same operations under other numbers. */
  lemma LaidRenumbered(a: seq<Op>, code: seq<Byte>, pos: int -> int, lo: nat, hi: nat, b: seq<Op>, from: nat, pos': int -> int)
    requires Laid(a, code, pos, lo, hi) && TargetsIn(a, lo, hi) && from + (hi - lo) <= |b|
    requires forall k :: lo <= k < hi ==> b[k - lo + from] == a[k]
    requires forall k :: from <= k <= from + (hi - lo) ==> pos'(k) == pos(k - from + lo)
    ensures Laid(b, code, pos', from, from + (hi - lo)) && TargetsIn(b, from, from + (hi - lo))
  {
    hide X86.EncodeAll, OpInstrs, LoopStartInstrs, LoopEndInstrs, HasSlice;
    forall k | from <= k < from + (hi - lo)
      ensures Placed(b, code, pos', k) && (IsLoop(b[k]) ==> from <= Target(b, k) <= from + (hi - lo))
    {
      var k' := k - from + lo;
      assert Placed(a, code, pos, k') && b[k] == a[k'];
      assert IsLoop(a[k']) ==> lo <= Target(a, k') <= hi;
      assert SegmentInstrs(b, pos', k) == SegmentInstrs(a, pos, k');
    }
  }

  /** `ops` is laid out behind `buf`, and its jumps stay inside. */
  ghost predicate Lays(ops: seq<Op>, buf: seq<Byte>, code: seq<Byte>, pos: int -> int) {
    Appended(ops, 0, |ops|, buf, code, pos) && TargetsIn(ops, 0, |ops|)
  }

  lemma LaysPlain(op: Op, r: seq<Op>, buf: seq<Byte>, code: seq<Byte>, rest: int -> int) returns (pos: int -> int)
    requires !IsLoop(op) && Lays(r, buf + X86.EncodeAll(OpInstrs(op)), code, rest)
    ensures Lays([op] + r, buf, code, pos)
  {
    hide X86.EncodeAll, OpInstrs, Laid, TargetsIn, HasSlice;
    var head, all := X86.EncodeAll(OpInstrs(op)), [op] + r;
    pos := (k: int) => if k <= 0 then |buf| else rest(k - 1);
    SliceSplit(code, 0, buf, head);
    LaidRenumbered(r, code, rest, 0, |r|, all, 1, pos);
    LaidOne(all, code, pos, 0, head);
    LaidJoin(all, code, pos, 0, 1, |all|);
    TargetsJoin(all, 1);
  }

  lemma TargetsJoin(ops: seq<Op>, k: nat)
    requires k <= |ops| && TargetsIn(ops, k, |ops|)
    requires forall m :: 0 <= m < k && IsLoop(ops[m]) ==> 0 <= Target(ops, m) <= |ops|
    ensures TargetsIn(ops, 0, |ops|)
  {
  }

  /** A pending start: everything behind it as the body, and once more. */
  lemma LaysPending(r: seq<Op>, buf: seq<Byte>, body: seq<Byte>, bpos: int -> int, code: seq<Byte>, rest: int -> int)
    returns (pos: int -> int)
    requires Lays(r, [], body, bpos)
    requires Lays(r, buf + X86.EncodeAll(LoopStartInstrs(|body|)) + body, code, rest)
    ensures Lays(Doubled(r), buf, code, pos)
  {
    hide X86.EncodeAll, LoopStartInstrs, Laid, TargetsIn, HasSlice, Doubled;
    var n, all := |r|, Doubled(r);
    var start := X86.EncodeAll(LoopStartInstrs(|body|));
    var offset := |buf| + |start|;
    pos := (k: int) => if k <= 0 then |buf| else if k <= n then bpos(k - 1) + offset else rest(k - 1 - n);
    SliceSplit(code, 0, buf + start, body);
    SliceSplit(code, 0, buf, start);
    FirstCopy(r, body, bpos, code, offset, pos);
    SecondCopy(r, code, rest, pos);
    PendingStart(r, code, pos, start, |body|);
    LaidJoin(all, code, pos, 0, 1, 1 + n);
    LaidJoin(all, code, pos, 0, 1 + n, |all|);
    TargetsPending(r);
  }

  lemma FirstCopy(r: seq<Op>, body: seq<Byte>, bpos: int -> int, code: seq<Byte>, offset: nat, pos: int -> int)
    requires Lays(r, [], body, bpos) && HasSlice(code, offset, body)
    requires forall k :: 1 <= k <= 1 + |r| ==> pos(k) == bpos(k - 1) + offset
    ensures Laid(Doubled(r), code, pos, 1, 1 + |r|)
  {
    hide X86.EncodeAll, LoopStartInstrs, Laid, TargetsIn, HasSlice;
    var shifted := (k: int) => bpos(k) + offset;
    LaidShifts(r, body, bpos, 0, |r|, code, offset, shifted);
    LaidRenumbered(r, code, shifted, 0, |r|, Doubled(r), 1, pos);
  }

  lemma SecondCopy(r: seq<Op>, code: seq<Byte>, rest: int -> int, pos: int -> int)
    requires Laid(r, code, rest, 0, |r|) && TargetsIn(r, 0, |r|)
    requires forall k :: 1 + |r| <= k <= 1 + 2 * |r| ==> pos(k) == rest(k - 1 - |r|)
    ensures Laid(Doubled(r), code, pos, 1 + |r|, 1 + 2 * |r|)
  {
    hide Laid, TargetsIn;
    LaidRenumbered(r, code, rest, 0, |r|, Doubled(r), 1 + |r|, pos);
  }

  lemma PendingStart(r: seq<Op>, code: seq<Byte>, pos: int -> int, start: seq<Byte>, size: nat)
    requires 0 <= pos(0) && pos(1) == pos(0) + |start| && pos(1 + |r|) == pos(1) + size
    requires start == X86.EncodeAll(LoopStartInstrs(size)) && HasSlice(code, pos(0), start)
    ensures Laid(Doubled(r), code, pos, 0, 1)
  {
    hide X86.EncodeAll, LoopStartInstrs, HasSlice, Doubled;
    LaidOne(Doubled(r), code, pos, 0, start);
  }

  lemma TargetsPending(r: seq<Op>)
    requires TargetsIn(r, 0, |r|)
    ensures TargetsIn(Doubled(r), 0, |Doubled(r)|)
  {
    var all := Doubled(r);
    forall k | 0 <= k < |all| && IsLoop(all[k]) ensures 0 <= Target(all, k) <= |all| {
      if k > 0 {
        var m := if k <= |r| then k - 1 else k - 1 - |r|;
        assert all[k] == r[m] && 0 <= Target(r, m) <= |r|;
      }
    }
  }

  /** A paired loop in front of what follows it. */
  lemma LaysLoop(prog: seq<Op>, i: nat, r: seq<Op>, buf: seq<Byte>, inner: seq<Byte>, bpos: int -> int,
                 code: seq<Byte>, rest: int -> int) returns (pos: int -> int)
    requires i < |prog| && prog[i].kind == LoopStart && PairOk(prog, i)
    requires Closed(prog, i, i + prog[i].arg + 1) && Paired(prog, i, i + prog[i].arg + 1)
    requires Appended(prog, i + 1, i + prog[i].arg, [], inner, bpos)
    requires var body := inner + X86.EncodeAll(LoopEndInstrs(|inner|));
             Lays(r, buf + X86.EncodeAll(LoopStartInstrs(|body|)) + body, code, rest)
    ensures Lays(prog[i..i + prog[i].arg + 1] + r, buf, code, pos)
  {
    hide X86.EncodeAll, LoopStartInstrs, LoopEndInstrs, Laid, HasSlice, Closed, Paired, TargetsIn, PairOk, Appended;
    PairEnds(prog, i);
    var d := prog[i].arg;
    var all := prog[i..i + d + 1] + r;
    var body := inner + X86.EncodeAll(LoopEndInstrs(|inner|));
    var inside, behind := (k: int) => bpos(k + i), (k: int) => rest(k - d - 1);
    LoopInside(prog, i, r, inner, bpos, inside);
    LoopBehind(prog, i, r, buf + X86.EncodeAll(LoopStartInstrs(|body|)) + body, code, rest, behind);
    ClosedTargets(prog, i, i + d + 1);
    LoopInFront(prog, i, r);
    assert all[0] == prog[i];
    pos := AssembleLoop(all, 0, |all|, buf, inner, inside, code, behind);
  }

  lemma LoopInside(prog: seq<Op>, i: nat, r: seq<Op>, inner: seq<Byte>, bpos: int -> int, inside: int -> int)
    requires i < |prog| && prog[i].kind == LoopStart && PairOk(prog, i)
    requires Closed(prog, i, i + prog[i].arg + 1) && Paired(prog, i, i + prog[i].arg + 1)
    requires Appended(prog, i + 1, i + prog[i].arg, [], inner, bpos) && forall k :: inside(k) == bpos(k + i)
    ensures var all := prog[i..i + prog[i].arg + 1] + r;
            Appended(all, 1, prog[i].arg, [], inner, inside) && TargetsIn(all, 1, prog[i].arg)
  {
    hide Laid, HasSlice, Closed, TargetsIn, PairOk;
    PairEnds(prog, i);
    var d := prog[i].arg;
    BodyClosedIn(prog, i, i + d + 1, i);
    ClosedTargets(prog, i + 1, i + d);
    LaidRenumbered(prog, inner, bpos, i + 1, i + d, prog[i..i + d + 1] + r, 1, inside);
  }

  lemma LoopBehind(prog: seq<Op>, i: nat, r: seq<Op>, buf: seq<Byte>, code: seq<Byte>, rest: int -> int, behind: int -> int)
    requires i < |prog| && prog[i].arg >= 0 && i + prog[i].arg < |prog|
    requires Lays(r, buf, code, rest) && forall k :: behind(k) == rest(k - prog[i].arg - 1)
    ensures var all := prog[i..i + prog[i].arg + 1] + r;
            Appended(all, prog[i].arg + 1, |all|, buf, code, behind) && TargetsIn(all, prog[i].arg + 1, |all|)
  {
    hide Laid, HasSlice, TargetsIn;
    var d := prog[i].arg;
    LaidRenumbered(r, code, rest, 0, |r|, prog[i..i + d + 1] + r, d + 1, behind);
  }

  lemma LoopInFront(prog: seq<Op>, i: nat, r: seq<Op>)
    requires i < |prog| && prog[i].kind == LoopStart && PairOk(prog, i)
    requires TargetsIn(prog, i, i + prog[i].arg + 1) && TargetsIn(r, 0, |r|)
    ensures var all := prog[i..i + prog[i].arg + 1] + r; PairOk(all, 0) && TargetsIn(all, 0, |all|)
  {
    var d := prog[i].arg;
    var all := prog[i..i + d + 1] + r;
    forall k | 0 <= k <= d ensures all[k] == prog[k + i] {
    }
    forall m | 0 < m < d && all[m].kind == LoopStart ensures m + all[m].arg < d {
      assert all[m] == prog[m + i];
    }
    forall k | 0 <= k < |all| && IsLoop(all[k]) ensures 0 <= Target(all, k) <= |all| {
      if k <= d {
        assert i <= Target(prog, k + i) <= i + d + 1;
      } else {
        assert all[k] == r[k - d - 1] && 0 <= Target(r, k - d - 1) <= |r|;
      }
    }
  }

  /** Whatever is pending, the compiler lays out the expansion. */
  lemma {:induction false} OpenLays(prog: seq<Op>, i: nat, buf: seq<Byte>) returns (code: seq<Byte>, pos: int -> int)
    requires Open(prog) && Outside(prog, i) && ForwardStarts(prog) && InRange(prog, 0, |prog|) && i <= |prog|
    requires prog != [] && prog[|prog| - 1].kind == Halt
    ensures CompileFrom(prog, i, buf) == Outcome(CompileOk, code) && Lays(Expand(prog, i), buf, code, pos)
    decreases |prog| - i
  {
    hide X86.EncodeAll, OpInstrs, LoopStartInstrs, LoopEndInstrs, OperandTooBig, HasSlice, Laid, Outside, Lays;
    if i == |prog| {
      code, pos := buf, (k: int) => |buf|;
      LaysNothing(buf);
    } else {
      OutsideNext(prog, i);
      var rest;
      if IsPending(prog[i]) {
        var body, bpos := OpenLays(prog, i + 1, []);
        code, rest := OpenLays(prog, i + 1, buf + X86.EncodeAll(LoopStartInstrs(|body|)) + body);
        pos := LaysPending(Expand(prog, i + 1), buf, body, bpos, code, rest);
      } else if prog[i].kind == LoopStart {
        var j := i + prog[i].arg;
        BodyClosedIn(prog, i, j + 1, i);
        var inner, bpos := CompileLays(prog, i + 1, j, []);
        var body := inner + X86.EncodeAll(LoopEndInstrs(|inner|));
        code, rest := OpenLays(prog, j + 1, buf + X86.EncodeAll(LoopStartInstrs(|body|)) + body);
        pos := LaysLoop(prog, i, Expand(prog, j + 1), buf, inner, bpos, code, rest);
        assert OpenAt(prog, i);
        PairHasNonePending(prog, i);
        ExpandPrefix(prog, i, j + 1);
      } else {
        code, rest := OpenLays(prog, i + 1, buf + X86.EncodeAll(OpInstrs(prog[i])));
        pos := LaysPlain(prog[i], Expand(prog, i + 1), buf, code, rest);
      }
    }
  }

  lemma LaysNothing(buf: seq<Byte>)
    ensures Lays([], buf, buf, (k: int) => |buf|)
  {
  }

  /** Jumps go the right way, and every operation is one of the program, apart from the distances of starts. */
  predicate JumpsAhead(prog: seq<Op>, e: seq<Op>, k: nat)
    requires k < |e|
  {
    && (e[k].kind == LoopStart ==> e[k].arg >= 0 && Target(e, k) < |e|)
    && (e[k].kind == LoopEnd ==> e[k].arg < 0)
    && (e[k] in prog || e[k].kind == LoopStart)
  }

  lemma {:induction false} ExpandJumps(prog: seq<Op>, i: nat)
    requires Open(prog) && i <= |prog| && prog != [] && prog[|prog| - 1].kind == Halt
    ensures forall k :: 0 <= k < |Expand(prog, i)| ==> JumpsAhead(prog, Expand(prog, i), k)
    decreases |prog| - i
  {
    hide Open;
    if i < |prog| {
      var e, r := Expand(prog, i), Expand(prog, i + 1);
      ExpandJumps(prog, i + 1);
      ExpandEnds(prog, i);
      OpenHere(prog, i);
      FirstAhead(prog, i);
      forall k | 0 < k < |e| ensures JumpsAhead(prog, e, k) {
        var m := if k <= |r| then k - 1 else k - 1 - |r|;
        assert e[k] == r[m] && JumpsAhead(prog, r, m);
      }
    }
  }

  lemma FirstAhead(prog: seq<Op>, i: nat)
    requires i < |prog| && OpenAt(prog, i) && prog[|prog| - 1].kind == Halt
    ensures var e := Expand(prog, i); e != [] && JumpsAhead(prog, e, 0)
  {
    hide PairOk, Doubled;
    if IsPending(prog[i]) {
      if i + 1 < |prog| {
        ExpandEnds(prog, i + 1);
      }
    } else if prog[i].kind == LoopStart {
      PairFits(prog, i);
    } else if prog[i].kind == LoopEnd {
      EndsGoBack(prog, i);
    }
  }

  lemma EndsGoBack(prog: seq<Op>, i: nat)
    requires i < |prog| && PairOk(prog, i) && prog[i].kind == LoopEnd
    ensures prog[i].arg < 0
  {
  }

  lemma PairFits(prog: seq<Op>, i: nat)
    requires i < |prog| && OpenAt(prog, i) && prog[|prog| - 1].kind == Halt
    requires prog[i].kind == LoopStart && !IsPending(prog[i])
    ensures prog[i].arg >= 0 && i + prog[i].arg + 1 < |prog| && prog[i].arg + 1 < |Expand(prog, i)|
  {
    hide Expand;
    var j := i + prog[i].arg;
    PairHasNonePending(prog, i);
    ExpandPrefix(prog, i, j + 1);
    ExpandEnds(prog, j + 1);
  }

  lemma ExpandJumpsOk(prog: seq<Op>)
    requires Open(prog) && prog != [] && prog[|prog| - 1].kind == Halt && TargetsIn(Expand(prog, 0), 0, |Expand(prog, 0)|)
    ensures JumpsOk(Expand(prog, 0))
  {
    hide Expand, Open;
    ExpandJumps(prog, 0);
    var e := Expand(prog, 0);
    forall k | 0 <= k < |e| ensures JumpOk(e, k) {
      assert JumpsAhead(prog, e, k);
    }
  }

  // ----- the interpreter on the expansion -----

  /** Operation `x` of `e` is operation `i` of the program, in a copy that begins with operation `from`. */
  ghost predicate InCopy(prog: seq<Op>, e: seq<Op>, i: nat, x: nat, from: nat) {
    && from <= i < |prog| && Outside(prog, from) && NonePending(prog, from, i)
    && x + from >= i && HasSlice(e, x + from - i, Expand(prog, from))
  }

  /** The same store, both running, halted or crashed, and if running, at the same operation. */
  ghost predicate Match(prog: seq<Op>, e: seq<Op>, c: Config, d: Config) {
    && c.st == d.st
    && match c
       case Running(i, _) => d.Running? && 0 <= i && 0 <= d.pc && exists from: nat :: InCopy(prog, e, i, d.pc, from)
       case Halted(_) => d.Halted?
       case Crashed(_) => d.Crashed?
  }

  lemma CopyAt(prog: seq<Op>, e: seq<Op>, i: nat, x: nat, from: nat)
    requires InCopy(prog, e, i, x, from)
    ensures HasSlice(e, x, Expand(prog, i)) && Expand(prog, i) != [] && x < |e| && e[x] == Expand(prog, i)[0]
  {
    hide Expand, HasSlice, Outside;
    ExpandPlain(prog, i);
    ExpandPrefix(prog, from, i);
    SliceSplit(e, x + from - i, prog[from..i], Expand(prog, i));
    SliceEnds(e, x, Expand(prog, i));
    SliceElement(e, x, Expand(prog, i), 0);
  }

  /** Going on inside the copy, at a place that no pending start separates. */
  lemma CopyMoves(prog: seq<Op>, e: seq<Op>, i: nat, x: nat, from: nat, i': nat)
    requires InCopy(prog, e, i, x, from) && from <= i' < |prog| && NonePending(prog, from, i')
    ensures i' - i + x >= 0 && InCopy(prog, e, i', i' - i + x, from)
  {
  }

  lemma CopyBegins(prog: seq<Op>, e: seq<Op>, i: nat, x: nat)
    requires i < |prog| && Outside(prog, i) && HasSlice(e, x, Expand(prog, i))
    ensures InCopy(prog, e, i, x, i)
  {
    hide HasSlice, Expand, Outside;
  }

  /** Behind a pending start both ways lead to a copy of the rest. */
  lemma PendingStep(prog: seq<Op>, e: seq<Op>, i: nat, x: nat, from: nat)
    requires Open(prog) && InCopy(prog, e, i, x, from) && IsPending(prog[i]) && i + 1 < |prog|
    ensures x < |e| && e[x] == Op(LoopStart, |Expand(prog, i + 1)|)
    ensures InCopy(prog, e, i + 1, x + 1, i + 1)
    ensures InCopy(prog, e, i + 1, x + 1 + |Expand(prog, i + 1)|, i + 1)
  {
    hide HasSlice, Expand, Open, InCopy;
    var r := Expand(prog, i + 1);
    CopyInside(prog, e, i, x, from);
    CopyAt(prog, e, i, x, from);
    ExpandPlain(prog, i);
    PendingOutside(prog, i);
    SliceSplit(e, x, [Op(LoopStart, |r|)] + r, r);
    SliceSplit(e, x, [Op(LoopStart, |r|)], r);
    CopyBegins(prog, e, i + 1, x + 1);
    CopyBegins(prog, e, i + 1, x + 1 + |r|);
  }

  /** Where the interpreter may go from an operation that is not pending. */
  lemma NextInCopy(prog: seq<Op>, i: nat, from: nat)
    requires Open(prog) && from <= i < |prog| && Outside(prog, from) && NonePending(prog, from, i) && !IsPending(prog[i])
    requires prog[|prog| - 1].kind == Halt && prog[i].kind != Halt
    ensures i + 1 < |prog| && NonePending(prog, from, i + 1)
    ensures IsLoop(prog[i]) ==> from <= Target(prog, i) < |prog| && NonePending(prog, from, Target(prog, i))
  {
    assert OpenAt(prog, i);
    if prog[i].kind == LoopEnd {
      assert OpenAt(prog, i + prog[i].arg);
    }
  }

  /** Where it goes in the copy. */
  lemma PlainMoves(prog: seq<Op>, e: seq<Op>, i: nat, x: nat, from: nat)
    requires Open(prog) && InCopy(prog, e, i, x, from) && !IsPending(prog[i]) && x < |e| && e[x] == prog[i]
    requires prog[|prog| - 1].kind == Halt && prog[i].kind != Halt
    ensures InCopy(prog, e, i + 1, x + 1, from)
    ensures IsLoop(prog[i]) ==> 0 <= Target(prog, i) && 0 <= Target(e, x) && InCopy(prog, e, Target(prog, i), Target(e, x), from)
  {
    hide Open, Outside, NonePending, HasSlice, Expand;
    NextInCopy(prog, i, from);
    CopyMoves(prog, e, i, x, from, i + 1);
    if IsLoop(prog[i]) {
      CopyMoves(prog, e, i, x, from, Target(prog, i));
    }
  }

  lemma StepMatches(prog: seq<Op>, e: seq<Op>, c: Config, d: Config)
    requires Open(prog) && prog != [] && prog[|prog| - 1].kind == Halt && Match(prog, e, c, d)
    ensures Match(prog, e, Step(prog)(c), Step(e)(d))
    ensures NoWrap(prog, c) <==> NoWrap(e, d)
  {
    hide Open, InCopy, HasSlice, Expand;
    if c.Running? {
      var i, x := c.pc, d.pc;
      var from: nat :| InCopy(prog, e, i, x, from);
      CopyInside(prog, e, i, x, from);
      CopyAt(prog, e, i, x, from);
      if IsPending(prog[i]) {
        PendingMatches(prog, e, i, x, from, c.st);
      } else {
        ExpandPlain(prog, i);
        assert e[x] == prog[i];
        if prog[i].kind != Halt {
          PlainMoves(prog, e, i, x, from);
        }
        PlainMatches(prog, e, i, x, from, c.st);
      }
    }
  }

  lemma PendingMatches(prog: seq<Op>, e: seq<Op>, i: nat, x: nat, from: nat, s: State)
    requires Open(prog) && prog != [] && prog[|prog| - 1].kind == Halt
    requires InCopy(prog, e, i, x, from) && IsPending(prog[i])
    ensures x < |e| && e[x].kind == LoopStart && Match(prog, e, Execute(prog[i], i, s), Execute(e[x], x, s))
  {
    hide Open, InCopy;
    assert i < |prog| - 1 by { CopyInside(prog, e, i, x, from); }
    PendingStep(prog, e, i, x, from);
  }

  lemma CopyInside(prog: seq<Op>, e: seq<Op>, i: nat, x: nat, from: nat)
    requires InCopy(prog, e, i, x, from)
    ensures i < |prog|
  {
  }

  lemma PlainMatches(prog: seq<Op>, e: seq<Op>, i: nat, x: nat, from: nat, s: State)
    requires i < |prog| && x < |e| && e[x] == prog[i] && !IsPending(prog[i])
    requires prog[i].kind != Halt ==> InCopy(prog, e, i + 1, x + 1, from)
    requires IsLoop(prog[i]) ==> 0 <= Target(prog, i) && 0 <= Target(e, x) && InCopy(prog, e, Target(prog, i), Target(e, x), from)
    ensures Match(prog, e, Execute(prog[i], i, s), Execute(e[x], x, s))
  {
    hide InCopy;
  }

  lemma StartMatches(prog: seq<Op>, s: State)
    requires prog != []
    ensures var e, c := Expand(prog, 0), Running(0, s);
            Match(prog, e, Runs.Iterate(Step(prog), 0, c), Runs.Iterate(Step(e), 0, c))
  {
    hide Expand, HasSlice;
    var e := Expand(prog, 0);
    SliceWhole(e);
    assert InCopy(prog, e, 0, 0, 0);
  }

  /** From the first operation on, the program and its expansion go through the same stores. */
  lemma {:induction false} ExpansionRuns(prog: seq<Op>, s: State, n: nat)
    requires Open(prog) && prog != [] && prog[|prog| - 1].kind == Halt
    ensures var e := Expand(prog, 0);
            && Match(prog, e, Runs.Iterate(Step(prog), n, Running(0, s)), Runs.Iterate(Step(e), n, Running(0, s)))
            && (NoWrap(prog, Runs.Iterate(Step(prog), n, Running(0, s))) <==> NoWrap(e, Runs.Iterate(Step(e), n, Running(0, s))))
  {
    hide Open, Step, Match, NoWrap, Expand, Runs.Iterate;
    var e := Expand(prog, 0);
    if n == 0 {
      StartMatches(prog, s);
    } else {
      ExpansionRuns(prog, s, n - 1);
      Runs.IterateAdd(Step(prog), n - 1, 1, Running(0, s));
      Runs.IterateAdd(Step(e), n - 1, 1, Running(0, s));
      Runs.OneStep(Step(prog), Runs.Iterate(Step(prog), n - 1, Running(0, s)));
      Runs.OneStep(Step(e), Runs.Iterate(Step(e), n - 1, Running(0, s)));
      StepMatches(prog, e, Runs.Iterate(Step(prog), n - 1, Running(0, s)), Runs.Iterate(Step(e), n - 1, Running(0, s)));
    }
    StepMatches(prog, e, Runs.Iterate(Step(prog), n, Running(0, s)), Runs.Iterate(Step(e), n, Running(0, s)));
  }
}
