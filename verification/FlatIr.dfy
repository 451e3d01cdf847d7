/** The flat IR of csrc: operations with relative jumps, its bracket structure and its interpreter. */
module FlatIr {
  import opened MachineInts
  import opened Store
  import opened Runs
  import Bits

  datatype Kind = Tape | Cell | LoopStart | LoopEnd | Write | Read | Set | Halt

  datatype Op = Op(kind: Kind, arg: int)

  // ----- bracket structure -----

  ghost predicate Within(ops: seq<Op>, k: nat, j: nat)
    requires j <= |ops|
  {
    forall m :: k < m < j && ops[m].kind == LoopStart ==> m + ops[m].arg < j
  }

  ghost predicate PairOk(ops: seq<Op>, k: nat)
    requires k < |ops|
  {
    var d := ops[k].arg;
    match ops[k].kind
    case LoopStart => 0 < d && k + d < |ops| && ops[k + d] == Op(LoopEnd, -d) && Within(ops, k, k + d)
    case LoopEnd => d < 0 <= k + d && ops[k + d] == Op(LoopStart, -d)
    case _ => true
  }

  /** Every start faces its end at distance `arg`, every end its start, and the pairs nest. */
  ghost predicate Balanced(ops: seq<Op>) {
    forall k :: 0 <= k < |ops| ==> PairOk(ops, k)
  }

  ghost predicate Paired(ops: seq<Op>, lo: nat, hi: nat)
    requires hi <= |ops|
  {
    forall k :: lo <= k < hi ==> PairOk(ops, k)
  }

  /** No pair crosses a border of ops[lo..hi]. */
  ghost predicate Closed(ops: seq<Op>, lo: nat, hi: nat) {
    && lo <= hi <= |ops|
    && (forall m :: lo <= m < hi && ops[m].kind == LoopStart ==> m + ops[m].arg < hi)
    && (forall m :: lo <= m < hi && ops[m].kind == LoopEnd ==> lo <= m + ops[m].arg)
  }

  lemma WholeClosed(ops: seq<Op>)
    requires Balanced(ops)
    ensures Closed(ops, 0, |ops|)
  {
    forall m | 0 <= m < |ops|
      ensures ops[m].kind == LoopStart ==> m + ops[m].arg < |ops|
      ensures ops[m].kind == LoopEnd ==> 0 <= m + ops[m].arg
    {
      assert PairOk(ops, m);
    }
  }

  lemma BodyClosed(ops: seq<Op>, k: nat)
    requires Balanced(ops) && k < |ops| && ops[k].kind == LoopStart
    ensures PairOk(ops, k) && Closed(ops, k + 1, k + ops[k].arg)
  {
    WholeClosed(ops);
    BodyClosedIn(ops, 0, |ops|, k);
  }

  lemma BodyClosedIn(ops: seq<Op>, lo: nat, hi: nat, k: nat)
    requires Closed(ops, lo, hi) && Paired(ops, lo, hi) && lo <= k < hi && ops[k].kind == LoopStart
    ensures PairOk(ops, k) && Closed(ops, k + 1, k + ops[k].arg)
  {
    assert PairOk(ops, k);
    var j := k + ops[k].arg;
    forall m | k < m < j && ops[m].kind == LoopEnd ensures k + 1 <= m + ops[m].arg {
      assert PairOk(ops, m);
      assert PairOk(ops, m + ops[m].arg);
    }
  }

  lemma RestClosed(ops: seq<Op>, lo: nat, hi: nat)
    requires Closed(ops, lo, hi) && Paired(ops, lo, hi) && lo < hi
    ensures ops[lo].kind != LoopEnd
    ensures ops[lo].kind == LoopStart ==> PairOk(ops, lo) && Closed(ops, lo + ops[lo].arg + 1, hi)
    ensures ops[lo].kind != LoopStart ==> Closed(ops, lo + 1, hi)
  {
    assert PairOk(ops, lo);
    var next := if ops[lo].kind == LoopStart then lo + ops[lo].arg + 1 else lo + 1;
    forall m | next <= m < hi && ops[m].kind == LoopEnd ensures next <= m + ops[m].arg {
      assert PairOk(ops, m);
      assert PairOk(ops, m + ops[m].arg);
    }
  }

  // ----- the interpreter -----

  /** The pointer after a move. The comparison with the capacity is unsigned,
      so a negative pointer takes the first branch and moves further down. */
  function WrapPointer(sp: int, capacity: nat): int {
    if sp < 0 || sp >= capacity then sp - capacity else sp
  }

  /** The wrap of one move brings the pointer onto the tape exactly when the move did not leave it below
      and at most one tape length too far; from below it leads further down. */
  lemma WrapsOnlyAtTheTop(sp: int, capacity: nat)
    ensures 0 <= WrapPointer(sp, capacity) < capacity <==> 0 <= sp < 2 * capacity
    ensures sp < 0 ==> WrapPointer(sp, capacity) == sp - capacity
  {
  }

  /** Where a move of a pointer on the tape takes it: up to one tape length too far it comes in again at the
      front; everything else loses one tape length and is off the tape. */
  lemma MoveLands(prog: seq<Op>, ip: nat, s: State)
    requires s.OnTape() && ip < |prog| && prog[ip].kind == Tape
    ensures var sum, capacity := s.dp + prog[ip].arg, |s.tape|;
            Step(prog)(Running(ip, s))
            == Running(ip + 1, s.(dp := if 0 <= sum < 2 * capacity then sum % capacity else sum - capacity))
  {
    var sum, capacity := s.dp + prog[ip].arg, |s.tape|;
    if 0 <= sum < 2 * capacity {
      Bits.ModUnique(sum, capacity, if sum < capacity then 0 else 1, if sum < capacity then sum else sum - capacity);
    }
  }

  /** A Set leaves the low byte of its argument in the cell, and nothing else changes. */
  lemma SetStores(prog: seq<Op>, ip: nat, s: State)
    requires s.OnTape() && ip < |prog| && prog[ip].kind == Set
    ensures var t := Step(prog)(Running(ip, s));
            t == Running(ip + 1, s.(tape := t.st.tape)) && t.st.tape == s.tape[..s.dp] + [prog[ip].arg % 256] + s.tape[s.dp + 1..]
  {
  }

  predicate TouchesCell(op: Op) {
    match op.kind
    case Tape | Halt => false
    case Read | Write => op.arg > 0
    case _ => true
  }

  function Execute(op: Op, ip: nat, s: State): Config {
    if TouchesCell(op) && !s.OnTape() then Crashed(s)
    else match op.kind
      case Tape => Running(ip + 1, s.(dp := WrapPointer(s.dp + op.arg, |s.tape|)))
      case Cell => Running(ip + 1, s.AddCell(op.arg))
      case LoopStart => Running(if s.Cell() == 0 then ip + op.arg + 1 else ip + 1, s)
      case LoopEnd => Running(if s.Cell() != 0 then ip + op.arg + 1 else ip + 1, s)
      case Write => Running(ip + 1, if op.arg > 0 then WriteN(s, op.arg) else s)
      case Read => Running(ip + 1, if op.arg > 0 then ReadN(s, op.arg) else s)
      case Set => Running(ip + 1, s.WithCell(Wrap8(op.arg)))
      case Halt => Halted(s)
  }

  function Step(prog: seq<Op>): Config -> Config {
    (c: Config) => match c
      case Running(ip, s) => if 0 <= ip < |prog| then Execute(prog[ip], ip, s) else Crashed(s)
      case _ => c
  }

  /** What both consumers of the IR run: the operations followed by a halt. */
  function WithHalt(ops: seq<Op>): seq<Op> { ops + [Op(Halt, 0)] }

  /** A move of this step keeps the pointer inside the tape, so nothing wraps. */
  ghost predicate NoWrap(prog: seq<Op>, c: Config) {
    c.Running? && 0 <= c.pc < |prog| && prog[c.pc].kind == Tape ==> 0 <= c.st.dp + prog[c.pc].arg < |c.st.tape|
  }

  ghost predicate StaysOnTape(prog: seq<Op>, c: Config) {
    forall n: nat :: NoWrap(prog, Iterate(Step(prog), n, c))
  }

  lemma StaysOnTapeStep(prog: seq<Op>, c: Config)
    requires StaysOnTape(prog, c)
    ensures NoWrap(prog, c) && StaysOnTape(prog, Step(prog)(c))
  {
    assert Iterate(Step(prog), 0, c) == c;
    forall n: nat ensures NoWrap(prog, Iterate(Step(prog), n, Step(prog)(c))) {
      assert Iterate(Step(prog), n + 1, c) == Iterate(Step(prog), n, Step(prog)(c));
    }
  }

  // ----- below the tape, for operations of any origin -----

  /** The next operation moves a pointer below the tape back to 0 or above. */
  predicate ClimbsBack(prog: seq<Op>, c: Config) {
    c.Running? && 0 <= c.pc < |prog| && prog[c.pc].kind == Tape && prog[c.pc].arg >= -c.st.dp
  }

  /** A step from below the tape stays below exactly when it does not move up by the whole distance. It
      reaches the tape exactly when it also does not overshoot by a tape length. */
  lemma StepFromBelow(prog: seq<Op>, c: Config)
    requires c.st.dp < 0
    ensures var d := Step(prog)(c);
            && (d.st.dp < 0 <==> !ClimbsBack(prog, c))
            && (d.st.OnTape() <==> ClimbsBack(prog, c) && c.st.dp + prog[c.pc].arg < 2 * |c.st.tape|)
  {
  }

  ghost predicate Below(prog: seq<Op>, c: Config, m: nat) { Iterate(Step(prog), m, c).st.dp < 0 }

  ghost predicate Climbs(prog: seq<Op>, c: Config, m: nat) { ClimbsBack(prog, Iterate(Step(prog), m, c)) }

  /** A run that is below the tape remains there exactly as long as no single move makes up for the distance. */
  lemma {:induction false} RunsBelow(prog: seq<Op>, c: Config, n: nat)
    requires c.st.dp < 0
    ensures (forall m: nat :: m <= n ==> Below(prog, c, m)) <==> (forall m: nat :: m < n ==> !Climbs(prog, c, m))
  {
    hide Step, ClimbsBack;
    if n > 0 {
      RunsBelow(prog, c, n - 1);
      IterateAdd(Step(prog), n - 1, 1, c);
      var x := Iterate(Step(prog), n - 1, c);
      assert Iterate(Step(prog), 1, x) == Iterate(Step(prog), 0, Step(prog)(x));
      if Below(prog, c, n - 1) {
        StepFromBelow(prog, x);
        assert Below(prog, c, n) <==> !Climbs(prog, c, n - 1);
      }
    } else {
      assert Iterate(Step(prog), 0, c) == c;
    }
  }

  /** Operations that no text is parsed to, two moves in a row: the second brings the pointer back. */
  lemma BelowAndBack(tape: seq<Byte>)
    requires |tape| == 30000
    ensures var prog, c := WithHalt([Op(Tape, -1), Op(Tape, 30005)]), Running(0, State(0, tape, [], []));
            Below(prog, c, 1) && Iterate(Step(prog), 2, c) == Running(2, State(4, tape, [], []))
  {
    var prog, c := WithHalt([Op(Tape, -1), Op(Tape, 30005)]), Running(0, State(0, tape, [], []));
    var d := Step(prog)(c);
    assert d == Running(1, State(-30001, tape, [], []));
    assert Iterate(Step(prog), 1, c) == Iterate(Step(prog), 0, d);
    assert Iterate(Step(prog), 2, c) == Iterate(Step(prog), 1, d) == Iterate(Step(prog), 0, Step(prog)(d));
  }
}
