/** lib/ir.ml and bin/interpreter.ml: the tree IR and its interpreter. `fuel` bounds the nesting of loop
    iterations; a run out of fuel reports the store it had reached. */
module TreeIr {
  import opened MachineInts
  import opened Store

  datatype Ir = Tape(n: int) | Cell(n: int) | Read | Write | Set(n: int) | Loop(body: seq<Ir>)

  /** End of a run: normally, out of fuel, or with the exceptions of array access, input_char and Char.chr. */
  datatype Outcome = Done(st: State) | Timeout(st: State) | OutOfRange(st: State) | EndOfInput(st: State) | BadChar(st: State)

  /** The remainder of a division that truncates toward zero. */
  function Mod(a: int, b: int): int
    requires b > 0
  {
    if a >= 0 then a % b else -(-a % b)
  }

  function Imod(a: int, b: int): int
    requires b > 0
  {
    var m := Mod(a, b);
    if m >= 0 then m else m + b
  }

  /** The cell after adding `x`; the two branches use different remainders. */
  function AddToCell(c: Byte, x: int): int {
    if x > 0 then Mod(c + x, 256) else Imod(c + x, 256)
  }

  /** Both branches are addition modulo 256. */
  lemma AddToCellWraps(c: Byte, x: int)
    ensures AddToCell(c, x) == Wrap8(c + x)
  {
    var a := c + x;
    if a < 0 {
      var q, r := -a / 256, -a % 256;
      assert a == 256 * (-q) - r;
      Wrap8Shift(-r, -q);
    }
  }

  function Exec(p: seq<Ir>, s: State, fuel: nat): Outcome
    decreases fuel, p
  {
    if p == [] then Done(s)
    else match ExecOne(p[0], s, fuel)
      case Done(t) => Exec(p[1..], t, fuel)
      case other => other
  }

  /** The right-hand side of a tape assignment is evaluated before the index is checked. */
  function ExecOne(i: Ir, s: State, fuel: nat): Outcome
    decreases fuel, i
  {
    match i
    case Tape(x) => Done(s.Move(x))
    case Set(x) => if !(0 <= x < 256) then BadChar(s) else if s.OnTape() then Done(s.WithCell(x)) else OutOfRange(s)
    case Cell(x) =>
      if s.OnTape() then (AddToCellWraps(s.Cell(), x); Done(s.WithCell(AddToCell(s.Cell(), x)))) else OutOfRange(s)
    case Loop(body) => ExecLoop(body, s, fuel)
    case Read =>
      if s.input == [] then EndOfInput(s)
      else if s.OnTape() then Done(s.Read()) else OutOfRange(s.(input := s.input[1..]))
    case Write => if s.OnTape() then Done(s.Write()) else OutOfRange(s)
  }

  function ExecLoop(body: seq<Ir>, s: State, fuel: nat): Outcome
    decreases fuel, body
  {
    if !s.OnTape() then OutOfRange(s)
    else if s.Cell() == 0 then Done(s)
    else if fuel == 0 then Timeout(s)
    else match Exec(body, s, fuel - 1)
      case Done(t) => ExecLoop(body, t, fuel - 1)
      case other => other
  }

  /** Going on with `p` where a run ended normally. */
  function Then(o: Outcome, p: seq<Ir>, fuel: nat): Outcome { if o.Done? then Exec(p, o.st, fuel) else o }

  lemma {:induction false} ExecConcat(p: seq<Ir>, q: seq<Ir>, s: State, fuel: nat)
    ensures Exec(p + q, s, fuel) == Then(Exec(p, s, fuel), q, fuel)
    decreases |p|
  {
    hide ExecOne;
    if p == [] {
      assert p + q == q;
    } else {
      assert (p + q)[0] == p[0] && (p + q)[1..] == p[1..] + q;
      var o := ExecOne(p[0], s, fuel);
      if o.Done? {
        ExecConcat(p[1..], q, o.st, fuel);
      }
    }
  }

  lemma ExecCons(i: Ir, p: seq<Ir>, s: State, fuel: nat)
    ensures Exec([i] + p, s, fuel) == Then(ExecOne(i, s, fuel), p, fuel)
  {
    hide ExecOne;
    assert ([i] + p)[1..] == p;
  }

  lemma ExecSingle(i: Ir, s: State, fuel: nat)
    ensures Exec([i], s, fuel) == ExecOne(i, s, fuel)
  {
    hide ExecOne;
    assert [i][1..] == [];
    var o := ExecOne(i, s, fuel);
    if o.Done? {
      assert Exec([], o.st, fuel) == o;
    }
  }

  /** A loop that ends leaves a zero under a pointer inside the tape. */
  lemma {:induction false} LoopLeavesZero(body: seq<Ir>, s: State, fuel: nat)
    ensures var o := ExecLoop(body, s, fuel); o.Done? ==> o.st.OnTape() && o.st.Cell() == 0
    decreases fuel
  {
    hide Exec;
    if fuel > 0 && s.OnTape() {
      var o := Exec(body, s, fuel - 1);
      if o.Done? {
        LoopLeavesZero(body, o.st, fuel - 1);
      }
    }
  }

  /** Which exception a single instruction raises, if any: Char.chr and input_char come before the access to the
      tape, and the byte that was read is gone when that access fails. */
  lemma Exceptions(i: Ir, s: State, fuel: nat)
    requires !i.Loop?
    ensures var o := ExecOne(i, s, fuel);
            if i.Set? && (i.n < 0 || 255 < i.n) then o == BadChar(s)
            else if i.Read? && |s.input| == 0 then o == EndOfInput(s)
            else if !i.Tape? && (s.dp < 0 || |s.tape| <= s.dp) then
              o.OutOfRange? && o.st.tape == s.tape && |o.st.input| == |s.input| - (if i.Read? then 1 else 0) && o.st.output == s.output
            else o.Done?
  {
  }

  // ----- the interpreter on a tape updated in place -----

  class TreeMachine {
    const tape: array<Byte>
    var stdin: seq<Byte>
    var stdout: seq<Byte>

    constructor (size: nat, input: seq<Byte>)
      ensures fresh(tape) && tape.Length == size
      ensures Contents(0) == State(0, seq(size, i => 0), input, [])
    {
      tape := new Byte[size](i => 0);
      stdin, stdout := input, [];
      new;
      assert tape[..] == seq(size, i => 0);
    }

    ghost function Contents(dp: int): State
      reads this, tape
    {
      State(dp, tape[..], stdin, stdout)
    }

    method Observe(dp: int) returns (s: State)
      ensures s == Contents(dp)
    {
      s := State(dp, tape[..], stdin, stdout);
    }

    /** `f p dp ip` */
    method Run(p: seq<Ir>, dp: int, ip: nat, fuel: nat) returns (o: Outcome)
      requires ip <= |p|
      modifies this, tape
      ensures o == Exec(p[ip..], old(Contents(dp)), fuel) && o.st == Contents(o.st.dp)
      decreases fuel, p[ip..], 1
    {
      if ip == |p| {
        var s := Observe(dp);
        return Done(s);
      }
      assert p[ip..][0] == p[ip] && p[ip..][1..] == p[ip + 1..];
      o := RunOne(p[ip], dp, fuel);
      if o.Done? {
        o := Run(p, o.st.dp, ip + 1, fuel);
      }
    }

    method RunOne(i: Ir, dp: int, fuel: nat) returns (o: Outcome)
      modifies this, tape
      ensures o == ExecOne(i, old(Contents(dp)), fuel) && o.st == Contents(o.st.dp)
      decreases fuel, i, 1
    {
      var inRange := 0 <= dp < tape.Length;
      var here := Observe(dp);
      match i
      case Tape(x) => o := Done(here.Move(x));
      case Set(x) =>
        if !(0 <= x < 256) {
          return BadChar(here);
        }
        if !inRange {
          return OutOfRange(here);
        }
        tape[dp] := x;
        here := Observe(dp);
        o := Done(here);
      case Cell(x) =>
        if !inRange {
          return OutOfRange(here);
        }
        AddToCellWraps(tape[dp], x);
        tape[dp] := AddToCell(tape[dp], x);
        here := Observe(dp);
        o := Done(here);
      case Loop(body) => o := RunLoop(body, dp, fuel);
      case Read =>
        if stdin == [] {
          return EndOfInput(here);
        }
        var c := stdin[0];
        stdin := stdin[1..];
        if inRange {
          tape[dp] := c;
        }
        here := Observe(dp);
        o := if inRange then Done(here) else OutOfRange(here);
      case Write =>
        if !inRange {
          return OutOfRange(here);
        }
        stdout := stdout + [tape[dp]];
        here := Observe(dp);
        o := Done(here);
    }

    method RunLoop(body: seq<Ir>, dp: int, fuel: nat) returns (o: Outcome)
      modifies this, tape
      ensures o == ExecLoop(body, old(Contents(dp)), fuel) && o.st == Contents(o.st.dp)
      decreases fuel, body, 2
    {
      var here := Observe(dp);
      if !(0 <= dp < tape.Length) {
        return OutOfRange(here);
      }
      if tape[dp] == 0 {
        return Done(here);
      }
      if fuel == 0 {
        return Timeout(here);
      }
      assert body[0..] == body;
      o := Run(body, dp, 0, fuel - 1);
      if o.Done? {
        o := RunLoop(body, o.st.dp, fuel - 1);
      }
    }
  }
}
