/** csrc/src/ir_interpret.c: the dispatch loop over a tape updated in place. `fuel` bounds the number of
    dispatched operations, so that runs that do not end can be observed at every point. */
module Interpret {
  import opened MachineInts
  import opened Runs
  import opened Store
  import opened FlatIr

  class Interpreter {
    const data: array<Byte>
    var sp: int
    var stdin: seq<Byte>
    var stdout: seq<Byte>

    constructor (capacity: nat, input: seq<Byte>)
      ensures fresh(data) && data.Length == capacity
      ensures Contents() == State(0, seq(capacity, i => 0), input, [])
    {
      data := new Byte[capacity](i => 0);
      sp, stdin, stdout := 0, input, [];
      new;
      assert data[..] == seq(capacity, i => 0);
    }

    ghost function Contents(): State
      reads this, data
    {
      State(sp, data[..], stdin, stdout)
    }

    method WriteCell(count: int)
      requires count > 0 && Contents().OnTape()
      modifies this`stdout
      ensures Contents() == WriteN(old(Contents()), count)
    {
      var i := 0;
      while i < count
        invariant 0 <= i <= count && sp == old(sp) && data[..] == old(data[..])
        invariant Contents() == WriteN(old(Contents()), i)
      {
        WriteNStep(old(Contents()), i);
        stdout := stdout + [data[sp]];
        i := i + 1;
      }
    }

    /** At end of input fread leaves the cell alone. */
    method ReadCell(count: int)
      requires count > 0 && Contents().OnTape()
      modifies this`stdin, data
      ensures Contents() == ReadN(old(Contents()), count)
    {
      var i := 0;
      while i < count
        invariant 0 <= i <= count && sp == old(sp)
        invariant Contents() == ReadN(old(Contents()), i)
      {
        ReadNStep(old(Contents()), i);
        if stdin != [] {
          data[sp] := stdin[0];
          stdin := stdin[1..];
        }
        i := i + 1;
      }
    }

    /** Runs from the first operation until halt, an access outside the tape, or `fuel` operations. */
    method Run(ops: seq<Op>, fuel: nat) returns (end: Config)
      requires sp == 0
      modifies this, data
      ensures end == Iterate(Step(WithHalt(ops)), fuel, Running(0, old(Contents()))) && end.st == Contents()
    {
      var prog := ops + [Op(Halt, 0)];
      var ip, left := 0, fuel;
      ghost var start := Running(0, Contents());
      while left > 0
        invariant 0 <= left <= fuel
        invariant Iterate(Step(prog), fuel, start) == Iterate(Step(prog), left, Running(ip, Contents()))
      {
        if ip < 0 || ip >= |prog| || (TouchesCell(prog[ip]) && !(0 <= sp < data.Length)) {
          StoppedStays(prog, Crashed(Contents()), left - 1);
          return Crashed(State(sp, data[..], stdin, stdout));
        }
        var op := prog[ip];
        ghost var before := Contents();
        match op.kind {
          case Tape =>
            sp := sp + op.arg;
            if sp < 0 || sp >= data.Length {
              sp := sp - data.Length;
            }
          case Cell => data[sp] := Wrap8(data[sp] + op.arg);
          case LoopStart =>
            if data[sp] == 0 {
              ip := ip + op.arg;
            }
          case LoopEnd =>
            if data[sp] != 0 {
              ip := ip + op.arg;
            }
          case Write =>
            if op.arg > 0 {
              WriteCell(op.arg);
            }
          case Read =>
            if op.arg > 0 {
              ReadCell(op.arg);
            }
          case Set => data[sp] := Wrap8(op.arg);
          case Halt =>
            StoppedStays(prog, Halted(Contents()), left - 1);
            return Halted(State(sp, data[..], stdin, stdout));
        }
        ip := ip + 1;
        left := left - 1;
      }
      end := Running(ip, State(sp, data[..], stdin, stdout));
    }
  }

  lemma {:induction false} StoppedStays(prog: seq<Op>, c: Config, n: nat)
    requires !c.Running?
    ensures Iterate(Step(prog), n, c) == c
  {
    if n > 0 {
      StoppedStays(prog, c, n - 1);
    }
  }
}
