/** What a Brainfuck program acts on: a tape of bytes, a pointer, the unread input, the output so far. */
module Store {
  import opened MachineInts

  datatype State = State(dp: int, tape: seq<Byte>, input: seq<Byte>, output: seq<Byte>) {
    predicate OnTape() { 0 <= dp < |tape| }

    function Cell(): Byte
      requires OnTape()
    {
      tape[dp]
    }

    function WithCell(b: Byte): State
      requires OnTape()
    {
      this.(tape := tape[dp := b])
    }

    function AddCell(k: int): State
      requires OnTape()
    {
      WithCell(Wrap8(Cell() + k))
    }

    function Move(k: int): State { this.(dp := dp + k) }

    /** One-byte fread or read(2): at end of input the cell keeps its value. */
    function Read(): State
      requires OnTape()
    {
      if input == [] then this else this.(tape := tape[dp := input[0]], input := input[1..])
    }

    function Write(): State
      requires OnTape()
    {
      this.(output := output + [Cell()])
    }
  }

  function ReadN(s: State, n: nat): (r: State)
    requires s.OnTape()
    ensures r.dp == s.dp && |r.tape| == |s.tape| && r.output == s.output
    decreases n
  {
    if n == 0 then s else ReadN(s.Read(), n - 1)
  }

  function WriteN(s: State, n: nat): (r: State)
    requires s.OnTape()
    ensures r.dp == s.dp && r.tape == s.tape && r.input == s.input
    decreases n
  {
    if n == 0 then s else WriteN(s.Write(), n - 1)
  }

  lemma {:induction false} WriteNStep(s: State, n: nat)
    requires s.OnTape()
    ensures WriteN(s, n + 1) == WriteN(s, n).Write()
    decreases n
  {
    if n > 0 {
      WriteNStep(s.Write(), n - 1);
    }
  }

  lemma {:induction false} ReadNStep(s: State, n: nat)
    requires s.OnTape()
    ensures ReadN(s, n + 1) == ReadN(s, n).Read()
    decreases n
  {
    if n > 0 {
      ReadNStep(s.Read(), n - 1);
    }
  }

  /** A machine with a program counter over the store. */
  datatype Config = Running(pc: int, st: State) | Halted(st: State) | Crashed(st: State)

  /** Same store, and both running or both halted; the program counters are not compared. */
  predicate SameView(x: Config, y: Config) {
    x.st == y.st && ((x.Running? && y.Running?) || (x.Halted? && y.Halted?))
  }

  predicate OnTapeView(c: Config) { !c.Crashed? && c.st.OnTape() }
}
