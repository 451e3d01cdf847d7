/** Programs that move below the tape. The wrap leads a pointer that is below the tape further down, and the
    parser merges neighbouring moves, so in a parsed program nothing can bring the pointer back: the next
    operation is the last one. */
module BelowTape {
  import opened Store
  import opened FlatIr
  import opened FrontEnd
  import Brackets
  import Chunks
  import Coverage
  import MachineInts
  import Runs

  /** Moves are merged, also over comments and over the border of a chunk. */
  predicate MovesApart(ops: seq<Op>) {
    forall k :: 0 < k < |ops| ==> ops[k - 1].kind != Tape || ops[k].kind != Tape
  }

  ghost predicate Apart(p: Parsed) {
    && PatchInside(p) && MovesApart(p.ops)
    && forall k :: k in p.patch ==> p.ops[k].kind == LoopStart
  }

  lemma CharKeepsApart(p: Parsed, prev: char, c: char)
    requires Apart(p)
    ensures Apart(ParseChar(p, prev, c))
  {
    hide MovesApart;
    if p.ok {
      match c
      case '+' => MergeKeepsApart(p, Cell, 1);
      case '-' => MergeKeepsApart(p, Cell, -1);
      case '>' => MergeKeepsApart(p, Tape, 1);
      case '<' => MergeKeepsApart(p, Tape, -1);
      case ',' => ContinueKeepsApart(p, Read, prev == c);
      case '.' => ContinueKeepsApart(p, Write, prev == c);
      case '[' => PushKeepsApart(p.ops, Op(LoopStart, 0));
      case ']' => CloseKeepsApart(p);
      case _ =>
    }
  }

  lemma PushKeepsApart(ops: seq<Op>, op: Op)
    requires MovesApart(ops) && (ops == [] || op.kind != Tape || ops[|ops| - 1].kind != Tape)
    ensures MovesApart(ops + [op])
  {
  }

  lemma MergeKeepsApart(p: Parsed, kind: Kind, n: int)
    requires Apart(p) && kind in {Tape, Cell}
    ensures Apart(p.(ops := Merge(p.ops, kind, n)))
  {
  }

  lemma ContinueKeepsApart(p: Parsed, kind: Kind, sameRun: bool)
    requires Apart(p) && kind in {Read, Write}
    ensures Apart(p.(ops := Continue(p.ops, kind, sameRun)))
  {
  }

  lemma CloseKeepsApart(p: Parsed)
    requires Apart(p)
    ensures Apart(CloseLoop(p))
  {
    if p.patch != [] {
      assert p.patch[0] in p.patch && forall k :: k in p.patch[1..] ==> k in p.patch;
    }
  }

  lemma {:induction false} TextKeepsApart(p: Parsed, prev: char, s: string)
    requires Apart(p)
    ensures PatchInside(p) && Apart(ParseText(p, prev, s))
    decreases |s|
  {
    hide ParseChar, MovesApart;
    if s != [] {
      CharKeepsApart(p, prev, s[0]);
      TextKeepsApart(ParseChar(p, prev, s[0]), s[0], s[1..]);
    }
  }

  lemma {:induction false} ChunksKeepApart(p: Parsed, chunks: seq<string>)
    requires Apart(p)
    ensures PatchInside(p) && MovesApart(ParseChunks(p, chunks).ops)
    decreases |chunks|
  {
    hide ParseText, MovesApart, CString;
    if chunks != [] {
      TextKeepsApart(p, NUL, CString(chunks[0]));
      ChunksKeepApart(ParseChunk(p, chunks[0]), chunks[1..]);
    }
  }

  /** Behind a move stands an operation that touches its cell, or the halt. */
  predicate StopsBelow(op: Op) { op.kind == Halt || TouchesCell(op) }

  lemma BehindAMove(chunks: seq<string>, k: nat)
    requires ParseChunks(EMPTY, chunks).ok
    requires var prog := WithHalt(ParseChunks(EMPTY, chunks).ops); k < |prog| && prog[k].kind == Tape
    ensures var prog := WithHalt(ParseChunks(EMPTY, chunks).ops); k + 1 < |prog| && StopsBelow(prog[k + 1])
  {
    var ops := ParseChunks(EMPTY, chunks).ops;
    ChunksKeepApart(EMPTY, chunks);
    Chunks.ParsedCounts(chunks);
    var cut := Coverage.ParserCovers(chunks);
    if k + 1 < |ops| {
      assert ops[k].kind == Tape && Coverage.Piece(Brackets.Seen(chunks), ops, cut, k + 1);
    }
  }

  /** In every run of every program that the parser accepts, one more operation sees a pointer that has left the
      tape at its lower end; it halts or cannot reach its cell. */
  lemma {:induction false} BelowIsTheEnd(chunks: seq<string>, s: State, n: nat)
    requires s.dp >= 0 && ParseChunks(EMPTY, chunks).ok
    ensures var step, c := Step(WithHalt(ParseChunks(EMPTY, chunks).ops)), Running(0, s);
            Runs.Iterate(step, n, c).st.dp < 0 ==> !Runs.Iterate(step, n + 1, c).Running?
  {
    hide ParseChunks, Step;
    if n > 0 && Runs.Iterate(Step(WithHalt(ParseChunks(EMPTY, chunks).ops)), n, Running(0, s)).st.dp < 0 {
      BelowIsTheEnd(chunks, s, n - 1);
      LeavingIsTheEnd(chunks, s, n);
    }
  }

  /** The same wherever the pointer has left the tape. */
  lemma {:induction false} OffTapeIsTheEnd(chunks: seq<string>, s: State, n: nat)
    requires s.OnTape() && ParseChunks(EMPTY, chunks).ok
    ensures var step, c := Step(WithHalt(ParseChunks(EMPTY, chunks).ops)), Running(0, s);
            !Runs.Iterate(step, n, c).st.OnTape() ==> !Runs.Iterate(step, n + 1, c).Running?
  {
    hide ParseChunks, Step;
    if n > 0 && !Runs.Iterate(Step(WithHalt(ParseChunks(EMPTY, chunks).ops)), n, Running(0, s)).st.OnTape() {
      OffTapeIsTheEnd(chunks, s, n - 1);
      LeavingIsTheEnd(chunks, s, n);
    }
  }

  /** Off the tape after `n` steps, the run is over after one more, if it was so when it came from there. */
  lemma LeavingIsTheEnd(chunks: seq<string>, s: State, n: nat)
    requires n > 0 && ParseChunks(EMPTY, chunks).ok
    requires var step, c := Step(WithHalt(ParseChunks(EMPTY, chunks).ops)), Running(0, s);
             var x, y := Runs.Iterate(step, n - 1, c), Runs.Iterate(step, n, c);
             !y.st.OnTape() && (y.st.dp == x.st.dp && |y.st.tape| == |x.st.tape| ==> !y.Running?)
    ensures !Runs.Iterate(Step(WithHalt(ParseChunks(EMPTY, chunks).ops)), n + 1, Running(0, s)).Running?
  {
    hide ParseChunks, Step;
    var prog := WithHalt(ParseChunks(EMPTY, chunks).ops);
    var step, c := Step(prog), Running(0, s);
    Runs.IterateAdd(step, n, 1, c);
    Runs.OneStep(step, Runs.Iterate(step, n, c));
    var x := Runs.Iterate(step, n - 1, c);
    Runs.IterateAdd(step, n - 1, 1, c);
    Runs.OneStep(step, x);
    OnlyMovesMove(prog, x);
    if x.Running? && 0 <= x.pc < |prog| && prog[x.pc].kind == Tape {
      BehindAMove(chunks, x.pc);
      MoveThenStop(prog, x);
    } else {
      FinalStep(prog, step(x));
    }
  }

  lemma OnlyMovesMove(prog: seq<Op>, c: Config)
    ensures var d := Step(prog)(c);
            |d.st.tape| == |c.st.tape|
            && (d.st.dp == c.st.dp || (c.Running? && 0 <= c.pc < |prog| && prog[c.pc].kind == Tape))
  {
  }

  lemma MoveThenStop(prog: seq<Op>, c: Config)
    requires c.Running? && 0 <= c.pc < |prog| - 1 && prog[c.pc].kind == Tape && StopsBelow(prog[c.pc + 1])
    ensures var d := Step(prog)(c); !d.st.OnTape() ==> !Step(prog)(d).Running?
  {
  }

  lemma FinalStep(prog: seq<Op>, c: Config)
    ensures !c.Running? ==> Step(prog)(c) == c
  {
  }

  // ----- two texts -----

  /** `<` halts far below the tape; `<+` goes for a cell that is not there. */
  lemma LeftOfTheTape(tape: seq<MachineInts.Byte>)
    requires |tape| > 0
    ensures var s, t := State(0, tape, [], []), State(-1 - |tape|, tape, [], []);
            && Runs.Iterate(Step(WithHalt(ParseChunks(EMPTY, ["<"]).ops)), 2, Running(0, s)) == Halted(t)
            && Runs.Iterate(Step(WithHalt(ParseChunks(EMPTY, ["<+"]).ops)), 2, Running(0, s)) == Crashed(t)
  {
    hide ParseChunks;
    ParsedLeft();
    var s, t := State(0, tape, [], []), State(-1 - |tape|, tape, [], []);
    TwoSteps(WithHalt([Op(Tape, -1)]), Running(0, s));
    TwoSteps(WithHalt([Op(Tape, -1), Op(Cell, 1)]), Running(0, s));
  }

  lemma TwoSteps(prog: seq<Op>, c: Config)
    ensures Runs.Iterate(Step(prog), 2, c) == Step(prog)(Step(prog)(c))
  {
    assert Runs.Iterate(Step(prog), 2, c) == Runs.Iterate(Step(prog), 1, Step(prog)(c));
    Runs.OneStep(Step(prog), Step(prog)(c));
  }

  lemma ParsedLeft()
    ensures ParseChunks(EMPTY, ["<"]).ops == [Op(Tape, -1)]
    ensures ParseChunks(EMPTY, ["<+"]).ops == [Op(Tape, -1), Op(Cell, 1)]
  {
    var left := ParseChar(EMPTY, NUL, '<');
    assert "<+" == "<" + "+" && CString("<") == "<" && CString("<+") == "<+";
    ParseOne(EMPTY, NUL, '<');
    ParseOne(left, '<', '+');
    ParseTextConcat(EMPTY, NUL, "<", "+");
    assert ["<"][1..] == [] && ["<+"][1..] == [];
    assert ParseChunks(EMPTY, ["<"]) == ParseChunks(ParseChunk(EMPTY, "<"), []);
    assert ParseChunks(EMPTY, ["<+"]) == ParseChunks(ParseChunk(EMPTY, "<+"), []);
  }
}
