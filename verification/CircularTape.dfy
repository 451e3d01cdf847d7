/** Programs that move past the right end of the tape: as long as no single move goes below the tape or more than
    a tape length too far, the interpreter does what the text says on a circular tape. The first move that does is
    the end of the run. */
module CircularTape {
  import opened Runs
  import opened Store
  import opened FlatIr
  import opened FrontEnd
  import opened Coverage
  import opened SourceSimulation
  import BelowTape
  import Bits
  import Brackets
  import OpenBrackets
  import Source

  /** A move from here ends where one wrap brings it onto the tape. */
  predicate OneWrap(prog: seq<Op>, c: Config) {
    c.Running? && 0 <= c.pc < |prog| && prog[c.pc].kind == Tape ==> 0 <= c.st.dp + prog[c.pc].arg < 2 * |c.st.tape|
  }

  ghost predicate WrapsOnce(prog: seq<Op>, c: Config) {
    forall n: nat :: OneWrap(prog, Iterate(Step(prog), n, c))
  }

  lemma WrapsOnceStep(prog: seq<Op>, c: Config)
    requires WrapsOnce(prog, c)
    ensures OneWrap(prog, c) && WrapsOnce(prog, Step(prog)(c))
  {
    assert Iterate(Step(prog), 0, c) == c;
    forall n: nat ensures OneWrap(prog, Iterate(Step(prog), n, Step(prog)(c))) {
      assert Iterate(Step(prog), n + 1, c) == Iterate(Step(prog), n, Step(prog)(c));
    }
  }

  // ----- one operation -----

  lemma ModStays(x: int, m: int)
    requires 0 <= x < m
    ensures x % m == x
  {
    Bits.ModUnique(x, m, 0, x);
  }

  /** Coming in at the other end now or later makes no difference. */
  lemma ModAgain(x: int, w: int, m: int)
    requires m > 0
    ensures (x % m + w) % m == (x + w) % m
  {
    var q, r := (x % m + w) / m, (x % m + w) % m;
    assert x == m * (x / m) + x % m && x % m + w == m * q + r;
    assert m * (x / m) + m * q == m * (x / m + q);
    Bits.ModUnique(x + w, m, x / m + q, r);
  }

  /** As long as the pointer stays on the tape, the two tapes are the same. */
  lemma {:induction false} SameWhileSafe(src: string, x: Config, n: nat)
    requires SafeFor(src, x, n)
    ensures Iterate(Source.CircularStep(src), n, x) == Iterate(Source.Step(src), n, x)
    decreases n
  {
    hide Source.Step, Source.CircularStep, Source.Around, SafeFor;
    if n > 0 {
      var step, circular := Source.Step(src), Source.CircularStep(src);
      SafeBefore(src, x, n);
      SameWhileSafe(src, x, n - 1);
      IterateAdd(circular, n - 1, 1, x);
      IterateAdd(step, n - 1, 1, x);
      OneStep(circular, Iterate(step, n - 1, x));
      OneStep(step, Iterate(step, n - 1, x));
      AroundNothing(Iterate(step, n, x));
      CircularIsAround(src, Iterate(step, n - 1, x));
    }
  }

  lemma SafeBefore(src: string, x: Config, n: nat)
    requires SafeFor(src, x, n) && n > 0
    ensures SafeFor(src, x, n - 1) && OnTapeView(Iterate(Source.Step(src), n, x))
  {
    hide Source.Step;
  }

  lemma CircularIsAround(src: string, c: Config)
    ensures Source.CircularStep(src)(c) == Source.Around(Source.Step(src)(c))
  {
    hide Source.Step;
  }

  lemma AroundNothing(c: Config)
    requires c.st.OnTape()
    ensures Source.Around(c) == c
  {
    ModStays(c.st.dp, |c.st.tape|);
  }

  function Rounded(s: State): State
    requires |s.tape| > 0
  {
    s.(dp := s.dp % |s.tape|)
  }

  lemma ApplyStays(kind: Kind, n: int, s: State)
    requires s.OnTape()
    ensures |Apply(kind, n, s).tape| == |s.tape| && (kind != Tape ==> Apply(kind, n, s).dp == s.dp)
  {
  }

  /** One more character of a piece, on the circular tape. */
  lemma ApplyCharAround(src: string, kind: Kind, n: int, s: State, j: nat)
    requires s.OnTape() && j < |src| && (kind == Read || kind == Write ==> n >= 0)
    requires kind in {Tape, Cell, Read, Write}
    requires Source.IsComment(src[j]) || Weight(kind, src[j]) != 0
    ensures |Apply(kind, n, s).tape| == |Apply(kind, n + Weight(kind, src[j]), s).tape| == |s.tape|
    ensures Source.CircularStep(src)(Running(j, Rounded(Apply(kind, n, s)))) ==
            Running(j + 1, Rounded(Apply(kind, n + Weight(kind, src[j]), s)))
  {
    hide Weight, Source.IsComment;
    ApplyStays(kind, n, s);
    ApplyStays(kind, n + Weight(kind, src[j]), s);
    if kind == Tape {
      MoveCharAround(src, n, s, j);
    } else {
      hide Source.Step;
      ApplyChar(src, kind, n, s, j);
      ModStays(s.dp, |s.tape|);
    }
  }

  lemma MoveCharAround(src: string, n: int, s: State, j: nat)
    requires s.OnTape() && j < |src| && (Source.IsComment(src[j]) || Weight(Tape, src[j]) != 0)
    ensures Source.CircularStep(src)(Running(j, Rounded(s.Move(n)))) == Running(j + 1, Rounded(s.Move(n + Weight(Tape, src[j]))))
  {
    hide Source.Step, Source.CircularStep, Weight, Source.IsComment;
    var t := Rounded(s.Move(n));
    CharMoves(src, t, j);
    CircularIsAround(src, Running(j, t));
    ModAgain(s.dp + n, Weight(Tape, src[j]), |s.tape|);
  }

  lemma CharMoves(src: string, t: State, j: nat)
    requires j < |src| && (Source.IsComment(src[j]) || Weight(Tape, src[j]) != 0)
    ensures Source.Step(src)(Running(j, t)) == Running(j + 1, t.Move(Weight(Tape, src[j])))
  {
  }

  lemma {:induction false} PieceRunsAround(src: string, kind: Kind, i: nat, j: nat, s: State)
    requires i <= j <= |src| && kind in {Tape, Cell, Read, Write} && s.OnTape()
    requires forall c :: c in src[i..j] ==> Source.IsComment(c) || Weight(kind, c) != 0
    ensures |Apply(kind, Net(kind, src[i..j]), s).tape| == |s.tape|
    ensures Iterate(Source.CircularStep(src), j - i, Running(i, s)) == Running(j, Rounded(Apply(kind, Net(kind, src[i..j]), s)))
    decreases j - i
  {
    hide Weight, Apply, Source.Step, Source.CircularStep, Source.IsComment, Net, Iterate, Rounded;
    ApplyStays(kind, Net(kind, src[i..j]), s);
    if i == j {
      assert src[i..j] == [];
      EmptyAround(src, kind, i, s);
    } else {
      PieceLast(src, kind, i, j);
      PieceRunsAround(src, kind, i, j - 1, s);
      NetGrows(kind, src[i..j - 1], src[j - 1]);
      ApplyCharAround(src, kind, Net(kind, src[i..j - 1]), s, j - 1);
      IterateAdd(Source.CircularStep(src), j - 1 - i, 1, Running(i, s));
      OneStep(Source.CircularStep(src), Iterate(Source.CircularStep(src), j - 1 - i, Running(i, s)));
    }
  }

  lemma EmptyAround(src: string, kind: Kind, i: nat, s: State)
    requires s.OnTape()
    ensures |Apply(kind, Net(kind, []), s).tape| == |s.tape|
    ensures Iterate(Source.CircularStep(src), 0, Running(i, s)) == Running(i, Rounded(Apply(kind, Net(kind, []), s)))
  {
    hide Apply, Source.CircularStep;
    ApplyNothing(kind, s);
    ModStays(s.dp, |s.tape|);
  }

  /** A plain operation, wrapping or not. */
  lemma PlainAround(src: string, ops: seq<Op>, cut: seq<nat>, ip: nat, s: State) returns (n: nat)
    requires Represents(src, ops, cut) && ip < |ops| && ops[ip].kind !in {LoopStart, LoopEnd}
    requires s.OnTape() && OneWrap(WithHalt(ops), Running(ip, s))
    ensures var next := Step(WithHalt(ops))(Running(ip, s));
            && next.Running? && next.pc == ip + 1 && next.st.OnTape()
            && Iterate(Source.CircularStep(src), n, Running(cut[ip], s)) == Running(cut[ip + 1], next.st)
  {
    hide Source.CircularStep, Net, StandsFor;
    var op := ops[ip];
    assert Piece(src, ops, cut, ip);
    PieceIsPlain(op, src[cut[ip]..cut[ip + 1]]);
    n := cut[ip + 1] - cut[ip];
    PieceRunsAround(src, op.kind, cut[ip], cut[ip + 1], s);
    if op.kind == Tape {
      MoveLands(WithHalt(ops), ip, s);
    } else {
      ModStays(s.dp, |s.tape|);
    }
  }

  lemma PieceIsPlain(op: Op, text: string)
    requires StandsFor(op, text) && op.kind !in {LoopStart, LoopEnd}
    ensures op.kind in {Tape, Cell, Read, Write} && op.arg == Net(op.kind, text)
    ensures forall c :: c in text ==> Source.IsComment(c) || Weight(op.kind, c) != 0
  {
    hide Net, Weight, Source.IsComment;
  }

  // ----- the simulation -----

  ghost predicate Facing(src: string, ops: seq<Op>, cut: seq<nat>, c: Config, x: Config) {
    && |cut| == |ops| + 1
    && WrapsOnce(WithHalt(ops), c)
    && c.st.OnTape()
    && match c
       case Running(ip, s) => 0 <= ip <= |ops| && x == Running(cut[ip], s)
       case Halted(s) => x == c
       case Crashed(_) => false
  }

  ghost function FacingRelation(src: string, ops: seq<Op>, cut: seq<nat>): (Config, Config) -> bool {
    (c: Config, x: Config) => Facing(src, ops, cut, c, x)
  }

  lemma StepAround(src: string, ops: seq<Op>, cut: seq<nat>, c: Config, x: Config) returns (n: nat)
    requires Represents(src, ops, cut) && Facing(src, ops, cut, c, x)
    ensures Advances(Step(WithHalt(ops)), Source.CircularStep(src), FacingRelation(src, ops, cut), Rank(ops), c, x, n)
  {
    hide WrapsOnce, OpenBrackets.Open, StandsFor, Source.Execute, Execute;
    n := 1;
    OneStep(Source.CircularStep(src), x);
    CircularIsAround(src, x);
    WrapsOnceStep(WithHalt(ops), c);
    if c.Running? {
      if c.pc == |ops| {
        HaltStops(c.pc, c.st);
        AroundNothing(Halted(c.st));
      } else if ops[c.pc].kind == LoopStart {
        n := LoopStartSimulates(src, ops, cut, c.pc, c.st);
        SameWhileSafe(src, x, n);
      } else if ops[c.pc].kind == LoopEnd {
        n := LoopEndSimulates(src, ops, cut, c.pc, c.st);
        SameWhileSafe(src, x, n);
      } else {
        n := PlainAround(src, ops, cut, c.pc, c.st);
      }
    } else {
      AroundNothing(x);
    }
  }

  /** The interpreter and the text on a circular tape keep meeting with the same store. */
  lemma RepresentsAround(src: string, ops: seq<Op>, cut: seq<nat>, s: State)
    requires Represents(src, ops, cut) && s.OnTape() && WrapsOnce(WithHalt(ops), Running(0, s))
    ensures SameRuns(Step(WithHalt(ops)), Running(0, s), Source.CircularStep(src), Running(0, s), SameStore())
  {
    hide Represents, WrapsOnce, Step, Source.CircularStep;
    var a, b, c := Step(WithHalt(ops)), Source.CircularStep(src), Running(0, s);
    var skip := LeadingCommentsAround(src, ops, cut, s);
    var x := Iterate(b, skip, c);
    forall d, y ensures CanAdvance(a, b, FacingRelation(src, ops, cut), Rank(ops), d, y) {
      if Facing(src, ops, cut, d, y) {
        var n := StepAround(src, ops, cut, d, y);
      }
    }
    SimulationGivesSameRuns(a, b, FacingRelation(src, ops, cut), Rank(ops), c, x);
    SameRunsWeaken(a, c, b, x, FacingRelation(src, ops, cut), SameStore());
    SameRunsFromEarlier(a, c, b, c, skip, SameStore());
  }

  lemma LeadingCommentsAround(src: string, ops: seq<Op>, cut: seq<nat>, s: State) returns (n: nat)
    requires Represents(src, ops, cut) && s.OnTape() && WrapsOnce(WithHalt(ops), Running(0, s))
    ensures Facing(src, ops, cut, Running(0, s), Iterate(Source.CircularStep(src), n, Running(0, s)))
  {
    hide WrapsOnce, Source.Step, Source.CircularStep;
    n := cut[0];
    CommentsRun(src, 0, n, s);
    CommentsSafe(src, 0, n, s);
    SameWhileSafe(src, Running(0, s), n);
  }

  // ----- every run -----

  /** Front-end correctness with wraps, for every accepted text and every way of cutting it. */
  lemma FrontEndAround(chunks: seq<string>, s: State)
    requires Source.DepthOf(Brackets.Seen(chunks)) != Source.Unmatched && s.OnTape()
    requires WrapsOnce(WithHalt(ParseChunks(EMPTY, chunks).ops), Running(0, s))
    ensures SameRuns(Step(WithHalt(ParseChunks(EMPTY, chunks).ops)), Running(0, s),
                     Source.CircularStep(Brackets.Seen(chunks)), Running(0, s), SameStore())
  {
    hide WrapsOnce, Brackets.BracketInv;
    Brackets.ParserTracksBrackets(chunks);
    OpenBrackets.ParsedIsOpen(chunks);
    var cut := ParserCovers(chunks);
    RepresentsAround(Brackets.Seen(chunks), ParseChunks(EMPTY, chunks).ops, cut, s);
  }

  /** A move that is not brought back by one wrap leaves the tape, and the operation behind it is the last. */
  lemma OtherwiseTheEnd(chunks: seq<string>, s: State, n: nat)
    requires Source.DepthOf(Brackets.Seen(chunks)) != Source.Unmatched && s.OnTape()
    ensures var prog := WithHalt(ParseChunks(EMPTY, chunks).ops);
            var step, c := Step(prog), Running(0, s);
            !OneWrap(prog, Iterate(step, n, c)) && Iterate(step, n, c).st.OnTape() ==>
              !Iterate(step, n + 1, c).st.OnTape() && !Iterate(step, n + 2, c).Running?
  {
    hide Brackets.BracketInv, ParseChunks, Step;
    Brackets.ParserTracksBrackets(chunks);
    var prog := WithHalt(ParseChunks(EMPTY, chunks).ops);
    var step, c := Step(prog), Running(0, s);
    var x := Iterate(step, n, c);
    if !OneWrap(prog, x) && x.st.OnTape() {
      IterateAdd(step, n, 1, c);
      OneStep(step, x);
      MoveLands(prog, x.pc, x.st);
      BelowTape.OffTapeIsTheEnd(chunks, s, n + 1);
    }
  }
}
