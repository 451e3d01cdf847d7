/** The two implementations agree: the tree parsed by the OCaml program and the flat IR parsed by the
    C program both follow the source text. */
module Agreement {
  import opened MachineInts
  import opened Runs
  import opened Store
  import opened TreeIr
  import opened TreeParser
  import Behaviour
  import Brackets
  import ClearingLoops
  import EndToEnd
  import ExactPipeline
  import FlatIr
  import FrontEnd
  import Passes
  import Pipeline
  import Source
  import SourceSimulation

  // ----- brackets -----

  /** The end of a block is what counting brackets finds, and nothing between crosses it. */
  lemma {:induction false} ScanFindsEnd(src: string, at: nat, depth: nat)
    requires at <= |src|
    ensures var end := BlockAt(src, at).end;
            Source.ScanForward(src, at, depth) ==
            if end == |src| then |src| else if depth == 0 then end else Source.ScanForward(src, end + 1, depth - 1)
    decreases |src| - at
  {
    hide BlockAt;
    BlockUnfolds(src, at);
    if at < |src| {
      if src[at] == '[' {
        ScanFindsEnd(src, at + 1, depth + 1);
        ScanFindsEnd(src, After(src, BlockAt(src, at + 1).end), depth);
      } else if src[at] != ']' {
        ScanFindsEnd(src, at + 1, depth);
      }
    }
  }

  /** Depth of a position in a balanced text. */
  ghost predicate Inside(src: string, at: nat, depth: nat) {
    at <= |src| && Source.BalancedSource(src) && Source.DepthOf(src[..at]) == Source.Open(depth)
  }

  lemma InsideStep(src: string, at: nat, depth: nat)
    requires Inside(src, at, depth) && at < |src|
    ensures src[at] == '[' ==> Inside(src, at + 1, depth + 1)
    ensures src[at] == ']' ==> depth > 0 && Inside(src, at + 1, depth - 1)
    ensures src[at] != '[' && src[at] != ']' ==> Inside(src, at + 1, depth)
  {
    assert src[..at + 1][..at] == src[..at] && src[..|src|] == src;
    if src[at] == ']' && depth == 0 {
      UnmatchedStays(src, at + 1, |src|);
    }
  }

  lemma {:induction false} UnmatchedStays(src: string, i: nat, j: nat)
    requires i <= j <= |src| && Source.DepthOf(src[..i]).Unmatched?
    ensures Source.DepthOf(src[..j]).Unmatched?
    decreases j - i
  {
    if i < j {
      UnmatchedStays(src, i, j - 1);
      assert src[..j][..j - 1] == src[..j - 1];
    }
  }

  /** In a balanced text a block inside a loop ends at a bracket of its own depth, the outermost one at the end of the text. */
  lemma {:induction false} BlockEndsInside(src: string, at: nat, depth: nat)
    requires at <= |src| && Inside(src, at, depth)
    ensures var end := BlockAt(src, at).end; Inside(src, end, depth) && (end < |src| <==> depth > 0)
    decreases |src| - at
  {
    hide Inside, BlockAt;
    BlockUnfolds(src, at);
    if at == |src| {
      EndIsOutside(src, depth);
    } else {
      InsideStep(src, at, depth);
      if src[at] == '[' {
        var inner := BlockAt(src, at + 1);
        BlockEndsInside(src, at + 1, depth + 1);
        InsideStep(src, inner.end, depth + 1);
        BlockEndsInside(src, inner.end + 1, depth);
      } else if src[at] != ']' {
        BlockEndsInside(src, at + 1, depth);
      }
    }
  }

  lemma EndIsOutside(src: string, depth: nat)
    requires Inside(src, |src|, depth)
    ensures depth == 0
  {
    assert src[..|src|] == src;
  }

  /** Counting backwards from the end of a block passes over the whole block. */
  lemma {:induction false} ScanBackPasses(src: string, at: nat, depth: nat, level: nat)
    requires at <= |src| && Inside(src, at, level)
    ensures Source.ScanBackward(src, BlockAt(src, at).end, depth) == Source.ScanBackward(src, at, depth)
    decreases |src| - at
  {
    hide Inside, BlockAt;
    BlockUnfolds(src, at);
    if at < |src| {
      InsideStep(src, at, level);
      if src[at] == '[' {
        var inner := BlockAt(src, at + 1);
        BlockEndsInside(src, at + 1, level + 1);
        InsideStep(src, inner.end, level + 1);
        ScanBackPasses(src, at + 1, depth + 1, level + 1);
        ScanBackPasses(src, inner.end + 1, depth, level);
      } else if src[at] != ']' {
        ScanBackPasses(src, at + 1, depth, level);
      }
    }
  }

  // ----- the tree follows the source -----

  /** What stops the tree interpreter in front of a character: the end of the text, a read with no input left, or
      a cell outside the tape, for which a byte has been taken from the input if it was to be read into. For
      everything else `Timeout`, as it goes on. */
  function Verdict(src: string, c: Config): Outcome {
    if !c.Running? || !(0 <= c.pc <= |src|) then Timeout(c.st)
    else if c.pc == |src| then Done(c.st)
    else if src[c.pc] == ',' && c.st.input == [] then EndOfInput(c.st)
    else if src[c.pc] in "+-,.[]" && !c.st.OnTape() then
      OutOfRange(if src[c.pc] == ',' then c.st.(input := c.st.input[1..]) else c.st)
    else Timeout(c.st)
  }

  /** Nothing stops it in the first `n` steps. */
  ghost predicate GoesOn(src: string, c: Config, n: nat) {
    forall m: nat :: m < n ==> Verdict(src, Iterate(Source.Step(src), m, c)).Timeout?
  }

  /** It is stopped for the first time, in this way. */
  ghost predicate StopsAt(src: string, c: Config, n: nat, o: Outcome) {
    GoesOn(src, c, n) && Verdict(src, Iterate(Source.Step(src), n, c)) == o
  }

  lemma GoesOnJoin(src: string, c: Config, k: nat, n: nat)
    requires GoesOn(src, c, k) && GoesOn(src, Iterate(Source.Step(src), k, c), n)
    ensures GoesOn(src, c, k + n)
  {
    hide Verdict, Source.Step;
    var step := Source.Step(src);
    forall m: nat | m < k + n ensures Verdict(src, Iterate(step, m, c)).Timeout? {
      if m >= k {
        IterateAdd(step, k, m - k, c);
        assert Verdict(src, Iterate(step, m - k, Iterate(step, k, c))).Timeout?;
      }
    }
  }

  lemma GoesOnOnce(src: string, c: Config)
    requires Verdict(src, c).Timeout?
    ensures GoesOn(src, c, 1)
  {
    hide Verdict, Source.Step;
    assert Iterate(Source.Step(src), 0, c) == c;
  }

  /** A tree run that ends is a source run to `end`; one that is out of fuel is a source run of more steps
      than there was fuel, still going on; and an exception is the first thing that stops the source. */
  ghost predicate Follows(src: string, c: Config, o: Outcome, end: nat, most: int, n: nat) {
    && GoesOn(src, c, n)
    && match o
       case Done(t) => Iterate(Source.Step(src), n, c) == Running(end, t)
       case Timeout(t) => n > most && Iterate(Source.Step(src), n, c).Running? && Iterate(Source.Step(src), n, c).st == t
       case _ => Verdict(src, Iterate(Source.Step(src), n, c)) == o
  }

  lemma FollowsAfter(src: string, c: Config, k: nat, o: Outcome, end: nat, most: int, n: nat)
    requires GoesOn(src, c, k) && Follows(src, Iterate(Source.Step(src), k, c), o, end, most - k, n)
    ensures Follows(src, c, o, end, most, k + n)
  {
    hide GoesOn, Verdict, Source.Step;
    GoesOnJoin(src, c, k, n);
    IterateAdd(Source.Step(src), k, n, c);
  }

  lemma OneStepRun(src: string, c: Config)
    ensures Iterate(Source.Step(src), 1, c) == Source.Step(src)(c)
  {
    OneStep(Source.Step(src), c);
  }

  /** Instructions other than loops. */
  lemma BasicFollows(src: string, at: nat, s: State, fuel: nat)
    requires at < |src| && TokenOf(src[at]).More?
    ensures var o, verdict := ExecOne(TokenOf(src[at]).i, s, fuel), Verdict(src, Running(at, s));
            if verdict.Timeout? then o.Done? && Source.Step(src)(Running(at, s)) == Running(at + 1, o.st)
            else o == verdict && !o.Done?
  {
    if s.OnTape() {
      if src[at] == '+' {
        AddToCellWraps(s.Cell(), 1);
      } else if src[at] == '-' {
        AddToCellWraps(s.Cell(), -1);
      }
    }
  }

  lemma Stopped(src: string, c: Config, o: Outcome, end: nat, most: int)
    requires Verdict(src, c) == o && !o.Done? && !o.Timeout?
    ensures Follows(src, c, o, end, most, 0)
  {
    assert Iterate(Source.Step(src), 0, c) == c;
  }

  lemma AtEnd(src: string, end: nat, s: State, most: int)
    ensures Follows(src, Running(end, s), Done(s), end, most, 0)
  {
    assert Iterate(Source.Step(src), 0, Running(end, s)) == Running(end, s);
  }

  lemma {:induction false} BlockFollows(src: string, at: nat, depth: nat, s: State, fuel: nat) returns (n: nat)
    requires at <= |src| && Inside(src, at, depth)
    ensures Follows(src, Running(at, s), Exec(BlockAt(src, at).prog, s, fuel), BlockAt(src, at).end, fuel, n)
    decreases fuel, |src| - at, 1
  {
    hide Inside, Source.Step, BlockAt, ExecOne, TokenOf, Verdict, Follows;
    BlockUnfolds(src, at);
    OneStepRun(src, Running(at, s));
    if at == |src| {
      n := 0;
      AtEnd(src, at, s, fuel);
    } else {
      TokenKinds(src[at]);
      match TokenOf(src[at])
      case End =>
        n := 0;
        AtEnd(src, at, s, fuel);
      case Skip =>
        CommentStep(src, at, s);
        InsideStep(src, at, depth);
        var k := BlockFollows(src, at + 1, depth, s, fuel);
        FollowsFar(src, Running(at + 1, s), Exec(BlockAt(src, at + 1).prog, s, fuel), BlockAt(src, at + 1).end, fuel, k, 1);
        GoesOnOnce(src, Running(at, s));
        FollowsAfter(src, Running(at, s), 1, Exec(BlockAt(src, at).prog, s, fuel), BlockAt(src, at).end, fuel, k);
        n := 1 + k;
      case More(i) =>
        BasicFollows(src, at, s, fuel);
        InsideStep(src, at, depth);
        ExecCons(i, BlockAt(src, at + 1).prog, s, fuel);
        if Verdict(src, Running(at, s)).Timeout? {
          var t := ExecOne(i, s, fuel).st;
          var k := BlockFollows(src, at + 1, depth, t, fuel);
          FollowsFar(src, Running(at + 1, t), Exec(BlockAt(src, at + 1).prog, t, fuel), BlockAt(src, at + 1).end, fuel, k, 1);
          GoesOnOnce(src, Running(at, s));
          FollowsAfter(src, Running(at, s), 1, Exec(BlockAt(src, at).prog, s, fuel), BlockAt(src, at).end, fuel, k);
          n := 1 + k;
        } else {
          n := 0;
          Stopped(src, Running(at, s), ExecOne(i, s, fuel), BlockAt(src, at).end, fuel);
        }
      case Open => n := LoopFollows(src, at, depth, s, fuel);
    }
  }

  lemma TokenKinds(c: char)
    ensures TokenOf(c).Skip? <==> Source.IsComment(c)
    ensures TokenOf(c).Open? <==> c == '['
    ensures TokenOf(c).End? <==> c == ']'
  {
  }

  lemma CommentStep(src: string, at: nat, s: State)
    requires at < |src| && Source.IsComment(src[at])
    ensures Source.Step(src)(Running(at, s)) == Running(at + 1, s) && Verdict(src, Running(at, s)).Timeout?
  {
  }

  /** From a `[` over its loop and what follows it. */
  lemma {:induction false} LoopFollows(src: string, at: nat, depth: nat, s: State, fuel: nat) returns (n: nat)
    requires Inside(src, at, depth) && at < |src| && src[at] == '['
    ensures Follows(src, Running(at, s), Exec(BlockAt(src, at).prog, s, fuel), BlockAt(src, at).end, fuel, n)
    decreases fuel, |src| - at, 0
  {
    hide Inside, Source.Step, BlockAt, ExecLoop, TokenOf, Verdict, Follows;
    BlockUnfolds(src, at);
    TokenKinds('[');
    var inner := BlockAt(src, at + 1);
    OneStepRun(src, Running(at, s));
    InsideStep(src, at, depth);
    BlockEndsInside(src, at + 1, depth + 1);
    InsideStep(src, inner.end, depth + 1);
    var after := inner.end + 1;
    var o := ExecLoop(inner.prog, s, fuel);
    ExecCons(Loop(inner.prog), BlockAt(src, after).prog, s, fuel);
    BracketVerdict(src, at, inner.prog, s, fuel);
    if !s.OnTape() {
      n := 0;
      Stopped(src, Running(at, s), o, BlockAt(src, at).end, fuel);
    } else {
      OpenStep(src, at, depth, s);
      GoesOnOnce(src, Running(at, s));
      var k;
      if s.Cell() == 0 {
        k := 1;
        AtEnd(src, after, s, fuel - 1);
        FollowsAfter(src, Running(at, s), 1, o, after, fuel, 0);
      } else {
        k := IterationsFollow(src, at, depth, s, fuel);
        FollowsAfter(src, Running(at, s), 1, o, after, fuel, k);
        k := 1 + k;
      }
      n := k;
      if o.Done? {
        FollowsDone(src, Running(at, s), o.st, after, fuel, k);
        var j := BlockFollows(src, after, depth, o.st, fuel);
        FollowsFar(src, Running(after, o.st), Exec(BlockAt(src, after).prog, o.st, fuel), BlockAt(src, after).end, fuel, j, k);
        FollowsAfter(src, Running(at, s), k, Exec(BlockAt(src, at).prog, s, fuel), BlockAt(src, at).end, fuel, j);
        n := k + j;
      } else {
        FollowsAnywhere(src, Running(at, s), o, after, BlockAt(src, at).end, fuel, n);
      }
    }
  }

  lemma FollowsDone(src: string, c: Config, t: State, end: nat, most: int, n: nat)
    requires Follows(src, c, Done(t), end, most, n)
    ensures GoesOn(src, c, n) && Iterate(Source.Step(src), n, c) == Running(end, t)
  {
    hide GoesOn, Source.Step;
  }

  /** Where a run that does not end would have ended does not matter. */
  lemma FollowsAnywhere(src: string, c: Config, o: Outcome, end: nat, other: nat, most: int, n: nat)
    requires Follows(src, c, o, end, most, n) && !o.Done?
    ensures Follows(src, c, o, other, most, n)
  {
    hide GoesOn, Source.Step, Verdict;
  }

  /** A bracket off the tape, and on it. */
  lemma BracketVerdict(src: string, at: nat, body: seq<Ir>, s: State, fuel: nat)
    requires at < |src| && src[at] in "[]"
    ensures !s.OnTape() ==> Verdict(src, Running(at, s)) == ExecLoop(body, s, fuel) == OutOfRange(s)
    ensures s.OnTape() ==> Verdict(src, Running(at, s)).Timeout?
    ensures s.OnTape() && s.Cell() == 0 ==> ExecLoop(body, s, fuel) == Done(s)
  {
    hide Exec;
  }

  lemma FollowsFar(src: string, c: Config, o: Outcome, end: nat, most: int, n: nat, k: nat)
    requires Follows(src, c, o, end, most, n)
    ensures Follows(src, c, o, end, most - k, n)
  {
    hide GoesOn, Source.Step, Verdict;
  }

  /** A `[` enters its loop or goes behind it. */
  lemma OpenStep(src: string, at: nat, depth: nat, s: State)
    requires Inside(src, at, depth) && at < |src| && src[at] == '[' && s.OnTape()
    ensures Source.Step(src)(Running(at, s)) ==
            Running(if s.Cell() == 0 then BlockAt(src, at + 1).end + 1 else at + 1, s)
  {
    hide BlockAt;
    InsideStep(src, at, depth);
    BlockEndsInside(src, at + 1, depth + 1);
    ScanFindsEnd(src, at + 1, 0);
  }

  /** The `]` of the loop at `at` leaves it or goes back to its first character. */
  lemma CloseStep(src: string, at: nat, depth: nat, s: State)
    requires Inside(src, at, depth) && at < |src| && src[at] == '[' && s.OnTape()
    ensures var end := BlockAt(src, at + 1).end;
            end < |src| && Source.Step(src)(Running(end, s)) == Running(if s.Cell() == 0 then end + 1 else at + 1, s)
  {
    hide BlockAt;
    InsideStep(src, at, depth);
    BlockEndsInside(src, at + 1, depth + 1);
    ScanBackPasses(src, at + 1, 0, depth + 1);
    assert Source.ScanBackward(src, at + 1, 0) == at;
  }

  /** From the first character of a loop whose cell is not zero. */
  lemma {:induction false} IterationsFollow(src: string, at: nat, depth: nat, s: State, fuel: nat) returns (n: nat)
    requires Inside(src, at, depth) && at < |src| && src[at] == '[' && s.OnTape() && s.Cell() != 0
    ensures var inner := BlockAt(src, at + 1);
            Follows(src, Running(at + 1, s), ExecLoop(inner.prog, s, fuel), inner.end + 1, fuel - 1, n)
    decreases fuel, |src| - at - 1, 2
  {
    hide Inside, Source.Step, BlockAt, Exec, Verdict, Follows, GoesOn;
    var inner := BlockAt(src, at + 1);
    var start := Running(at + 1, s);
    if fuel == 0 {
      n := 0;
      OutOfFuel(src, start);
    } else {
      InsideStep(src, at, depth);
      n := BlockFollows(src, at + 1, depth + 1, s, fuel - 1);
      var o := Exec(inner.prog, s, fuel - 1);
      if o.Done? {
        var t := o.st;
        FollowsDone(src, start, t, inner.end, fuel - 1, n);
        BlockEndsInside(src, at + 1, depth + 1);
        InsideStep(src, inner.end, depth + 1);
        BracketVerdict(src, inner.end, inner.prog, t, fuel - 1);
        var k := CloseFollows(src, at, depth, t, fuel - 1);
        FollowsFar(src, Running(inner.end, t), ExecLoop(inner.prog, t, fuel - 1), inner.end + 1, fuel - 1, k, n);
        FollowsAfter(src, start, n, ExecLoop(inner.prog, s, fuel), inner.end + 1, fuel - 1, k);
        n := n + k;
      } else {
        FollowsAnywhere(src, start, o, inner.end, inner.end + 1, fuel - 1, n);
      }
    }
  }

  lemma OutOfFuel(src: string, c: Config)
    requires c.Running?
    ensures forall end: nat :: Follows(src, c, Timeout(c.st), end, -1, 0)
  {
    assert Iterate(Source.Step(src), 0, c) == c;
  }

  /** From the `]` of a loop. */
  lemma {:induction false} CloseFollows(src: string, at: nat, depth: nat, t: State, fuel: nat) returns (n: nat)
    requires Inside(src, at, depth) && at < |src| && src[at] == '['
    ensures var inner := BlockAt(src, at + 1);
            Follows(src, Running(inner.end, t), ExecLoop(inner.prog, t, fuel), inner.end + 1, fuel, n)
    decreases fuel, |src| - at - 1, 3
  {
    hide Inside, Source.Step, BlockAt, Exec, Verdict, Follows, GoesOn;
    var inner := BlockAt(src, at + 1);
    InsideStep(src, at, depth);
    BlockEndsInside(src, at + 1, depth + 1);
    InsideStep(src, inner.end, depth + 1);
    var c := Running(inner.end, t);
    CloseIsBracket(src, at, depth);
    BracketVerdict(src, inner.end, inner.prog, t, fuel);
    if !t.OnTape() {
      n := 0;
      Stopped(src, c, ExecLoop(inner.prog, t, fuel), inner.end + 1, fuel);
    } else {
      CloseStep(src, at, depth, t);
      OneStepRun(src, c);
      GoesOnOnce(src, c);
      if t.Cell() == 0 {
        n := 0;
        AtEnd(src, inner.end + 1, t, fuel - 1);
      } else {
        n := IterationsFollow(src, at, depth, t, fuel);
      }
      FollowsAfter(src, c, 1, ExecLoop(inner.prog, t, fuel), inner.end + 1, fuel, n);
      n := 1 + n;
    }
  }

  lemma CloseIsBracket(src: string, at: nat, depth: nat)
    requires Inside(src, at, depth) && at < |src| && src[at] == '['
    ensures BlockAt(src, at + 1).end < |src| && src[BlockAt(src, at + 1).end] == ']'
  {
    InsideStep(src, at, depth);
    BlockEndsInside(src, at + 1, depth + 1);
  }

  // ----- whole programs -----

  ghost predicate TreeEnds(p: seq<Ir>, s: State, final: State) { exists fuel: nat :: Exec(p, s, fuel) == Done(final) }

  lemma ProgramFollows(src: string, s: State, fuel: nat) returns (n: nat)
    requires Source.BalancedSource(src)
    ensures Follows(src, Running(0, s), Exec(Parse(src), s, fuel), |src|, fuel, n)
  {
    assert src[..0] == [] && Inside(src, 0, 0);
    BlockEndsInside(src, 0, 0);
    n := BlockFollows(src, 0, 0, s, fuel);
  }

  ghost predicate Stops(src: string, c: Config, o: Outcome) { exists n: nat :: StopsAt(src, c, n, o) }

  /** For every balanced text and every store: the tree interpreter comes to an end, or to an exception, exactly
      when that is the first thing that stops it along the text. */
  lemma TreeStopsLikeSource(src: string, s: State, o: Outcome)
    requires Source.BalancedSource(src) && !o.Timeout?
    ensures ClearingLoops.ComesTo(Parse(src), s, o) <==> Stops(src, Running(0, s), o)
  {
    hide Source.Step, Exec, Verdict, GoesOn, Parse;
    var c := Running(0, s);
    if ClearingLoops.ComesTo(Parse(src), s, o) {
      var fuel: nat :| Exec(Parse(src), s, fuel) == o;
      var n := ProgramFollows(src, s, fuel);
      FollowsStops(src, c, o, fuel, n);
    }
    if Stops(src, c, o) {
      var n: nat :| StopsAt(src, c, n, o);
      var k := ProgramFollows(src, s, n);
      var p := Exec(Parse(src), s, n);
      if p.Timeout? {
        StopsBefore(src, c, n, o, k);
      } else {
        FollowsStops(src, c, p, n, k);
        StopsOnce(src, c, n, o, k, p);
      }
    }
  }

  lemma FollowsStops(src: string, c: Config, o: Outcome, most: int, n: nat)
    requires Follows(src, c, o, |src|, most, n) && !o.Timeout?
    ensures StopsAt(src, c, n, o)
  {
    hide Source.Step, GoesOn;
  }

  lemma StopsBefore(src: string, c: Config, n: nat, o: Outcome, k: nat)
    requires StopsAt(src, c, n, o) && !o.Timeout? && GoesOn(src, c, k)
    ensures k <= n
  {
    hide Source.Step, Verdict;
  }

  lemma StopsOnce(src: string, c: Config, n: nat, o: Outcome, k: nat, p: Outcome)
    requires StopsAt(src, c, n, o) && StopsAt(src, c, k, p) && !o.Timeout? && !p.Timeout?
    ensures n == k && o == p
  {
    StopsBefore(src, c, n, o, k);
    StopsBefore(src, c, k, p, n);
  }

  /** The optimized tree comes to all these ends, exceptions included, unless two loops stand next to each other
      at the top level; and to no others when its clearing loops step by odd numbers. */
  lemma OptimizedTreeStopsToo(src: string, s: State, o: Outcome)
    requires Source.BalancedSource(src) && !o.Timeout? && Pipeline.NoAdjacentLoops(Parse(src))
    ensures var tree := Passes.Run(Pipeline.PIPELINE, Parse(src));
            && (Stops(src, Running(0, s), o) ==> ClearingLoops.ComesTo(tree, s, o))
            && (ClearingLoops.OddSteps(Pipeline.Contracted(Parse(src))) && ClearingLoops.ComesTo(tree, s, o) ==> Stops(src, Running(0, s), o))
  {
    hide Exec, Passes.Run, ClearingLoops.OddSteps, Source.BalancedSource, Pipeline.NoAdjacentLoops, ClearingLoops.KeepsUp, Stops, Parse,
      ClearingLoops.ComesTo;
    var p := Parse(src);
    var tree := Passes.Run(Pipeline.PIPELINE, p);
    TreeStopsLikeSource(src, s, o);
    ExactPipeline.PipelineKeepsUp(p);
    EndKeptUp(p, tree, 0, s, o);
    if ClearingLoops.OddSteps(Pipeline.Contracted(p)) {
      EndKeptUp(tree, p, ClearingLoops.SLACK, s, o);
    }
  }

  lemma EndKeptUp(p: seq<Ir>, q: seq<Ir>, delay: nat, s: State, o: Outcome)
    requires ClearingLoops.KeepsUp(p, q, delay) && !o.Timeout?
    ensures ClearingLoops.ComesTo(p, s, o) ==> ClearingLoops.ComesTo(q, s, o)
  {
    hide Exec;
    if ClearingLoops.ComesTo(p, s, o) {
      var fuel: nat :| Exec(p, s, fuel) == o;
      assert ClearingLoops.KeepsUpAt(p, q, delay, s, fuel);
    }
  }

  // ----- runs with enough input -----

  /** The pointer stays on the tape and no character is read past the end of the input. */
  ghost predicate Fed(src: string, c: Config) {
    OnTapeView(c) && (c.Running? && 0 <= c.pc < |src| && src[c.pc] == ',' ==> c.st.input != [])
  }

  ghost predicate AlwaysFed(src: string, c: Config) {
    forall n: nat :: Fed(src, Iterate(Source.Step(src), n, c))
  }

  lemma FedNeverStops(src: string, c: Config)
    requires Fed(src, c)
    ensures Verdict(src, c) == if c.Running? && c.pc == |src| then Done(c.st) else Timeout(c.st)
  {
  }

  /** Along such a run nothing stops the tree but the end of the text. */
  lemma FedGoesOn(src: string, c: Config, o: Outcome, n: nat)
    requires AlwaysFed(src, c) && StopsAt(src, c, n, o) && !o.Timeout?
    ensures o.Done? && Iterate(Source.Step(src), n, c) == Running(|src|, o.st)
  {
    hide Source.Step, Verdict, Fed, GoesOn;
    assert Fed(src, Iterate(Source.Step(src), n, c));
    FedNeverStops(src, Iterate(Source.Step(src), n, c));
  }

  /** The tree interpreter on the parsed program ends exactly when the source halts, with the same store. */
  lemma TreeHaltsLikeSource(src: string, s: State, final: State)
    requires Source.BalancedSource(src) && AlwaysFed(src, Running(0, s))
    ensures TreeEnds(Parse(src), s, final) <==> Behaviour.HaltsWith(Source.Step(src), Running(0, s), final)
  {
    hide AlwaysFed, Source.Step, Exec, Verdict, GoesOn, StopsAt, Parse;
    var step, c := Source.Step(src), Running(0, s);
    TreeStopsLikeSource(src, s, Done(final));
    assert TreeEnds(Parse(src), s, final) == ClearingLoops.ComesTo(Parse(src), s, Done(final));
    if Stops(src, c, Done(final)) {
      var n: nat :| StopsAt(src, c, n, Done(final));
      FedGoesOn(src, c, Done(final), n);
      HaltsNext(src, c, n, final);
    }
    if Behaviour.HaltsWith(step, c, final) {
      var m: nat :| Iterate(step, m, c) == Halted(final);
      var n := HaltComesFrom(src, c, m, final);
      FedStopsAt(src, c, n, final);
    }
  }

  /** A run halts behind the last character. */
  lemma {:induction false} HaltComesFrom(src: string, c: Config, m: nat, final: State) returns (n: nat)
    requires c.Running? && Iterate(Source.Step(src), m, c) == Halted(final)
    ensures n < m && Iterate(Source.Step(src), n, c).Running? && Iterate(Source.Step(src), n + 1, c) == Halted(final)
  {
    hide Source.Step;
    n := m - 1;
    IterateAdd(Source.Step(src), n, 1, c);
    OneStepRun(src, Iterate(Source.Step(src), n, c));
    var x := Iterate(Source.Step(src), n, c);
    if !x.Running? {
      EndsStay(src, x);
      n := HaltComesFrom(src, c, n, final);
    }
  }

  lemma EndsStay(src: string, x: Config)
    ensures !x.Running? ==> Source.Step(src)(x) == x
  {
  }

  lemma FedStopsAt(src: string, c: Config, n: nat, final: State)
    requires AlwaysFed(src, c) && c.Running? && 0 <= c.pc <= |src|
    requires Iterate(Source.Step(src), n, c).Running? && Iterate(Source.Step(src), n + 1, c) == Halted(final)
    ensures Stops(src, c, Done(final))
  {
    hide Source.Step, Verdict, Fed;
    var step := Source.Step(src);
    var x := Iterate(step, n, c);
    StaysInside(src, c, n);
    IterateAdd(step, n, 1, c);
    OneStepRun(src, x);
    HaltsOnlyBehind(src, x, final);
    assert Fed(src, x);
    FedNeverStops(src, x);
    forall m: nat | m < n ensures Verdict(src, Iterate(step, m, c)).Timeout? {
      assert Fed(src, Iterate(step, m, c));
      FedNeverStops(src, Iterate(step, m, c));
      RunsBefore(src, c, m, n);
    }
    assert StopsAt(src, c, n, Done(final));
  }

  lemma HaltsOnlyBehind(src: string, x: Config, final: State)
    requires x.Running? && 0 <= x.pc <= |src| && Source.Step(src)(x) == Halted(final)
    ensures x == Running(|src|, final)
  {
    hide Source.ScanForward, Source.ScanBackward;
  }

  /** The text never goes on from outside itself. */
  lemma {:induction false} StaysInside(src: string, c: Config, n: nat)
    requires c.Running? && 0 <= c.pc <= |src|
    ensures var x := Iterate(Source.Step(src), n, c); x.Running? ==> 0 <= x.pc <= |src|
  {
    hide Source.Step;
    if n > 0 {
      StaysInside(src, c, n - 1);
      var x := Iterate(Source.Step(src), n - 1, c);
      IterateAdd(Source.Step(src), n - 1, 1, c);
      OneStepRun(src, x);
      EndsStay(src, x);
      StepInside(src, x);
    }
  }

  lemma StepInside(src: string, x: Config)
    requires x.Running? ==> 0 <= x.pc <= |src|
    ensures Source.Step(src)(x).Running? ==> 0 <= Source.Step(src)(x).pc <= |src|
  {
  }

  /** Before a step that is not the last the run is not behind the text. */
  lemma RunsBefore(src: string, c: Config, m: nat, n: nat)
    requires m < n && Iterate(Source.Step(src), n, c).Running?
    ensures !(Iterate(Source.Step(src), m, c).Running? && Iterate(Source.Step(src), m, c).pc == |src|)
  {
    hide Source.Step;
    var x := Iterate(Source.Step(src), m, c);
    if x.Running? && x.pc == |src| {
      HaltsNext(src, c, m, x.st);
      HaltedStays(src, x.st);
      FinalStays(Source.Step(src), c, m + 1, n);
    }
  }

  lemma HaltsNext(src: string, c: Config, n: nat, t: State)
    requires Iterate(Source.Step(src), n, c) == Running(|src|, t)
    ensures Iterate(Source.Step(src), n + 1, c) == Halted(t)
  {
    IterateAdd(Source.Step(src), n, 1, c);
    OneStepRun(src, Iterate(Source.Step(src), n, c));
  }

  lemma HaltedStays(src: string, t: State)
    ensures Source.Step(src)(Halted(t)) == Halted(t)
  {
  }

  lemma FedStaysOnTape(src: string, c: Config)
    requires AlwaysFed(src, c)
    ensures SourceSimulation.StaysOnTape(src, c)
  {
    forall n: nat ensures OnTapeView(Iterate(Source.Step(src), n, c)) {
      assert Fed(src, Iterate(Source.Step(src), n, c));
    }
  }

  /** Both implementations end on the same programs and inputs, with the same output, tape and pointer. */
  lemma FlatAndTreeHaltTogether(chunks: seq<string>, s: State, final: State)
    requires Source.BalancedSource(Brackets.Seen(chunks)) && AlwaysFed(Brackets.Seen(chunks), Running(0, s))
    ensures Behaviour.HaltsWith(FlatIr.Step(FlatIr.WithHalt(FrontEnd.ParseChunks(FrontEnd.EMPTY, chunks).ops)), Running(0, s), final)
            <==> TreeEnds(Parse(Brackets.Seen(chunks)), s, final)
  {
    var src := Brackets.Seen(chunks);
    FedStaysOnTape(src, Running(0, s));
    EndToEnd.FrontEndCorrect(chunks, s);
    Behaviour.HaltsLikeSource(FlatIr.WithHalt(FrontEnd.ParseChunks(FrontEnd.EMPTY, chunks).ops), src, s, final);
    TreeHaltsLikeSource(src, s, final);
  }

  /** A tree, or a machine, has printed at least `out` at some time. */
  ghost predicate TreePrints(p: seq<Ir>, s: State, out: seq<Byte>) {
    exists fuel: nat :: out <= Exec(p, s, fuel).st.output
  }

  ghost predicate MachinePrints(step: Config -> Config, c: Config, out: seq<Byte>) {
    exists n: nat :: out <= Iterate(step, n, c).st.output
  }

  /** While they run, each gets at least as far with its output as the other. */
  lemma FlatAndTreePrintTogether(chunks: seq<string>, s: State, n: nat)
    requires Source.BalancedSource(Brackets.Seen(chunks)) && AlwaysFed(Brackets.Seen(chunks), Running(0, s))
    ensures var step := FlatIr.Step(FlatIr.WithHalt(FrontEnd.ParseChunks(FrontEnd.EMPTY, chunks).ops));
            var tree := Parse(Brackets.Seen(chunks));
            && MachinePrints(step, Running(0, s), Exec(tree, s, n).st.output)
            && TreePrints(tree, s, Iterate(step, n, Running(0, s)).st.output)
  {
    hide AlwaysFed, Source.Step, Exec, FlatIr.Step;
    var src := Brackets.Seen(chunks);
    var step, c := FlatIr.Step(FlatIr.WithHalt(FrontEnd.ParseChunks(FrontEnd.EMPTY, chunks).ops)), Running(0, s);
    FedStaysOnTape(src, c);
    EndToEnd.FrontEndCorrect(chunks, s);
    var k := ProgramFollows(src, s, n);
    assert MeetsAfter(step, c, Source.Step(src), c, k, SourceSimulation.SameStore());
    var i: nat, j: nat :| Meets(step, c, i, Source.Step(src), c, j, SourceSimulation.SameStore()) && k <= j;
    OutputBetween(src, c, k, j);
    assert MeetsAt(step, c, n, Source.Step(src), c, SourceSimulation.SameStore());
    var m: nat :| Meets(step, c, n, Source.Step(src), c, m, SourceSimulation.SameStore());
    TreePrintsAsFar(src, s, m);
  }

  lemma OutputBetween(src: string, c: Config, i: nat, j: nat)
    requires i <= j
    ensures Iterate(Source.Step(src), i, c).st.output <= Iterate(Source.Step(src), j, c).st.output
  {
    hide Source.Step, Behaviour.Orderly;
    IterateAdd(Source.Step(src), i, j - i, c);
    Behaviour.SourceIsOrderly(src);
    Behaviour.OutputGrows(Source.Step(src), Iterate(Source.Step(src), i, c), j - i);
  }

  lemma TreePrintsAsFar(src: string, s: State, m: nat)
    requires Source.BalancedSource(src) && AlwaysFed(src, Running(0, s))
    ensures Iterate(Source.Step(src), m, Running(0, s)).st.output <= Exec(Parse(src), s, m).st.output
  {
    hide AlwaysFed, Source.Step, Exec;
    var c := Running(0, s);
    var n := ProgramFollows(src, s, m);
    var t := Exec(Parse(src), s, m).st;
    if m <= n {
      OutputBetween(src, c, m, n);
    } else {
      FollowsStops(src, c, Exec(Parse(src), s, m), m, n);
      FedGoesOn(src, c, Exec(Parse(src), s, m), n);
      HaltsNext(src, c, n, t);
      HaltedStays(src, t);
      FinalStays(Source.Step(src), c, n + 1, m);
    }
  }

  /** The whole OCaml program, passes included, ends like the C program unless two loops stand next to
      each other at the top level; when its clearing loops step by odd numbers, both have the same ends. */
  lemma OptimizedTreeEndsToo(chunks: seq<string>, s: State, final: State)
    requires Source.BalancedSource(Brackets.Seen(chunks)) && AlwaysFed(Brackets.Seen(chunks), Running(0, s))
    requires Pipeline.NoAdjacentLoops(Parse(Brackets.Seen(chunks)))
    ensures var p := Parse(Brackets.Seen(chunks));
            var c, tree := FlatIr.Step(FlatIr.WithHalt(FrontEnd.ParseChunks(FrontEnd.EMPTY, chunks).ops)), Passes.Run(Pipeline.PIPELINE, p);
            && (Behaviour.HaltsWith(c, Running(0, s), final) ==> TreeEnds(tree, s, final))
            && (ClearingLoops.OddSteps(Pipeline.Contracted(p)) && TreeEnds(tree, s, final) ==> Behaviour.HaltsWith(c, Running(0, s), final))
  {
    hide Exec, Passes.Run, ClearingLoops.OddSteps, AlwaysFed, Source.BalancedSource, Pipeline.NoAdjacentLoops, ClearingLoops.KeepsUp,
      Behaviour.HaltsWith;
    var p := Parse(Brackets.Seen(chunks));
    var tree := Passes.Run(Pipeline.PIPELINE, p);
    FlatAndTreeHaltTogether(chunks, s, final);
    ExactPipeline.PipelineKeepsUp(p);
    EndsKeptUp(p, tree, 0, s, final);
    if ClearingLoops.OddSteps(Pipeline.Contracted(p)) {
      EndsKeptUp(tree, p, ClearingLoops.SLACK, s, final);
    }
  }

  lemma EndsKeptUp(p: seq<Ir>, q: seq<Ir>, delay: nat, s: State, final: State)
    requires ClearingLoops.KeepsUp(p, q, delay)
    ensures TreeEnds(p, s, final) ==> TreeEnds(q, s, final)
  {
    hide Exec;
    if TreeEnds(p, s, final) {
      var fuel: nat :| Exec(p, s, fuel) == Done(final);
      assert ClearingLoops.KeepsUpAt(p, q, delay, s, fuel);
    }
  }

  lemma OutputKeptUp(p: seq<Ir>, q: seq<Ir>, delay: nat, s: State, fuel: nat)
    requires ClearingLoops.KeepsUp(p, q, delay)
    ensures Exec(p, s, fuel).st.output <= Exec(q, s, fuel + delay).st.output
  {
    hide Exec;
    assert ClearingLoops.KeepsUpAt(p, q, delay, s, fuel);
  }

  lemma TreePrintsKeptUp(p: seq<Ir>, q: seq<Ir>, s: State, out: seq<Byte>)
    requires ClearingLoops.KeepsUp(p, q, 0) && TreePrints(p, s, out)
    ensures TreePrints(q, s, out)
  {
    hide Exec, ClearingLoops.KeepsUp;
    var fuel: nat :| out <= Exec(p, s, fuel).st.output;
    OutputKeptUp(p, q, 0, s, fuel);
  }

  lemma MachinePrintsLess(step: Config -> Config, c: Config, out: seq<Byte>, more: seq<Byte>)
    requires MachinePrints(step, c, more) && out <= more
    ensures MachinePrints(step, c, out)
  {
    var n: nat :| more <= Iterate(step, n, c).st.output;
    assert out <= Iterate(step, n, c).st.output;
  }

  /** The optimized tree prints at least what the C program prints, at any time, and nothing else when its
      clearing loops step by odd numbers. */
  lemma OptimizedTreePrintsToo(chunks: seq<string>, s: State, n: nat)
    requires Source.BalancedSource(Brackets.Seen(chunks)) && AlwaysFed(Brackets.Seen(chunks), Running(0, s))
    requires Pipeline.NoAdjacentLoops(Parse(Brackets.Seen(chunks)))
    ensures var p := Parse(Brackets.Seen(chunks));
            var step, tree := FlatIr.Step(FlatIr.WithHalt(FrontEnd.ParseChunks(FrontEnd.EMPTY, chunks).ops)), Passes.Run(Pipeline.PIPELINE, p);
            && TreePrints(tree, s, Iterate(step, n, Running(0, s)).st.output)
            && (ClearingLoops.OddSteps(Pipeline.Contracted(p)) ==> MachinePrints(step, Running(0, s), Exec(tree, s, n).st.output))
  {
    hide Exec, Passes.Run, ClearingLoops.OddSteps, AlwaysFed, Source.BalancedSource, Pipeline.NoAdjacentLoops, FlatIr.Step,
      ClearingLoops.KeepsUp, Iterate, TreePrints, MachinePrints;
    var p := Parse(Brackets.Seen(chunks));
    var step, tree := FlatIr.Step(FlatIr.WithHalt(FrontEnd.ParseChunks(FrontEnd.EMPTY, chunks).ops)), Passes.Run(Pipeline.PIPELINE, p);
    ExactPipeline.PipelineKeepsUp(p);
    FlatAndTreePrintTogether(chunks, s, n);
    TreePrintsKeptUp(p, tree, s, Iterate(step, n, Running(0, s)).st.output);
    if ClearingLoops.OddSteps(Pipeline.Contracted(p)) {
      var delay := ClearingLoops.SLACK;
      OutputKeptUp(tree, p, delay, s, n);
      FlatAndTreePrintTogether(chunks, s, n + delay);
      MachinePrintsLess(step, Running(0, s), Exec(tree, s, n).st.output, Exec(p, s, n + delay).st.output);
    }
  }

  // ----- a read at the end of the input -----

  /** On runs on the tape that the C program ends, the tree ends likewise exactly when it is never made to read
      past the end of the input: there the C program keeps the cell and goes on, and the tree raises. */
  lemma StarvingTreeDiffers(chunks: seq<string>, s: State, final: State)
    requires Source.BalancedSource(Brackets.Seen(chunks)) && SourceSimulation.StaysOnTape(Brackets.Seen(chunks), Running(0, s))
    requires Behaviour.HaltsWith(FlatIr.Step(FlatIr.WithHalt(FrontEnd.ParseChunks(FrontEnd.EMPTY, chunks).ops)), Running(0, s), final)
    ensures TreeEnds(Parse(Brackets.Seen(chunks)), s, final) <==> AlwaysFed(Brackets.Seen(chunks), Running(0, s))
  {
    hide AlwaysFed, Source.Step, Exec, Verdict, GoesOn, StopsAt, Parse, SourceSimulation.StaysOnTape;
    var src := Brackets.Seen(chunks);
    if AlwaysFed(src, Running(0, s)) {
      FlatAndTreeHaltTogether(chunks, s, final);
    }
    if TreeEnds(Parse(src), s, final) {
      TreeStopsLikeSource(src, s, Done(final));
      assert ClearingLoops.ComesTo(Parse(src), s, Done(final));
      var n: nat :| StopsAt(src, Running(0, s), n, Done(final));
      EndMeansFed(src, Running(0, s), n, final);
    }
  }

  lemma EndMeansFed(src: string, c: Config, n: nat, final: State)
    requires SourceSimulation.StaysOnTape(src, c) && StopsAt(src, c, n, Done(final))
    ensures AlwaysFed(src, c)
  {
    hide Source.Step, Verdict;
    var step := Source.Step(src);
    DoneIsEnd(src, Iterate(step, n, c), final);
    forall m: nat ensures Fed(src, Iterate(step, m, c)) {
      assert OnTapeView(Iterate(step, m, c));
      if m < n {
        GoingIsFed(src, Iterate(step, m, c));
      } else if m > n {
        HaltsNext(src, c, n, final);
        HaltedStays(src, final);
        FinalStays(step, c, n + 1, m);
      }
    }
  }

  lemma DoneIsEnd(src: string, x: Config, final: State)
    requires Verdict(src, x) == Done(final)
    ensures x == Running(|src|, final)
  {
  }

  lemma GoingIsFed(src: string, x: Config)
    requires Verdict(src, x).Timeout? && OnTapeView(x)
    ensures Fed(src, x)
  {
  }

  /** `,` without input: the C program halts and the tree raises. */
  lemma ReadPastEndDiffers(tape: seq<Byte>)
    requires |tape| > 0
    ensures var s := State(0, tape, [], []);
            && Behaviour.HaltsWith(FlatIr.Step(FlatIr.WithHalt(FrontEnd.ParseChunks(FrontEnd.EMPTY, [","]).ops)), Running(0, s), s)
            && forall fuel: nat :: Exec(Parse(","), s, fuel) == EndOfInput(s)
  {
    hide FlatIr.Step, FrontEnd.ParseChunks, Parse, Exec;
    var s := State(0, tape, [], []);
    CommaHalts(tape);
    CommaSeen();
    EndToEnd.FrontEndCorrect([","], s);
    Behaviour.HaltsLikeSource(FlatIr.WithHalt(FrontEnd.ParseChunks(FrontEnd.EMPTY, [","]).ops), ",", s, s);
    CommaTree();
    forall fuel: nat ensures Exec(Parse(","), s, fuel) == EndOfInput(s) {
      ExecSingle(Read, s, fuel);
    }
  }

  lemma CommaSeen()
    ensures Brackets.Seen([","]) == "," && Source.DepthOf(",") == Source.Open(0)
  {
    assert FrontEnd.CString(",") == ",";
    assert [","][1..] == [];
    assert ","[..0] == "";
  }

  lemma CommaTree()
    ensures Parse(",") == [Read]
  {
    hide BlockAt;
    BlockUnfolds(",", 0);
    BlockUnfolds(",", 1);
  }

  lemma CommaHalts(tape: seq<Byte>)
    requires |tape| > 0
    ensures var s := State(0, tape, [], []);
            SourceSimulation.StaysOnTape(",", Running(0, s)) && Behaviour.HaltsWith(Source.Step(","), Running(0, s), s)
  {
    var step, s := Source.Step(","), State(0, tape, [], []);
    assert step(Running(0, s)) == Running(1, s) && step(Running(1, s)) == Halted(s);
    assert Iterate(step, 2, Running(0, s)) == Iterate(step, 1, Running(1, s)) == Iterate(step, 0, Halted(s));
    assert Iterate(step, 1, Running(0, s)) == Iterate(step, 0, Running(1, s));
    forall n: nat ensures OnTapeView(Iterate(step, n, Running(0, s))) {
      if n >= 2 {
        FinalStays(step, Running(0, s), 2, n);
      }
    }
  }

  // ----- a `[` that is never closed -----

  /** On `+[` the two part: the C program passes over the bracket and halts, the OCaml parser closes the loop
      at the end of the text, and that loop never ends. */
  lemma PendingStartsDiffer(tape: seq<Byte>)
    requires |tape| > 0 && tape[0] == 0
    ensures var s, final := State(0, tape, [], []), State(0, tape[0 := 1], [], []);
            && Behaviour.HaltsWith(FlatIr.Step(FlatIr.WithHalt(FrontEnd.ParseChunks(FrontEnd.EMPTY, ["+["]).ops)), Running(0, s), final)
            && forall fuel: nat :: Exec(Parse("+["), s, fuel) == Timeout(final)
  {
    hide FlatIr.Step, FrontEnd.ParseChunks, Parse, Exec;
    var s, final := State(0, tape, [], []), State(0, tape[0 := 1], [], []);
    PendingTextHalts(tape);
    PendingTextSeen();
    EndToEnd.FrontEndCorrect(["+["], s);
    Behaviour.HaltsLikeSource(FlatIr.WithHalt(FrontEnd.ParseChunks(FrontEnd.EMPTY, ["+["]).ops), "+[", s, final);
    PendingTree();
    forall fuel: nat ensures Exec(Parse("+["), s, fuel) == Timeout(final) {
      ExecCons(TreeIr.Cell(1), [Loop([])], s, fuel);
      ExecSingle(Loop([]), final, fuel);
      EmptyLoopSpins(final, fuel);
    }
  }

  lemma PendingTextSeen()
    ensures Brackets.Seen(["+["]) == "+[" && Source.DepthOf("+[") == Source.Open(1)
  {
    assert FrontEnd.CString("[") == "[" && FrontEnd.CString("+[") == "+[";
    assert ["+["][1..] == [];
    assert "+["[..1] == "+" && "+"[..0] == "";
  }

  lemma PendingTextHalts(tape: seq<Byte>)
    requires |tape| > 0 && tape[0] == 0
    ensures var s := State(0, tape, [], []);
            && SourceSimulation.StaysOnTape("+[", Running(0, s))
            && Behaviour.HaltsWith(Source.Step("+["), Running(0, s), State(0, tape[0 := 1], [], []))
  {
    var step, s, t := Source.Step("+["), State(0, tape, [], []), State(0, tape[0 := 1], [], []);
    assert step(Running(0, s)) == Running(1, t) && step(Running(1, t)) == Running(2, t) && step(Running(2, t)) == Halted(t);
    assert Iterate(step, 3, Running(0, s)) == Iterate(step, 2, Running(1, t)) == Iterate(step, 1, Running(2, t)) == Iterate(step, 0, Halted(t));
    assert Iterate(step, 2, Running(0, s)) == Iterate(step, 1, Running(1, t)) == Iterate(step, 0, Running(2, t));
    assert Iterate(step, 1, Running(0, s)) == Iterate(step, 0, Running(1, t));
    forall n: nat ensures OnTapeView(Iterate(step, n, Running(0, s))) {
      if n >= 3 {
        FinalStays(step, Running(0, s), 3, n);
      }
    }
  }

  lemma PendingTree()
    ensures Parse("+[") == [TreeIr.Cell(1)] + [Loop([])]
  {
    hide BlockAt;
    BlockUnfolds("+[", 0);
    BlockUnfolds("+[", 1);
    BlockUnfolds("+[", 2);
  }

  lemma {:induction false} EmptyLoopSpins(s: State, fuel: nat)
    requires s.OnTape() && s.Cell() != 0
    ensures ExecLoop([], s, fuel) == Timeout(s)
    decreases fuel
  {
    if fuel > 0 {
      EmptyLoopSpins(s, fuel - 1);
    }
  }
}
