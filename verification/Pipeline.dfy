/** bin/main.ml: contraction, then dead_code, then zero_loop. The second pass meets the top level backwards. */
module Pipeline {
  import opened Store
  import opened TreeIr
  import opened Passes
  import opened PassProofs

  const PIPELINE: seq<Pass> := [CONTRACTION, DEAD_CODE, ZERO_LOOP]

  /** contraction and dead_code, each on its own, keep every outcome, at every amount of fuel. */
  lemma SinglePassExact(code: seq<Ir>)
    ensures Preserved(true, code, Run([CONTRACTION], code))
    ensures Preserved(true, code, Run([DEAD_CODE], code))
  {
    hide Preserved, Run, Sound, SoundBackwards;
    ContractionSound(true);
    DeadCodeSound(true);
    RunOrder(true, [CONTRACTION], code);
    RunOrder(true, [DEAD_CODE], code);
  }

  ghost predicate KeepsOrder(passes: seq<Pass>) { forall p :: p in passes ==> p == CONTRACTION || p == ZERO_LOOP }

  lemma OrderKeepersFit(passes: seq<Pass>)
    requires KeepsOrder(passes)
    ensures AllFit(false, passes, false)
  {
    hide Sound, SoundBackwards;
    ContractionSound(false);
    ZeroLoopSound();
    forall k | 0 <= k < |passes| ensures Fit(false, passes[k], k % 2 != 0) {
      assert passes[k] in passes;
    }
  }

  /** Every odd number of contraction and zero_loop passes keeps the order and the runs that end. */
  lemma OddPassesPreserve(passes: seq<Pass>, code: seq<Ir>)
    requires |passes| % 2 == 1 && KeepsOrder(passes)
    ensures Preserved(false, code, Run(passes, code))
  {
    hide Preserved, Run, AllFit, KeepsOrder;
    OrderKeepersFit(passes);
    RunOrder(false, passes, code);
  }

  /** With an even number of them it is the result turned around that keeps the runs that end. */
  lemma EvenPassesReverse(passes: seq<Pass>, code: seq<Ir>)
    requires |passes| % 2 == 0 && KeepsOrder(passes)
    ensures Preserved(false, code, Reverse(Run(passes, code)))
    ensures passes == [] ==> Run(passes, code) == Reverse(code)
  {
    hide Preserved, AllFit, KeepsOrder;
    OrderKeepersFit(passes);
    RunOrder(false, passes, code);
  }

  /** .+ prints 0; after two contractions it prints 1. */
  lemma TwoPassesSwap()
    ensures var code, s := [Write, TreeIr.Cell(1)], State(0, [0], [], []);
            && Run([CONTRACTION, CONTRACTION], code) == [TreeIr.Cell(1), Write]
            && Exec(code, s, 0) == Done(State(0, [1], [], [0]))
            && Exec(Run([CONTRACTION, CONTRACTION], code), s, 0) == Done(State(0, [1], [], [1]))
  {
    hide Run, Exec, AddToCell;
    TwoContractions();
    var one, s := TreeIr.Cell(1), State(0, [0], [], []);
    assert AddToCell(0, 1) == 1 by { AddToCellWraps(0, 1); }
    TwoSteps(Write, one, s, State(0, [0], [], [0]));
    TwoSteps(one, Write, s, State(0, [1], [], []));
    assert ExecOne(one, State(0, [0], [], [0]), 0) == Done(State(0, [1], [], [0]));
  }

  /** Neighbours of a kind become one, whatever their signs and also if they cancel out; others are left alone. */
  lemma ContractsNeighbours(a: int, b: int)
    ensures Run([CONTRACTION], [Tape(a), Tape(b)]) == [Tape(a + b)]
    ensures Run([CONTRACTION], [TreeIr.Cell(a), TreeIr.Cell(b)]) == [TreeIr.Cell(a + b)]
    ensures Run([CONTRACTION], [Tape(a), TreeIr.Cell(b)]) == [Tape(a), TreeIr.Cell(b)]
  {
    hide Fold, Reverse;
    var none: seq<Pass> := [];
    assert [CONTRACTION][1..] == none;
    FoldTwo(CONTRACTION, Tape(a), Tape(b));
    FoldTwo(CONTRACTION, TreeIr.Cell(a), TreeIr.Cell(b));
    FoldTwo(CONTRACTION, Tape(a), TreeIr.Cell(b));
    RunOne(CONTRACTION, [Tape(a), Tape(b)]);
    RunOne(CONTRACTION, [TreeIr.Cell(a), TreeIr.Cell(b)]);
    RunOne(CONTRACTION, [Tape(a), TreeIr.Cell(b)]);
    ReverseOne(Tape(a + b));
    ReverseOne(TreeIr.Cell(a + b));
    ReverseConcat([TreeIr.Cell(b)], [Tape(a)]);
    ReverseOne(TreeIr.Cell(b));
    ReverseOne(Tape(a));
    assert [Tape(a)][1..] == [] && [TreeIr.Cell(a)][1..] == [];
    assert [Tape(a + b)] + [] == [Tape(a + b)] && [TreeIr.Cell(a + b)] + [] == [TreeIr.Cell(a + b)];
    assert [Tape(a)] + [TreeIr.Cell(b)] == [Tape(a), TreeIr.Cell(b)];
  }

  lemma RunOne(pass: Pass, code: seq<Ir>)
    ensures Run([pass], code) == Reverse(Fold(pass, [], code))
  {
    hide Fold, Reverse;
    var none: seq<Pass> := [];
    assert [pass][1..] == none;
    assert RunPasses([pass], code) == RunPasses(none, Fold(pass, [], code));
  }

  lemma TwoContractions()
    ensures Run([CONTRACTION, CONTRACTION], [Write, TreeIr.Cell(1)]) == [TreeIr.Cell(1), Write]
  {
    var one := TreeIr.Cell(1);
    var none: seq<Pass> := [];
    assert [CONTRACTION, CONTRACTION][1..] == [CONTRACTION] && [CONTRACTION][1..] == none;
    FoldTwo(CONTRACTION, Write, one);
    FoldTwo(CONTRACTION, one, Write);
    assert Fold(CONTRACTION, [], [Write, one]) == [one, Write];
    assert Fold(CONTRACTION, [], [one, Write]) == [Write, one];
    assert RunPasses([CONTRACTION, CONTRACTION], [Write, one]) == RunPasses([CONTRACTION], [one, Write])
           == RunPasses(none, [Write, one]);
    ReverseConcat([Write], [one]);
    ReverseOne(one);
    ReverseOne(Write);
    assert [Write] + [one] == [Write, one];
  }

  lemma TwoSteps(a: Ir, b: Ir, s: State, mid: State)
    requires ExecOne(a, s, 0) == Done(mid)
    ensures Exec([a, b], s, 0) == ExecOne(b, mid, 0)
  {
    hide ExecOne;
    assert [a, b] == [a] + [b];
    ExecCons(a, [b], s, 0);
    ExecSingle(b, mid, 0);
  }

  // ----- what dead_code does to a list that arrives backwards -----

  /** Drops each loop directly followed by a loop. */
  function KeepLast(p: seq<Ir>): seq<Ir> {
    if p == [] then []
    else if |p| > 1 && p[0].Loop? && p[1].Loop? then KeepLast(p[1..])
    else [p[0]] + KeepLast(p[1..])
  }

  predicate NoAdjacentLoops(p: seq<Ir>) {
    forall k :: 0 < k < |p| ==> !p[k - 1].Loop? || !p[k].Loop?
  }

  predicate LeadsWithLoop(p: seq<Ir>) { p != [] && p[0].Loop? }

  lemma {:induction false} KeepLastLead(p: seq<Ir>)
    ensures LeadsWithLoop(KeepLast(p)) <==> LeadsWithLoop(p)
    ensures p != [] ==> KeepLast(p) == DeadCode(KeepLast(p[1..]), p[0])
  {
    if p != [] {
      KeepLastLead(p[1..]);
    }
  }

  lemma {:induction false} KeepLastOfNoAdjacent(p: seq<Ir>)
    ensures KeepLast(p) == p <==> NoAdjacentLoops(p)
    ensures |KeepLast(p)| <= |p|
  {
    if p != [] {
      KeepLastOfNoAdjacent(p[1..]);
      NoAdjacentTail(p);
      assert p == [p[0]] + p[1..];
    }
  }

  lemma NoAdjacentTail(p: seq<Ir>)
    requires p != []
    ensures NoAdjacentLoops(p) <==> NoAdjacentLoops(p[1..]) && !(|p| > 1 && p[0].Loop? && p[1].Loop?)
  {
    if NoAdjacentLoops(p[1..]) && !(|p| > 1 && p[0].Loop? && p[1].Loop?) {
      forall k | 0 < k < |p| ensures !p[k - 1].Loop? || !p[k].Loop? {
        if k > 1 {
          assert p[1..][k - 2] == p[k - 1] && p[1..][k - 1] == p[k];
        }
      }
    }
    if NoAdjacentLoops(p) {
      forall k | 0 < k < |p[1..]| ensures !p[1..][k - 1].Loop? || !p[1..][k].Loop? {
        assert p[1..][k - 1] == p[k] && p[1..][k] == p[k + 1];
      }
    }
  }

  /** `acc` is the result for the suffix `q` of the program; what is left of it arrives backwards. */
  lemma {:induction false} DeadCodeBackwards(q: seq<Ir>, acc: seq<Ir>, code: seq<Ir>)
    requires Preserved(true, KeepLast(q), acc) && (LeadsWithLoop(q) <==> LeadsWithLoop(acc))
    ensures Preserved(true, KeepLast(Reverse(code) + q), Fold(DEAD_CODE, acc, code))
    decreases code
  {
    hide Preserved, KeepLast, Sound;
    if code == [] {
      assert Reverse(code) + q == q;
    } else {
      var i, rest := code[0], code[1..];
      var i' := if i.Loop? then Loop(Reverse(Fold(DEAD_CODE, [], i.body))) else i;
      DeadCodeSound(true);
      ApplyBody(true, DEAD_CODE, i);
      if !i.Loop? {
        PreservedRefl(true, [i]);
      }
      KeepLastLead([i] + q);
      KeepLastLead(q);
      assert ([i] + q)[1..] == q;
      PreservedConcat(true, [i], [i'], KeepLast(q), acc);
      var next := Apply(DEAD_CODE, acc, i);
      assert next == DeadCode(acc, i');
      DeadCodeBackwards([i] + q, next, rest);
      assert Reverse(code) + q == Reverse(rest) + ([i] + q);
    }
  }

  // ----- contraction neither separates loops nor brings them together -----

  lemma {:induction false} ContractionKeepsGaps(acc: seq<Ir>, code: seq<Ir>)
    requires NoAdjacentLoops(Reverse(acc) + code)
    ensures NoAdjacentLoops(Reverse(Fold(CONTRACTION, acc, code)))
    decreases code
  {
    if code == [] {
      assert Reverse(acc) + code == Reverse(acc);
    } else {
      var i, rest := code[0], code[1..];
      var next := Apply(CONTRACTION, acc, i);
      assert Reverse(acc) + code == Reverse(acc) + ([i] + rest);
      GapsAfterOne(acc, i, rest);
      ContractionKeepsGaps(next, rest);
    }
  }

  lemma GapsAfterOne(acc: seq<Ir>, i: Ir, rest: seq<Ir>)
    requires NoAdjacentLoops(Reverse(acc) + ([i] + rest))
    ensures NoAdjacentLoops(Reverse(Apply(CONTRACTION, acc, i)) + rest)
  {
    var i' := if i.Loop? then Loop(Reverse(Fold(CONTRACTION, [], i.body))) else i;
    var before := Reverse(acc);
    var p := before + ([i] + rest);
    var next := Apply(CONTRACTION, acc, i);
    assert next == Contraction(acc, i');
    if next == [i'] + acc {
      assert ([i'] + acc)[1..] == acc;
      GapsReplaced(before, i, i', rest);
      assert Reverse(next) + rest == before + ([i'] + rest);
    } else {
      var tail := Reverse(acc[1..]);
      assert acc != [] && next[1..] == acc[1..] && !next[0].Loop? && !i.Loop? && !acc[0].Loop?;
      assert p == tail + ([acc[0]] + ([i] + rest));
      GapsReplaced(tail, acc[0], next[0], [i] + rest);
      GapsSkipped(tail, next[0], i, rest);
      assert Reverse(next) + rest == tail + ([next[0]] + rest);
    }
  }

  lemma GapsReplaced(before: seq<Ir>, i: Ir, j: Ir, after: seq<Ir>)
    requires NoAdjacentLoops(before + ([i] + after)) && (j.Loop? ==> i.Loop?)
    ensures NoAdjacentLoops(before + ([j] + after))
  {
    var p, q := before + ([i] + after), before + ([j] + after);
    forall k | 0 < k < |q| ensures !q[k - 1].Loop? || !q[k].Loop? {
      assert !p[k - 1].Loop? || !p[k].Loop?;
      assert forall m :: 0 <= m < |q| && m != |before| ==> q[m] == p[m];
    }
  }

  lemma GapsSkipped(before: seq<Ir>, j: Ir, i: Ir, after: seq<Ir>)
    requires NoAdjacentLoops(before + ([j] + ([i] + after))) && !j.Loop?
    ensures NoAdjacentLoops(before + ([j] + after))
  {
    var p, q := before + ([j] + ([i] + after)), before + ([j] + after);
    forall k | 0 < k < |q| ensures !q[k - 1].Loop? || !q[k].Loop? {
      var n := |before|;
      assert forall m :: 0 <= m <= n ==> q[m] == p[m];
      assert forall m :: n < m < |q| ==> q[m] == p[m + 1];
      if k > n + 1 {
        assert !p[k].Loop? || !p[k + 1].Loop?;
      } else if k <= n {
        assert !p[k - 1].Loop? || !p[k].Loop?;
      }
    }
  }

  // ----- the pipeline -----

  function Contracted(code: seq<Ir>): seq<Ir> { Run([CONTRACTION], code) }

  lemma PipelineSteps(code: seq<Ir>)
    ensures Run(PIPELINE, code) == Reverse(Fold(ZERO_LOOP, [], Fold(DEAD_CODE, [], Fold(CONTRACTION, [], code))))
    ensures Contracted(code) == Reverse(Fold(CONTRACTION, [], code))
  {
    hide Fold, Reverse;
    var two, one, none: seq<Pass> := [DEAD_CODE, ZERO_LOOP], [ZERO_LOOP], [];
    var c := Fold(CONTRACTION, [], code);
    var d := Fold(DEAD_CODE, [], c);
    assert PIPELINE[1..] == two && two[1..] == one && one[1..] == none && [CONTRACTION][1..] == none;
    assert RunPasses(PIPELINE, code) == RunPasses(two, c);
    assert RunPasses(two, c) == RunPasses(one, d);
    assert RunPasses(one, d) == RunPasses(none, Fold(ZERO_LOOP, [], d));
    assert RunPasses([CONTRACTION], code) == RunPasses(none, c);
  }

  /** What zero_loop gets from the passes before it. */
  function BeforeZeroLoop(code: seq<Ir>): seq<Ir> { Fold(DEAD_CODE, [], Fold(CONTRACTION, [], code)) }

  lemma DeadCodeMeaning(code: seq<Ir>)
    ensures Preserved(true, KeepLast(Contracted(code)), BeforeZeroLoop(code))
  {
    hide Preserved, KeepLast, Fold, Run;
    PipelineSteps(code);
    var back := Fold(CONTRACTION, [], code);
    PreservedRefl(true, KeepLast([]));
    KeepLastOfNoAdjacent([]);
    DeadCodeBackwards([], [], back);
    assert Reverse(back) + [] == Reverse(back);
  }

  /** What the pipeline computes, for every program: the runs that end are those of the contracted program
      without the top-level loops that another loop follows directly. */
  lemma PipelineMeaning(code: seq<Ir>)
    ensures Preserved(true, code, Contracted(code))
    ensures Preserved(false, KeepLast(Contracted(code)), Run(PIPELINE, code))
  {
    hide Preserved, KeepLast, Sound, SoundBackwards;
    PipelineSteps(code);
    SinglePassExact(code);
    DeadCodeMeaning(code);
    var front := BeforeZeroLoop(code);
    ExactIsEnough(false, KeepLast(Contracted(code)), front);
    ZeroLoopSound();
    FoldPreserves(false, ZERO_LOOP, [], front);
    assert Reverse<Ir>([]) + front == front;
    PreservedTransitive(false, KeepLast(Contracted(code)), front, Run(PIPELINE, code));
  }

  lemma NothingToDrop(code: seq<Ir>)
    requires NoAdjacentLoops(code)
    ensures KeepLast(Contracted(code)) == Contracted(code)
  {
    hide KeepLast;
    PipelineSteps(code);
    assert Reverse<Ir>([]) + code == code;
    ContractionKeepsGaps([], code);
    KeepLastOfNoAdjacent(Contracted(code));
  }

  /** Pipeline correctness: without two adjacent loops at the top level, every run that ends, normally or with an
      exception, ends in the same way after the three passes, at every nesting depth. */
  lemma PipelineCorrect(code: seq<Ir>)
    requires NoAdjacentLoops(code)
    ensures Preserved(false, code, Run(PIPELINE, code))
  {
    hide Preserved, KeepLast;
    PipelineMeaning(code);
    NothingToDrop(code);
    ExactIsEnough(false, code, Contracted(code));
    PreservedTransitive(false, code, Contracted(code), Run(PIPELINE, code));
  }

  /** +[.-][-] prints a byte; the pipeline drops the loop that prints it. */
  lemma AdjacentLoopsLoseOutput()
    ensures var code := [TreeIr.Cell(1), Loop([Write, TreeIr.Cell(-1)]), Loop([TreeIr.Cell(-1)])];
            var s := State(0, [0], [], []);
            Exec(code, s, 1) == Done(State(0, [0], [], [1]))
            && Exec(Run(PIPELINE, code), s, 1) == Done(State(0, [0], [], []))
  {
    hide Exec, Run;
    TwoLoopsPrint();
    DroppedLoop();
    SetPrintsNothing();
  }

  lemma TwoLoopsPrint()
    ensures var code := [TreeIr.Cell(1), Loop([Write, TreeIr.Cell(-1)]), Loop([TreeIr.Cell(-1)])];
            Exec(code, State(0, [0], [], []), 1) == Done(State(0, [0], [], [1]))
  {
    var dec := TreeIr.Cell(-1);
    var a, b := Loop([Write, dec]), Loop([dec]);
    var code := [TreeIr.Cell(1), a, b];
    PrintingLoop();
    assert code[1..] == [a, b] && code[1..][1..] == [b];
    assert ExecOne(TreeIr.Cell(1), State(0, [0], [], []), 1) == Done(State(0, [1], [], []));
    ExecSingle(b, State(0, [0], [], [1]), 1);
  }

  lemma SetPrintsNothing()
    ensures Exec([TreeIr.Cell(1), Set(0)], State(0, [0], [], []), 1) == Done(State(0, [0], [], []))
  {
    assert [TreeIr.Cell(1), Set(0)][1..] == [Set(0)];
    assert ExecOne(TreeIr.Cell(1), State(0, [0], [], []), 1) == Done(State(0, [1], [], []));
    ExecSingle(Set(0), State(0, [1], [], []), 1);
  }

  lemma PrintingLoop()
    ensures ExecLoop([Write, TreeIr.Cell(-1)], State(0, [1], [], []), 1) == Done(State(0, [0], [], [1]))
  {
    var body, t := [Write, TreeIr.Cell(-1)], State(0, [1], [], []);
    assert body[1..] == [TreeIr.Cell(-1)];
    ExecSingle(TreeIr.Cell(-1), State(0, [1], [], [1]), 0);
    assert ExecOne(Write, t, 0) == Done(State(0, [1], [], [1]));
  }

  lemma DroppedLoop()
    ensures Run(PIPELINE, [TreeIr.Cell(1), Loop([Write, TreeIr.Cell(-1)]), Loop([TreeIr.Cell(-1)])]) ==
            [TreeIr.Cell(1), Set(0)]
  {
    hide Fold, Run, Reverse;
    var one, dec := TreeIr.Cell(1), TreeIr.Cell(-1);
    var a, b := Loop([Write, dec]), Loop([dec]);
    PipelineSteps([one, a, b]);
    FoldedExamples();
    ReverseConcat([Set(0)], [one]);
    ReverseOne(one);
    ReverseOne(Set(0));
    assert [Set(0)] + [one] == [Set(0), one] && [one] + [Set(0)] == [one, Set(0)];
  }

  lemma FoldedExamples()
    ensures var one, a, b := TreeIr.Cell(1), Loop([Write, TreeIr.Cell(-1)]), Loop([TreeIr.Cell(-1)]);
            && Fold(CONTRACTION, [], [one, a, b]) == [b, a, one]
            && Fold(DEAD_CODE, [], [b, a, one]) == [one, b]
            && Fold(ZERO_LOOP, [], [one, b]) == [Set(0), one]
  {
    hide Fold, Reverse;
    var one, dec := TreeIr.Cell(1), TreeIr.Cell(-1);
    var a, b := Loop([Write, dec]), Loop([dec]);
    FoldSteps(CONTRACTION, one, a, b);
    FoldBodies(CONTRACTION);
    FoldSteps(DEAD_CODE, b, a, one);
    FoldBodies(DEAD_CODE);
    FoldTwo(ZERO_LOOP, one, b);
    FoldBodies(ZERO_LOOP);
  }

  lemma FoldTwo(pass: Pass, x: Ir, y: Ir)
    ensures Fold(pass, [], [x, y]) == Apply(pass, Apply(pass, [], x), y)
  {
    assert [x, y][1..] == [y] && [y][1..] == [];
    var one := Apply(pass, [], x);
    var two := Apply(pass, one, y);
    assert Fold(pass, [], [x, y]) == Fold(pass, one, [y]);
    assert Fold(pass, one, [y]) == Fold(pass, two, []);
  }

  lemma FoldSteps(pass: Pass, x: Ir, y: Ir, z: Ir)
    ensures Fold(pass, [], [x, y, z]) == Apply(pass, Apply(pass, Apply(pass, [], x), y), z)
  {
    assert [x, y, z][1..] == [y, z] && [y, z][1..] == [z] && [z][1..] == [];
    var one := Apply(pass, [], x);
    var two := Apply(pass, one, y);
    assert Fold(pass, [], [x, y, z]) == Fold(pass, one, [y, z]);
    assert Fold(pass, one, [y, z]) == Fold(pass, two, [z]);
    assert Fold(pass, two, [z]) == Fold(pass, Apply(pass, two, z), []);
  }

  /** None of the passes changes these two bodies. */
  lemma FoldBodies(pass: Pass)
    requires pass == CONTRACTION || pass == DEAD_CODE || pass == ZERO_LOOP
    ensures var dec := TreeIr.Cell(-1);
            Reverse(Fold(pass, [], [Write, dec])) == [Write, dec] && Reverse(Fold(pass, [], [dec])) == [dec]
  {
    var dec := TreeIr.Cell(-1);
    FoldTwo(pass, Write, dec);
    ReverseConcat([dec], [Write]);
    ReverseOne(dec);
    ReverseOne(Write);
    assert [dec] + [Write] == [dec, Write];
    assert [dec][1..] == [];
  }
}
