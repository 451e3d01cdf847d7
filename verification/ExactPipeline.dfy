/** The pipeline of bin/main.ml on programs whose clearing loops step by odd numbers: divergence and all output
    are kept, too. */
module ExactPipeline {
  import opened Store
  import opened TreeIr
  import opened Passes
  import opened PassProofs
  import opened Pipeline
  import opened ClearingLoops

  predicate LoopFree(p: seq<Ir>) { forall i :: i in p ==> !i.Loop? }

  ghost predicate AllOdd(p: seq<Ir>) { forall i :: i in p ==> OddStep(i) }

  lemma {:induction false} OddStepsAll(p: seq<Ir>)
    ensures OddSteps(p) <==> AllOdd(p)
    decreases |p|
  {
    if p != [] {
      OddStepsAll(p[1..]);
      assert p == [p[0]] + p[1..];
    }
  }

  lemma {:induction false} ReverseHolds(p: seq<Ir>)
    ensures forall i :: i in Reverse(p) <==> i in p
  {
    if p != [] {
      ReverseHolds(p[1..]);
      assert p == [p[0]] + p[1..];
    }
  }

  /** dead_code drops a loop only behind another one, so it leaves a list without loops alone and never
      makes one. */
  lemma {:induction false} LoopsAreLeft(acc: seq<Ir>, p: seq<Ir>)
    ensures LoopFree(Fold(DEAD_CODE, acc, p)) <==> LoopFree(acc + p)
    ensures LoopFree(acc + p) ==> Fold(DEAD_CODE, acc, p) == Reverse(p) + acc
    decreases |p|
  {
    if p == [] {
      assert acc + p == acc && Reverse(p) + acc == acc;
    } else {
      var next := Apply(DEAD_CODE, acc, p[0]);
      LoopsAreLeft(next, p[1..]);
      assert p == [p[0]] + p[1..];
      if p[0].Loop? {
        assert p[0] in acc + p;
        assert next[0].Loop? && next[0] in next + p[1..];
      } else {
        assert next == [p[0]] + acc;
        assert forall i :: i in next + p[1..] <==> i in acc + p;
      }
    }
  }

  /** The body of a loop is not made a clearing one. */
  lemma BodyStaysAsItIs(body: seq<Ir>, k: int)
    ensures Reverse(Fold(DEAD_CODE, [], body)) == [TreeIr.Cell(k)] ==> body == [TreeIr.Cell(k)]
  {
    ReverseTwice(Fold(DEAD_CODE, [], body));
    ReverseOne(TreeIr.Cell(k));
    LoopsAreLeft([], body);
    assert [] + body == body;
    ReverseTwice(body);
  }

  lemma {:induction false} DeadCodeKeepsOdd(acc: seq<Ir>, p: seq<Ir>)
    requires AllOdd(acc) && AllOdd(p)
    ensures AllOdd(Fold(DEAD_CODE, acc, p))
    decreases p
  {
    hide OddStep;
    if p != [] {
      assert p[0] in p;
      ApplyKeepsOdd(acc, p[0]);
      DeadCodeKeepsOdd(Apply(DEAD_CODE, acc, p[0]), p[1..]);
    }
  }

  lemma {:induction false} ApplyKeepsOdd(acc: seq<Ir>, i: Ir)
    requires AllOdd(acc) && OddStep(i)
    ensures AllOdd(Apply(DEAD_CODE, acc, i))
    decreases i
  {
    if i.Loop? {
      var body := Reverse(Fold(DEAD_CODE, [], i.body));
      if IsClearing(i) {
        ClearingBodyStays(i.body[0].n);
        assert i.body == [TreeIr.Cell(i.body[0].n)];
      } else {
        if |body| == 1 && body[0].Cell? {
          assert body == [TreeIr.Cell(body[0].n)];
          BodyStaysAsItIs(i.body, body[0].n);
        }
        OddStepsAll(i.body);
        DeadCodeKeepsOdd([], i.body);
        ReverseHolds(Fold(DEAD_CODE, [], i.body));
        OddStepsAll(body);
      }
      assert OddStep(Loop(body));
    }
  }

  lemma ClearingBodyStays(k: int)
    ensures Reverse(Fold(DEAD_CODE, [], [TreeIr.Cell(k)])) == [TreeIr.Cell(k)]
  {
    LoopsAreLeft([], [TreeIr.Cell(k)]);
    ReverseTwice([TreeIr.Cell(k)]);
  }

  lemma OddBeforeZeroLoop(code: seq<Ir>)
    requires OddSteps(Contracted(code))
    ensures OddSteps(BeforeZeroLoop(code))
  {
    hide OddStep, OddSteps, Fold, Run;
    PipelineSteps(code);
    var back := Fold(CONTRACTION, [], code);
    OddStepsAll(Reverse(back));
    ReverseHolds(back);
    DeadCodeKeepsOdd([], back);
    OddStepsAll(BeforeZeroLoop(code));
  }

  lemma PipelineIsZeroed(code: seq<Ir>)
    ensures Run(PIPELINE, code) == Zeroed(BeforeZeroLoop(code))
  {
    hide Fold, Reverse, Zeroed, Run;
    PipelineSteps(code);
    var front := BeforeZeroLoop(code);
    FoldIsZeroed([], front);
    assert Reverse(Zeroed(front)) + [] == Reverse(Zeroed(front));
    ReverseTwice(Zeroed(front));
  }

  lemma KeepsUpExactly(p: seq<Ir>, p': seq<Ir>, q: seq<Ir>, there: nat, back: nat)
    requires Preserved(true, p, p')
    ensures KeepsUp(p', q, there) ==> KeepsUp(p, q, there)
    ensures KeepsUp(q, p', back) ==> KeepsUp(q, p, back)
  {
    hide Exec, Reaches;
    if KeepsUp(p', q, there) {
      forall s, fuel: nat ensures KeepsUpAt(p, q, there, s, fuel) {
        assert Agrees(true, p, p', s, fuel) && KeepsUpAt(p', q, there, s, fuel);
      }
    }
    if KeepsUp(q, p', back) {
      forall s, fuel: nat ensures KeepsUpAt(q, p, back, s, fuel) {
        assert Agrees(true, p, p', s, fuel + back) && KeepsUpAt(q, p', back, s, fuel);
      }
    }
  }

  /** For every program the pipeline keeps all ends and all output of the contracted program without the
      top-level loops that another loop follows. When the contracted program clears by odd steps only, the
      pipeline adds nothing either: runs that never end print the same. */
  lemma PipelineExact(code: seq<Ir>)
    ensures KeepsUp(KeepLast(Contracted(code)), Run(PIPELINE, code), 0)
    ensures OddSteps(Contracted(code)) ==> KeepsUp(Run(PIPELINE, code), KeepLast(Contracted(code)), SLACK)
  {
    hide KeepsUp, OddSteps, Fold, Run, Preserved, Zeroed, KeepLast;
    DeadCodeMeaning(code);
    PipelineIsZeroed(code);
    ZeroedKeepsUp(BeforeZeroLoop(code));
    KeepsUpExactly(KeepLast(Contracted(code)), BeforeZeroLoop(code), Run(PIPELINE, code), 0, SLACK);
    if OddSteps(Contracted(code)) {
      OddBeforeZeroLoop(code);
    }
  }

  /** Without adjacent loops at the top level that holds of the program itself. */
  lemma PipelineKeepsUp(code: seq<Ir>)
    requires NoAdjacentLoops(code)
    ensures KeepsUp(code, Run(PIPELINE, code), 0)
    ensures OddSteps(Contracted(code)) ==> KeepsUp(Run(PIPELINE, code), code, SLACK)
  {
    hide KeepsUp, OddSteps, Run, Preserved, KeepLast, NoAdjacentLoops;
    PipelineExact(code);
    NothingToDrop(code);
    PipelineMeaning(code);
    KeepsUpExactly(code, Contracted(code), Run(PIPELINE, code), 0, SLACK);
  }
}
