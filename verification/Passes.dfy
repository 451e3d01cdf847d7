/** The Pass module of lib/ir.ml. A pass folds over a list from the left and builds its result back to front;
    `Run` reverses loop bodies after each pass but the top level only once, after the last. */
module Passes {
  import opened Store
  import opened TreeIr

  type Pass = (seq<Ir>, Ir) -> seq<Ir>

  // ----- the passes; accumulators hold the latest instruction first -----

  function ZeroLoop(code: seq<Ir>, instr: Ir): seq<Ir> {
    if instr.Loop? && |instr.body| == 1 && instr.body[0].Cell? then [Set(0)] + code else [instr] + code
  }

  function DeadCode(code: seq<Ir>, instr: Ir): seq<Ir> {
    if code != [] && code[0].Loop? && instr.Loop? then code else [instr] + code
  }

  function Contraction(code: seq<Ir>, instr: Ir): seq<Ir> {
    if code == [] then [instr]
    else match (instr, code[0])
      case (Tape(a), Tape(b)) => [Tape(a + b)] + code[1..]
      case (Cell(a), Cell(b)) => [Cell(a + b)] + code[1..]
      case _ => [instr] + code
  }

  const ZERO_LOOP: Pass := (code, instr) => ZeroLoop(code, instr)
  const DEAD_CODE: Pass := (code, instr) => DeadCode(code, instr)
  const CONTRACTION: Pass := (code, instr) => Contraction(code, instr)

  function Reverse<T>(s: seq<T>): (r: seq<T>)
    ensures |r| == |s|
  {
    if s == [] then [] else Reverse(s[1..]) + [s[0]]
  }

  /** `f pass` */
  function Apply(pass: Pass, code: seq<Ir>, instr: Ir): seq<Ir>
    decreases instr
  {
    match instr
    case Loop(body) => pass(code, Loop(Reverse(Fold(pass, [], body))))
    case _ => pass(code, instr)
  }

  /** List.fold_left (f pass) */
  function Fold(pass: Pass, acc: seq<Ir>, code: seq<Ir>): seq<Ir>
    decreases code
  {
    if code == [] then acc else Fold(pass, Apply(pass, acc, code[0]), code[1..])
  }

  function RunPasses(passes: seq<Pass>, code: seq<Ir>): seq<Ir> {
    if passes == [] then code else RunPasses(passes[1..], Fold(passes[0], [], code))
  }

  /** Pass.run */
  function Run(passes: seq<Pass>, code: seq<Ir>): seq<Ir> { Reverse(RunPasses(passes, code)) }

  // ----- behaviour -----

  /** Exactly the same outcome with the same fuel; unless `exact`, only where the first program comes to an end. */
  ghost predicate Agrees(exact: bool, p: seq<Ir>, q: seq<Ir>, s: State, fuel: nat) {
    exact || !Exec(p, s, fuel).Timeout? ==> Exec(q, s, fuel) == Exec(p, s, fuel)
  }

  ghost predicate Preserved(exact: bool, p: seq<Ir>, q: seq<Ir>) {
    forall s, fuel: nat :: Agrees(exact, p, q, s, fuel)
  }

  lemma PreservedTransitive(exact: bool, p: seq<Ir>, q: seq<Ir>, r: seq<Ir>)
    requires Preserved(exact, p, q) && Preserved(exact, q, r)
    ensures Preserved(exact, p, r)
  {
    hide Exec;
    forall s, fuel: nat ensures Agrees(exact, p, r, s, fuel) {
      assert Agrees(exact, p, q, s, fuel) && Agrees(exact, q, r, s, fuel);
    }
  }

  lemma PreservedConcat(exact: bool, p: seq<Ir>, p': seq<Ir>, q: seq<Ir>, q': seq<Ir>)
    requires Preserved(exact, p, p') && Preserved(exact, q, q')
    ensures Preserved(exact, p + q, p' + q')
  {
    hide Exec;
    forall s, fuel: nat ensures Agrees(exact, p + q, p' + q', s, fuel) {
      ExecConcat(p, q, s, fuel);
      ExecConcat(p', q', s, fuel);
      assert Agrees(exact, p, p', s, fuel);
      if Exec(p, s, fuel).Done? {
        assert Agrees(exact, q, q', Exec(p, s, fuel).st, fuel);
      }
    }
  }

  lemma {:induction false} LoopAgrees(exact: bool, body: seq<Ir>, body': seq<Ir>, s: State, fuel: nat)
    requires Preserved(exact, body, body')
    ensures exact || !ExecLoop(body, s, fuel).Timeout? ==> ExecLoop(body', s, fuel) == ExecLoop(body, s, fuel)
    decreases fuel
  {
    hide Exec;
    if s.OnTape() && s.Cell() != 0 && fuel > 0 {
      assert Agrees(exact, body, body', s, fuel - 1);
      var o := Exec(body, s, fuel - 1);
      if o.Done? {
        LoopAgrees(exact, body, body', o.st, fuel - 1);
      }
    }
  }

  lemma PreservedLoop(exact: bool, body: seq<Ir>, body': seq<Ir>)
    requires Preserved(exact, body, body')
    ensures Preserved(exact, [Loop(body)], [Loop(body')])
  {
    hide Exec, ExecLoop;
    forall s, fuel: nat ensures Agrees(exact, [Loop(body)], [Loop(body')], s, fuel) {
      ExecSingle(Loop(body), s, fuel);
      ExecSingle(Loop(body'), s, fuel);
      LoopAgrees(exact, body, body', s, fuel);
    }
  }

  // ----- a fold of local rewrites -----

  /** Pushing an instruction behind the accumulated program preserves it. */
  ghost predicate Sound(exact: bool, pass: Pass) {
    forall acc, i :: SoundAt(exact, pass, acc, i)
  }

  ghost predicate SoundAt(exact: bool, pass: Pass, acc: seq<Ir>, i: Ir) {
    Preserved(exact, Reverse(acc) + [i], Reverse(pass(acc, i)))
  }

  /** The same when the list arrives back to front, so that instructions come in before the program. */
  ghost predicate SoundBackwards(exact: bool, pass: Pass) {
    forall acc, i :: SoundBackwardsAt(exact, pass, acc, i)
  }

  ghost predicate SoundBackwardsAt(exact: bool, pass: Pass, acc: seq<Ir>, i: Ir) {
    Preserved(exact, [i] + acc, pass(acc, i))
  }

  lemma PreservedRefl(exact: bool, p: seq<Ir>)
    ensures Preserved(exact, p, p)
  {
  }

  /** One instruction, its body included. */
  lemma {:induction false} ApplyBody(exact: bool, pass: Pass, i: Ir)
    requires Sound(exact, pass)
    ensures i.Loop? ==> Preserved(exact, [i], [Loop(Reverse(Fold(pass, [], i.body)))])
    decreases i
  {
    if i.Loop? {
      FoldPreserves(exact, pass, [], i.body);
      assert Reverse<Ir>([]) + i.body == i.body;
      PreservedLoop(exact, i.body, Reverse(Fold(pass, [], i.body)));
    }
  }

  lemma {:induction false} FoldPreserves(exact: bool, pass: Pass, acc: seq<Ir>, code: seq<Ir>)
    requires Sound(exact, pass)
    ensures Preserved(exact, Reverse(acc) + code, Reverse(Fold(pass, acc, code)))
    decreases code
  {
    hide Preserved, Reverse;
    if code == [] {
      assert Reverse(acc) + [] == Reverse(acc);
      PreservedRefl(exact, Reverse(acc));
    } else {
      var i, rest := code[0], code[1..];
      var i' := if i.Loop? then Loop(Reverse(Fold(pass, [], i.body))) else i;
      ApplyBody(exact, pass, i);
      if !i.Loop? {
        PreservedRefl(exact, [i]);
      }
      PreservedRefl(exact, Reverse(acc));
      PreservedConcat(exact, Reverse(acc), Reverse(acc), [i], [i']);
      var next := Apply(pass, acc, i);
      assert SoundAt(exact, pass, acc, i');
      PreservedTransitive(exact, Reverse(acc) + [i], Reverse(acc) + [i'], Reverse(next));
      PreservedRefl(exact, rest);
      PreservedConcat(exact, Reverse(acc) + [i], Reverse(next), rest, rest);
      FoldPreserves(exact, pass, next, rest);
      assert Reverse(acc) + code == Reverse(acc) + [i] + rest;
      PreservedTransitive(exact, Reverse(acc) + code, Reverse(next) + rest, Reverse(Fold(pass, next, rest)));
    }
  }

  /** A list that arrives reversed leaves the fold in program order. */
  lemma {:induction false} FoldBackwardsPreserves(exact: bool, pass: Pass, acc: seq<Ir>, code: seq<Ir>)
    requires Sound(exact, pass) && SoundBackwards(exact, pass)
    ensures Preserved(exact, Reverse(code) + acc, Fold(pass, acc, code))
    decreases code
  {
    hide Preserved;
    if code == [] {
      assert Reverse(code) + acc == acc;
      PreservedRefl(exact, acc);
    } else {
      var i, rest := code[0], code[1..];
      var i' := if i.Loop? then Loop(Reverse(Fold(pass, [], i.body))) else i;
      ApplyBody(exact, pass, i);
      if !i.Loop? {
        PreservedRefl(exact, [i]);
      }
      PreservedRefl(exact, acc);
      PreservedConcat(exact, [i], [i'], acc, acc);
      var next := Apply(pass, acc, i);
      assert SoundBackwardsAt(exact, pass, acc, i');
      PreservedTransitive(exact, [i] + acc, [i'] + acc, next);
      PreservedRefl(exact, Reverse(rest));
      PreservedConcat(exact, Reverse(rest), Reverse(rest), [i] + acc, next);
      FoldBackwardsPreserves(exact, pass, next, rest);
      assert Reverse(code) + acc == Reverse(rest) + ([i] + acc);
      PreservedTransitive(exact, Reverse(code) + acc, Reverse(rest) + next, Fold(pass, next, rest));
    }
  }
}
