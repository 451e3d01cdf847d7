/** How a text is cut decides how runs of reads and writes are grouped, and with that the distances of the
    brackets around them. Whatever the cut, the operations follow those of the parse that groups nothing. */
module Regrouping {
  import opened Runs
  import opened Store
  import opened FlatIr
  import opened FrontEnd
  import opened Brackets
  import Behaviour

  /** The parse in which every read and write stands alone. */
  function ParseSingly(p: Parsed, s: string): (r: Parsed)
    requires PatchInside(p)
    ensures PatchInside(r)
    decreases |s|
  {
    if s == [] then p else ParseSingly(ParseChar(p, NUL, s[0]), s[1..])
  }

  lemma {:induction false} ParseSinglyConcat(p: Parsed, s: string, t: string)
    requires PatchInside(p)
    ensures ParseSingly(p, s + t) == ParseSingly(ParseSingly(p, s), t)
    decreases |s|
  {
    hide ParseChar;
    if s == [] {
      assert s + t == t;
    } else {
      assert (s + t)[0] == s[0] && (s + t)[1..] == s[1..] + t;
      ParseSinglyConcat(ParseChar(p, NUL, s[0]), s[1..], t);
    }
  }

  // ----- the same operations, grouped and ungrouped -----

  /** Operation `k` of `a` is `b[pos[k]..pos[k + 1]]`. */
  ghost predicate Places(a: seq<Op>, b: seq<Op>, pos: seq<nat>) {
    && |pos| == |a| + 1 && pos[0] == 0 && pos[|a|] == |b|
    && forall i, j :: 0 <= i < j < |pos| ==> pos[i] < pos[j]
  }

  predicate Ones(b: seq<Op>, kind: Kind, lo: nat, hi: nat) {
    forall m :: lo <= m < hi && m < |b| ==> b[m] == Op(kind, 1)
  }

  /** A run is as many single operations; a bracket has the same partner, or none. */
  ghost predicate Stands(a: seq<Op>, b: seq<Op>, pos: seq<nat>, k: nat)
    requires k < |a| && Places(a, b, pos)
  {
    match a[k].kind
    case Read | Write => a[k].arg == pos[k + 1] - pos[k] && Ones(b, a[k].kind, pos[k], pos[k + 1])
    case LoopStart | LoopEnd =>
      var j := k + a[k].arg;
      pos[k + 1] == pos[k] + 1 && 0 <= j < |a| && IsBracket(a[j]) && b[pos[k]].kind == a[k].kind && pos[k] + b[pos[k]].arg == pos[j]
    case _ => pos[k + 1] == pos[k] + 1 && b[pos[k]] == a[k]
  }

  ghost predicate Regrouped(a: seq<Op>, b: seq<Op>, pos: seq<nat>) {
    Places(a, b, pos) && forall k :: 0 <= k < |a| ==> Stands(a, b, pos, k)
  }

  /** One more operation on each side. */
  lemma PushRegrouped(a: seq<Op>, b: seq<Op>, pos: seq<nat>, x: Op, y: Op)
    requires Regrouped(a, b, pos)
    requires (x == y && (x.kind in {Read, Write} ==> x.arg == 1) && (IsBracket(x) ==> x.arg == 0))
             || (x.kind == y.kind == LoopEnd && 0 <= |a| + x.arg < |a| && IsBracket(a[|a| + x.arg]) && y.arg == pos[|a| + x.arg] - |b|)
    ensures Regrouped(a + [x], b + [y], pos + [|b| + 1])
  {
    var a', b', pos' := a + [x], b + [y], pos + [|b| + 1];
    forall k | 0 <= k < |a'| ensures Stands(a', b', pos', k) {
      if k < |a| {
        assert Stands(a, b, pos, k);
      }
    }
  }

  /** The last plain operation changed on both sides. */
  lemma UpdateRegrouped(a: seq<Op>, b: seq<Op>, pos: seq<nat>, x: Op)
    requires Regrouped(a, b, pos) && a != [] && a[|a| - 1].kind == x.kind && x.kind in {Tape, Cell}
    ensures b != [] && b[|b| - 1] == a[|a| - 1] && Regrouped(a[|a| - 1 := x], b[|b| - 1 := x], pos)
  {
    assert Stands(a, b, pos, |a| - 1);
    var a', b' := a[|a| - 1 := x], b[|b| - 1 := x];
    forall k | 0 <= k < |a| ensures Stands(a', b', pos, k) {
      assert Stands(a, b, pos, k);
    }
  }

  /** A run takes one more character. */
  lemma GrowRegrouped(a: seq<Op>, b: seq<Op>, pos: seq<nat>, kind: Kind)
    requires Regrouped(a, b, pos) && a != [] && a[|a| - 1].kind == kind && kind in {Read, Write}
    ensures Regrouped(a[|a| - 1 := Op(kind, a[|a| - 1].arg + 1)], b + [Op(kind, 1)], pos[|a| := |b| + 1])
  {
    var last := |a| - 1;
    var a', b', pos' := a[last := Op(kind, a[last].arg + 1)], b + [Op(kind, 1)], pos[|a| := |b| + 1];
    forall k | 0 <= k < |a| ensures Stands(a', b', pos', k) {
      assert Stands(a, b, pos, k);
    }
  }

  /** A start gets another partner. */
  lemma PatchRegrouped(a: seq<Op>, b: seq<Op>, pos: seq<nat>, k: nat, d: nat)
    requires Regrouped(a, b, pos) && k + d < |a| && IsBracket(a[k]) && IsBracket(a[k + d])
    ensures pos[k] < |b| && Regrouped(a[k := Op(LoopStart, d)], b[pos[k] := Op(LoopStart, pos[k + d] - pos[k])], pos)
  {
    var a', b' := a[k := Op(LoopStart, d)], b[pos[k] := Op(LoopStart, pos[k + d] - pos[k])];
    assert Stands(a, b, pos, k);
    forall i | 0 <= i < |a| ensures Stands(a', b', pos, i) {
      assert Stands(a, b, pos, i);
      assert i < k ==> pos[i + 1] <= pos[k];
      assert k < i ==> pos[k] < pos[i];
    }
  }

  // ----- the parser keeps them so -----

  ghost predicate Twins(p: Parsed, q: Parsed, pos: seq<nat>) {
    && Regrouped(p.ops, q.ops, pos) && p.ok == q.ok && |p.patch| == |q.patch|
    && forall i :: 0 <= i < |p.patch| ==> PendingTwins(p, q, pos, i)
  }

  ghost predicate PendingTwins(p: Parsed, q: Parsed, pos: seq<nat>, i: nat)
    requires i < |p.patch| == |q.patch|
  {
    && p.patch[i] < |p.ops| && IsBracket(p.ops[p.patch[i]])
    && p.patch[i] < |pos| && q.patch[i] == pos[p.patch[i]]
  }

  lemma MergeTwins(p: Parsed, q: Parsed, pos: seq<nat>, kind: Kind, n: int) returns (pos': seq<nat>)
    requires Twins(p, q, pos) && kind in {Tape, Cell}
    ensures Twins(p.(ops := Merge(p.ops, kind, n)), q.(ops := Merge(q.ops, kind, n)), pos')
  {
    LastKinds(p.ops, q.ops, pos);
    if p.ops != [] && p.ops[|p.ops| - 1].kind == kind {
      UpdateRegrouped(p.ops, q.ops, pos, Op(kind, p.ops[|p.ops| - 1].arg + n));
      pos' := pos;
    } else {
      PushRegrouped(p.ops, q.ops, pos, Op(kind, n), Op(kind, n));
      pos' := pos + [|q.ops| + 1];
    }
    PendingStay(p, q, pos, p.(ops := Merge(p.ops, kind, n)), q.(ops := Merge(q.ops, kind, n)), pos');
  }

  lemma LastKinds(a: seq<Op>, b: seq<Op>, pos: seq<nat>)
    requires Regrouped(a, b, pos)
    ensures a == [] <==> b == []
    ensures a != [] ==> b[|b| - 1].kind == a[|a| - 1].kind
  {
    if a != [] {
      assert Stands(a, b, pos, |a| - 1);
    }
  }

  /** Operations that do not touch the brackets leave the pending ones alone. */
  lemma PendingStay(p: Parsed, q: Parsed, pos: seq<nat>, p': Parsed, q': Parsed, pos': seq<nat>)
    requires Twins(p, q, pos) && p'.patch == p.patch && q'.patch == q.patch && |p.ops| <= |p'.ops| && |p.ops| < |pos'|
    requires forall k :: 0 <= k < |p.ops| ==> pos'[k] == pos[k] && (IsBracket(p.ops[k]) ==> IsBracket(p'.ops[k]))
    ensures forall i :: 0 <= i < |p.patch| ==> PendingTwins(p', q', pos', i)
  {
    forall i | 0 <= i < |p.patch| ensures PendingTwins(p', q', pos', i) {
      assert PendingTwins(p, q, pos, i);
    }
  }

  lemma ContinueTwins(p: Parsed, q: Parsed, pos: seq<nat>, kind: Kind, sameRun: bool) returns (pos': seq<nat>)
    requires Twins(p, q, pos) && kind in {Read, Write}
    ensures Twins(p.(ops := Continue(p.ops, kind, sameRun)), q.(ops := q.ops + [Op(kind, 1)]), pos')
  {
    if sameRun && p.ops != [] && p.ops[|p.ops| - 1].kind == kind {
      GrowRegrouped(p.ops, q.ops, pos, kind);
      pos' := pos[|p.ops| := |q.ops| + 1];
    } else {
      PushRegrouped(p.ops, q.ops, pos, Op(kind, 1), Op(kind, 1));
      pos' := pos + [|q.ops| + 1];
    }
    PendingStay(p, q, pos, p.(ops := Continue(p.ops, kind, sameRun)), q.(ops := q.ops + [Op(kind, 1)]), pos');
  }

  lemma OpenTwins(p: Parsed, q: Parsed, pos: seq<nat>) returns (pos': seq<nat>)
    requires Twins(p, q, pos) && p.ok
    ensures var open := Op(LoopStart, 0);
            Twins(Parsed(p.ops + [open], [|p.ops|] + p.patch, true), Parsed(q.ops + [open], [|q.ops|] + q.patch, true), pos')
  {
    hide Regrouped;
    var open := Op(LoopStart, 0);
    PlacesOf(p.ops, q.ops, pos);
    PushRegrouped(p.ops, q.ops, pos, open, open);
    pos' := pos + [|q.ops| + 1];
    var p', q' := Parsed(p.ops + [open], [|p.ops|] + p.patch, true), Parsed(q.ops + [open], [|q.ops|] + q.patch, true);
    forall i | 0 <= i < |p'.patch| ensures PendingTwins(p', q', pos', i) {
      if i > 0 {
        assert PendingTwins(p, q, pos, i - 1);
      }
    }
  }

  lemma PlacesOf(a: seq<Op>, b: seq<Op>, pos: seq<nat>)
    requires Regrouped(a, b, pos)
    ensures Places(a, b, pos)
  {
  }

  lemma CloseTwins(p: Parsed, q: Parsed, pos: seq<nat>) returns (pos': seq<nat>)
    requires Twins(p, q, pos) && PatchInside(p) && PatchInside(q) && p.ok
    ensures Twins(CloseLoop(p), CloseLoop(q), pos')
  {
    pos' := pos;
    if p.patch != [] {
      pos' := pos + [|q.ops| + 1];
      CloseOps(p, q, pos);
      ClosePending(p, q, pos, pos');
    }
  }

  lemma CloseOps(p: Parsed, q: Parsed, pos: seq<nat>)
    requires Twins(p, q, pos) && PatchInside(p) && PatchInside(q) && p.ok && p.patch != []
    ensures Regrouped(CloseLoop(p).ops, CloseLoop(q).ops, pos + [|q.ops| + 1])
  {
    hide Regrouped, PatchInside;
    PlacesOf(p.ops, q.ops, pos);
    assert PendingTwins(p, q, pos, 0);
    var k := p.patch[0];
    var d, e := |p.ops| - k, |q.ops| - pos[k];
    PushRegrouped(p.ops, q.ops, pos, Op(LoopEnd, -d), Op(LoopEnd, -e));
    PatchRegrouped(p.ops + [Op(LoopEnd, -d)], q.ops + [Op(LoopEnd, -e)], pos + [|q.ops| + 1], k, d);
    CloseAtEnd(p);
    CloseAtEnd(q);
  }

  lemma CloseAtEnd(p: Parsed)
    requires PatchInside(p) && p.patch != []
    ensures p.patch[0] < |p.ops|
    ensures var d := |p.ops| - p.patch[0]; CloseLoop(p).ops == (p.ops + [Op(LoopEnd, -d)])[p.patch[0] := Op(LoopStart, d)]
  {
    assert p.patch[0] in p.patch;
  }

  lemma ClosePending(p: Parsed, q: Parsed, pos: seq<nat>, pos': seq<nat>)
    requires Twins(p, q, pos) && PatchInside(p) && PatchInside(q) && p.ok && p.patch != [] && pos' == pos + [|q.ops| + 1]
    ensures |CloseLoop(p).patch| == |CloseLoop(q).patch|
    ensures forall i :: 0 <= i < |CloseLoop(p).patch| ==> PendingTwins(CloseLoop(p), CloseLoop(q), pos', i)
  {
    hide Regrouped, PatchInside;
    PlacesOf(p.ops, q.ops, pos);
    CloseAtEnd(p);
    CloseAtEnd(q);
    var p', q' := CloseLoop(p), CloseLoop(q);
    forall i | 0 <= i < |p'.patch| ensures PendingTwins(p', q', pos', i) {
      assert PendingTwins(p, q, pos, i + 1);
    }
  }

  lemma CharTwins(p: Parsed, q: Parsed, pos: seq<nat>, prev: char, c: char) returns (pos': seq<nat>)
    requires Twins(p, q, pos) && PatchInside(p) && PatchInside(q)
    ensures Twins(ParseChar(p, prev, c), ParseChar(q, NUL, c), pos')
  {
    hide Regrouped, PatchInside, Merge, Continue;
    pos' := pos;
    if p.ok {
      match c
      case '+' => pos' := MergeTwins(p, q, pos, Cell, 1);
      case '-' => pos' := MergeTwins(p, q, pos, Cell, -1);
      case '>' => pos' := MergeTwins(p, q, pos, Tape, 1);
      case '<' => pos' := MergeTwins(p, q, pos, Tape, -1);
      case ',' => pos' := ContinueTwins(p, q, pos, Read, prev == c); NewRun(q.ops, Read);
      case '.' => pos' := ContinueTwins(p, q, pos, Write, prev == c); NewRun(q.ops, Write);
      case '[' => pos' := OpenTwins(p, q, pos);
      case ']' => pos' := CloseTwins(p, q, pos);
      case _ =>
    }
  }

  lemma NewRun(ops: seq<Op>, kind: Kind)
    ensures Continue(ops, kind, false) == ops + [Op(kind, 1)]
  {
  }

  lemma {:induction false} TextTwins(p: Parsed, q: Parsed, pos: seq<nat>, prev: char, s: string) returns (pos': seq<nat>)
    requires Twins(p, q, pos) && PatchInside(p) && PatchInside(q)
    ensures Twins(ParseText(p, prev, s), ParseSingly(q, s), pos')
    decreases |s|
  {
    hide Twins, ParseChar;
    pos' := pos;
    if s != [] {
      pos' := CharTwins(p, q, pos, prev, s[0]);
      pos' := TextTwins(ParseChar(p, prev, s[0]), ParseChar(q, NUL, s[0]), pos', s[0], s[1..]);
    }
  }

  lemma {:induction false} ChunksTwins(p: Parsed, q: Parsed, pos: seq<nat>, chunks: seq<string>) returns (pos': seq<nat>)
    requires Twins(p, q, pos) && PatchInside(p) && PatchInside(q)
    ensures Twins(ParseChunks(p, chunks), ParseSingly(q, Seen(chunks)), pos')
    decreases |chunks|
  {
    hide Twins, ParseText, CString;
    pos' := pos;
    if chunks != [] {
      var text := CString(chunks[0]);
      pos' := TextTwins(p, q, pos, NUL, text);
      ParseSinglyConcat(q, text, Seen(chunks[1..]));
      pos' := ChunksTwins(ParseChunk(p, chunks[0]), ParseSingly(q, text), pos', chunks[1..]);
    }
  }

  // ----- the interpreter on both -----

  /** The one that runs the groups stands where the other one stands in front of the group. */
  ghost predicate Beside(a: seq<Op>, b: seq<Op>, pos: seq<nat>, c: Config, x: Config) {
    if c.Running? then 0 <= c.pc <= |a| && c.pc < |pos| && x == Running(pos[c.pc], c.st) else x == c
  }

  ghost function Relation(a: seq<Op>, b: seq<Op>, pos: seq<nat>): (Config, Config) -> bool {
    (c: Config, x: Config) => Beside(a, b, pos, c, x)
  }

  function Many(kind: Kind, n: nat, s: State): State
    requires s.OnTape()
  {
    if kind == Read then ReadN(s, n) else WriteN(s, n)
  }

  lemma {:induction false} OnesRun(prog: seq<Op>, kind: Kind, i: nat, n: nat, s: State)
    requires s.OnTape() && i + n <= |prog| && kind in {Read, Write} && Ones(prog, kind, i, i + n)
    ensures Iterate(Step(prog), n, Running(i, s)) == Running(i + n, Many(kind, n, s))
    decreases n
  {
    if n > 0 {
      var t := Many(kind, 1, s);
      assert prog[i] == Op(kind, 1);
      ManyMore(kind, n - 1, s);
      assert Step(prog)(Running(i, s)) == Running(i + 1, t);
      OnesRun(prog, kind, i + 1, n - 1, t);
    }
  }

  lemma ManyMore(kind: Kind, n: nat, s: State)
    requires s.OnTape() && kind in {Read, Write}
    ensures Many(kind, 1, s).OnTape() && Many(kind, n + 1, s) == Many(kind, n, Many(kind, 1, s))
  {
    if kind == Read {
      assert ReadN(s, 1) == ReadN(s.Read(), 0);
    } else {
      assert WriteN(s, 1) == WriteN(s.Write(), 0);
    }
  }

  lemma RunFollows(a: seq<Op>, b: seq<Op>, pos: seq<nat>, k: nat, s: State) returns (n: nat)
    requires Regrouped(a, b, pos) && k < |a| && a[k].kind in {Read, Write}
    ensures n > 0 && Beside(a, b, pos, Execute(a[k], k, s), Iterate(Step(WithHalt(b)), n, Running(pos[k], s)))
  {
    assert Stands(a, b, pos, k);
    if s.OnTape() {
      n := a[k].arg;
      OnesRun(WithHalt(b), a[k].kind, pos[k], n, s);
    } else {
      n := 1;
      assert b[pos[k]] == Op(a[k].kind, 1);
      OneStep(Step(WithHalt(b)), Running(pos[k], s));
    }
  }

  lemma BracketFollows(a: seq<Op>, b: seq<Op>, pos: seq<nat>, k: nat, s: State)
    requires Regrouped(a, b, pos) && k < |a| && IsBracket(a[k])
    ensures Beside(a, b, pos, Execute(a[k], k, s), Step(WithHalt(b))(Running(pos[k], s)))
  {
    assert Stands(a, b, pos, k);
    assert Stands(a, b, pos, k + a[k].arg);
  }

  lemma PlainFollows(a: seq<Op>, b: seq<Op>, pos: seq<nat>, k: nat, s: State)
    requires Regrouped(a, b, pos) && k < |a| && !IsBracket(a[k]) && a[k].kind !in {Read, Write}
    ensures Beside(a, b, pos, Execute(a[k], k, s), Step(WithHalt(b))(Running(pos[k], s)))
  {
    assert Stands(a, b, pos, k);
  }

  lemma StepFollows(a: seq<Op>, b: seq<Op>, pos: seq<nat>, c: Config, x: Config) returns (n: nat)
    requires Regrouped(a, b, pos) && Beside(a, b, pos, c, x)
    ensures n > 0 && Beside(a, b, pos, Step(WithHalt(a))(c), Iterate(Step(WithHalt(b)), n, x))
  {
    hide Stands, Execute;
    n := 1;
    OneStep(Step(WithHalt(b)), x);
    if c.Running? {
      if c.pc == |a| {
        HaltsHere(a, c.st);
        HaltsHere(b, c.st);
      } else if a[c.pc].kind in {Read, Write} {
        n := RunFollows(a, b, pos, c.pc, c.st);
      } else if IsBracket(a[c.pc]) {
        BracketFollows(a, b, pos, c.pc, c.st);
      } else {
        PlainFollows(a, b, pos, c.pc, c.st);
      }
    }
  }

  lemma HaltsHere(ops: seq<Op>, s: State)
    ensures Step(WithHalt(ops))(Running(|ops|, s)) == Halted(s)
  {
  }

  lemma RegroupedRuns(a: seq<Op>, b: seq<Op>, pos: seq<nat>, s: State)
    requires Regrouped(a, b, pos)
    ensures SameRuns(Step(WithHalt(a)), Running(0, s), Step(WithHalt(b)), Running(0, s), Behaviour.SameOutcome())
  {
    hide Regrouped, Step;
    PlacesOf(a, b, pos);
    var step, steps, rank := Step(WithHalt(a)), Step(WithHalt(b)), (c: Config) => 0;
    forall c, x ensures CanAdvance(step, steps, Relation(a, b, pos), rank, c, x) {
      if Beside(a, b, pos, c, x) {
        var n := StepFollows(a, b, pos, c, x);
        assert Advances(step, steps, Relation(a, b, pos), rank, c, x, n);
      }
    }
    SimulationGivesSameRuns(step, steps, Relation(a, b, pos), rank, Running(0, s), Running(0, s));
    SameRunsWeaken(step, Running(0, s), steps, Running(0, s), Relation(a, b, pos), Behaviour.SameOutcome());
  }

  lemma {:induction false} WritesGrow(s: State, n: nat)
    requires s.OnTape()
    ensures s.output <= WriteN(s, n).output
    decreases n
  {
    if n > 0 {
      WritesGrow(s.Write(), n - 1);
    }
  }

  lemma FlatIsOrderly(prog: seq<Op>)
    ensures Behaviour.Orderly(Step(prog))
  {
    forall c ensures Behaviour.OrderlyAt(Step(prog), c) {
      if c.Running? && 0 <= c.pc < |prog| && c.st.OnTape() && prog[c.pc].kind == Write && prog[c.pc].arg > 0 {
        WritesGrow(c.st, prog[c.pc].arg);
      }
    }
  }

  /** Whatever the cut, the operations keep meeting those of the parse that groups nothing. */
  lemma ChunksFollowSingly(chunks: seq<string>, s: State)
    ensures SameRuns(Step(WithHalt(ParseChunks(EMPTY, chunks).ops)), Running(0, s),
                     Step(WithHalt(ParseSingly(EMPTY, Seen(chunks)).ops)), Running(0, s), Behaviour.SameOutcome())
  {
    hide Regrouped, Step;
    assert Regrouped([], [], [0]) by { NothingRegrouped(); }
    var pos := ChunksTwins(EMPTY, EMPTY, [0], chunks);
    RegroupedRuns(ParseChunks(EMPTY, chunks).ops, ParseSingly(EMPTY, Seen(chunks)).ops, pos, s);
  }

  lemma NothingRegrouped()
    ensures Regrouped([], [], [0])
  {
  }

  /** However a text is cut, with pending `[` or not, accepted or not, and wherever the pointer goes: the same
      ends, crashes included, with the same stores, and each run prints what the other prints. */
  lemma ChunksBehaveAlike(a: seq<string>, b: seq<string>, s: State)
    requires Seen(a) == Seen(b)
    ensures Behaviour.SameBehaviour(Step(WithHalt(ParseChunks(EMPTY, a).ops)), Running(0, s),
                                    Step(WithHalt(ParseChunks(EMPTY, b).ops)), Running(0, s))
  {
    hide Step, SameRuns, Behaviour.SameBehaviour, Behaviour.Orderly, ParseChunks, Seen;
    var ops := ParseSingly(EMPTY, Seen(a)).ops;
    ChunksFollowSingly(a, s);
    ChunksFollowSingly(b, s);
    FlatIsOrderly(WithHalt(ops));
    Behaviour.FollowersBehaveAlike(Step(WithHalt(ParseChunks(EMPTY, a).ops)), Step(WithHalt(ParseChunks(EMPTY, b).ops)),
                                   Step(WithHalt(ops)), Running(0, s));
  }
}
