/** csrc/src/ir_gen.c, ir_ctx_dump_bf: flat IR printed as source text again. */
module Dump {
  import opened Store
  import opened FlatIr
  import opened FrontEnd
  import opened Coverage
  import opened Behaviour
  import opened OpenBrackets
  import opened Texts
  import Brackets
  import Chunks
  import EndToEnd
  import Source
  import SourceSimulation
  import TapeSafety

  function DumpOp(op: Op): string {
    match op.kind
    case Read => Times(',', op.arg)
    case Write => Times('.', op.arg)
    case Cell => if op.arg < 0 then Times('-', -op.arg) else Times('+', op.arg)
    case Tape => if op.arg < 0 then Times('<', -op.arg) else Times('>', op.arg)
    case LoopStart => "["
    case LoopEnd => "]"
    case _ => Times('#', op.arg)
  }

  function DumpOps(ops: seq<Op>): string {
    if ops == [] then [] else DumpOps(ops[..|ops| - 1]) + DumpOp(ops[|ops| - 1])
  }

  /** The last character is the newline of puts. */
  function DumpBf(ops: seq<Op>): string { DumpOps(ops) + ['\n'] }

  /** One operation of each kind in print. */
  lemma PrintedExample()
    ensures DumpBf([Op(Tape, 2), Op(Tape, -1), Op(Cell, 3), Op(Cell, -2), Op(LoopStart, 3), Op(Read, 2), Op(Write, 1), Op(LoopEnd, -3),
                    Op(Set, 2)]) == ">><+++--[,,.]##\n"
  {
    hide DumpOp, DumpOps;
    var a := [Op(Tape, 2), Op(Tape, -1), Op(Cell, 3)];
    var b := a + [Op(Cell, -2), Op(LoopStart, 3), Op(Read, 2)];
    PrintedOps();
    PrintedMore([], Op(Tape, 2), Op(Tape, -1), Op(Cell, 3));
    PrintedMore(a, Op(Cell, -2), Op(LoopStart, 3), Op(Read, 2));
    PrintedMore(b, Op(Write, 1), Op(LoopEnd, -3), Op(Set, 2));
    assert [] + [Op(Tape, 2), Op(Tape, -1), Op(Cell, 3)] == a;
    assert DumpOps(a) == ">><+++" && DumpOps(b) == ">><+++--[,,";
    assert b + [Op(Write, 1), Op(LoopEnd, -3), Op(Set, 2)] ==
           [Op(Tape, 2), Op(Tape, -1), Op(Cell, 3), Op(Cell, -2), Op(LoopStart, 3), Op(Read, 2), Op(Write, 1), Op(LoopEnd, -3), Op(Set, 2)];
  }

  lemma PrintedOps()
    ensures DumpOps([]) == "" && DumpOp(Op(Tape, 2)) == ">>" && DumpOp(Op(Tape, -1)) == "<" && DumpOp(Op(Cell, 3)) == "+++"
    ensures DumpOp(Op(Cell, -2)) == "--" && DumpOp(Op(LoopStart, 3)) == "[" && DumpOp(Op(Read, 2)) == ",,"
    ensures DumpOp(Op(Write, 1)) == "." && DumpOp(Op(LoopEnd, -3)) == "]" && DumpOp(Op(Set, 2)) == "##"
  {
    hide Times;
    TimesShort('>', 2);
    TimesShort('<', 1);
    TimesShort('+', 3);
    TimesShort('-', 2);
    TimesShort(',', 2);
    TimesShort('.', 1);
    TimesShort('#', 2);
  }

  lemma PrintedMore(ops: seq<Op>, x: Op, y: Op, z: Op)
    ensures DumpOps(ops + [x, y, z]) == DumpOps(ops) + DumpOp(x) + DumpOp(y) + DumpOp(z)
  {
    hide DumpOp;
    assert ops + [x, y, z] == ops + [x] + [y] + [z];
    PrintedOne(ops, x);
    PrintedOne(ops + [x], y);
    PrintedOne(ops + [x] + [y], z);
  }

  lemma PrintedOne(ops: seq<Op>, x: Op)
    ensures DumpOps(ops + [x]) == DumpOps(ops) + DumpOp(x)
  {
    hide DumpOp;
    assert (ops + [x])[..|ops|] == ops;
  }

  method PutCount(out: string, c: char, count: int) returns (r: string)
    ensures r == out + Times(c, count)
  {
    r := out;
    var j := 0;
    while j < count
      invariant 0 <= j <= if count > 0 then count else 0
      invariant r == out + Times(c, j)
    {
      r := r + [c];
      j := j + 1;
    }
  }

  method PrintBf(ops: seq<Op>) returns (out: string)
    ensures out == DumpBf(ops)
  {
    out := [];
    var i := 0;
    while i < |ops|
      invariant 0 <= i <= |ops| && out == DumpOps(ops[..i])
    {
      var op := ops[i];
      match op.kind {
        case Read => out := PutCount(out, ',', op.arg);
        case Write => out := PutCount(out, '.', op.arg);
        case Cell =>
          if op.arg < 0 {
            out := PutCount(out, '-', -op.arg);
          } else {
            out := PutCount(out, '+', op.arg);
          }
        case Tape =>
          if op.arg < 0 {
            out := PutCount(out, '<', -op.arg);
          } else {
            out := PutCount(out, '>', op.arg);
          }
        case LoopStart => out := out + ['['];
        case LoopEnd => out := out + [']'];
        case _ => out := PutCount(out, '#', op.arg);
      }
      assert ops[..i + 1][..i] == ops[..i];
      i := i + 1;
    }
    assert ops[..|ops|] == ops;
    out := out + ['\n'];
  }

  // ----- the printed text stands for the operations -----

  /** What the parser can produce. */
  predicate Printable(ops: seq<Op>) {
    forall k :: 0 <= k < |ops| ==>
      ops[k].kind !in {Set, Halt} && (ops[k].kind in {Read, Write} ==> ops[k].arg >= 1)
  }

  lemma {:induction false} NetOfRun(kind: Kind, c: char, n: int)
    ensures Net(kind, Times(c, n)) == if n > 0 then n * Weight(kind, c) else 0
    ensures forall x :: x in Times(c, n) ==> x == c
    ensures |Times(c, n)| == if n > 0 then n else 0
    decreases n
  {
    if n > 0 {
      hide Net;
      NetOfRun(kind, c, n - 1);
      NetGrows(kind, Times(c, n - 1), c);
      OneMoreTimes(n, Weight(kind, c));
    }
  }

  lemma OneMoreTimes(n: int, w: int)
    ensures n * w == (n - 1) * w + w
  {
  }

  lemma DumpStandsFor(op: Op)
    requires Printable([op])
    ensures StandsFor(op, DumpOp(op))
  {
    hide Times, Net;
    assert op == [op][0];
    match op.kind
    case Read => NetOfRun(Read, ',', op.arg);
    case Write => NetOfRun(Write, '.', op.arg);
    case Cell => if op.arg < 0 { NetOfRun(Cell, '-', -op.arg); } else { NetOfRun(Cell, '+', op.arg); }
    case Tape => if op.arg < 0 { NetOfRun(Tape, '<', -op.arg); } else { NetOfRun(Tape, '>', op.arg); }
    case _ =>
  }

  lemma {:induction false} DumpCovers(ops: seq<Op>) returns (cut: seq<nat>)
    requires Printable(ops)
    ensures Covers(DumpOps(ops), ops, cut) && TapeSafety.OneWays(DumpOps(ops), ops, cut)
    decreases |ops|
  {
    hide TapeSafety.OneWays, StandsFor, DumpOp;
    if ops == [] {
      cut := [0];
      TapeSafety.NoPieces(DumpOps(ops), cut);
    } else {
      var front, op := ops[..|ops| - 1], ops[|ops| - 1];
      var before := DumpCovers(front);
      assert op == ops[|ops| - 1] && Printable([op]);
      DumpStandsFor(op);
      DumpOneWay(op);
      cut := AppendPiece(DumpOps(front), front, before, DumpOp(op), op);
      TapeSafety.OneWaysAppend(DumpOps(front), front, before, DumpOp(op), op, cut);
      assert front + [op] == ops;
    }
  }

  lemma DumpOneWay(op: Op)
    ensures op.kind == Tape ==> TapeSafety.OneWay(DumpOp(op))
  {
    hide Times, Net;
    if op.kind == Tape {
      NetOfRun(Tape, '<', -op.arg);
      NetOfRun(Tape, '>', op.arg);
    }
  }

  /** The printed text, newline included, represents the operations and never goes back and forth. */
  lemma DumpRepresents(ops: seq<Op>) returns (cut: seq<nat>)
    requires Open(ops) && Printable(ops)
    ensures SourceSimulation.Represents(DumpBf(ops), ops, cut) && TapeSafety.OneWays(DumpBf(ops), ops, cut)
    ensures Source.DepthOf(DumpBf(ops)) != Source.Unmatched
    ensures Balanced(ops) ==> Source.BalancedSource(DumpBf(ops))
  {
    hide StandsFor, TapeSafety.OneWays, Open, Balanced, Source.DepthOf;
    var before := DumpCovers(ops);
    cut := CommentCovered(DumpOps(ops), ops, before, '\n');
    TapeSafety.OneWaysComment(DumpOps(ops), ops, before, '\n', cut);
    RepresentsAccepted(DumpBf(ops), ops, cut);
    if Balanced(ops) {
      RepresentsBalanced(DumpBf(ops), ops, cut);
    }
  }

  lemma AppendPiece(src: string, ops: seq<Op>, cut: seq<nat>, text: string, op: Op) returns (cut': seq<nat>)
    requires Covers(src, ops, cut) && StandsFor(op, text)
    ensures Covers(src + text, ops + [op], cut') && cut' == cut + [|src + text|]
  {
    hide StandsFor;
    var src', ops' := src + text, ops + [op];
    cut' := cut + [|src'|];
    assert src'[..cut[0]] == src[..cut[0]];
    forall k | 0 <= k < |ops'| ensures Piece(src', ops', cut', k) {
      if k < |ops| {
        assert Piece(src, ops, cut, k);
        assert src'[cut[k]..cut[k + 1]] == src[cut[k]..cut[k + 1]];
      } else {
        assert src'[cut'[k]..cut'[k + 1]] == text;
      }
    }
  }

  // ----- text that stands for balanced operations is balanced -----

  lemma {:induction false} DepthSkips(src: string, i: nat, j: nat)
    requires i <= j <= |src| && SourceSimulation.NoBrackets(src[i..j])
    ensures Source.DepthOf(src[..j]) == Source.DepthOf(src[..i])
    decreases j - i
  {
    if i < j {
      assert src[j - 1] in src[i..j];
      assert forall c :: c in src[i..j - 1] ==> c in src[i..j];
      assert src[..j][..j - 1] == src[..j - 1];
      DepthSkips(src, i, j - 1);
    }
  }

  lemma DepthBracket(src: string, i: nat)
    requires i < |src|
    ensures Source.DepthOf(src[..i + 1]) == Source.DepthAfter(Source.DepthOf(src[..i]), src[i])
  {
    assert src[..i + 1][..i] == src[..i];
  }

  lemma {:induction false} DepthPasses(src: string, ops: seq<Op>, cut: seq<nat>, lo: nat, hi: nat)
    requires Covers(src, ops, cut) && Closed(ops, lo, hi) && Paired(ops, lo, hi)
    requires cut[lo] <= |src| && Source.DepthOf(src[..cut[lo]]).Open?
    ensures cut[hi] <= |src| && Source.DepthOf(src[..cut[hi]]) == Source.DepthOf(src[..cut[lo]])
    decreases hi - lo
  {
    hide Covers, Source.DepthOf;
    SourceSimulation.CutCount(src, ops, cut);
    if lo < hi {
      RestClosed(ops, lo, hi);
      SourceSimulation.PieceBrackets(src, ops, cut, lo);
      if ops[lo].kind == LoopStart {
        var j := lo + ops[lo].arg;
        BodyClosedIn(ops, lo, hi, lo);
        SourceSimulation.PieceBrackets(src, ops, cut, j);
        DepthBracket(src, cut[lo]);
        DepthSkips(src, cut[lo] + 1, cut[lo + 1]);
        DepthPasses(src, ops, cut, lo + 1, j);
        DepthBracket(src, cut[j]);
        DepthSkips(src, cut[j] + 1, cut[j + 1]);
        DepthPasses(src, ops, cut, j + 1, hi);
      } else {
        DepthSkips(src, cut[lo], cut[lo + 1]);
        DepthPasses(src, ops, cut, lo + 1, hi);
      }
    }
  }

  /** Pending starts only add to the depth. */
  lemma {:induction false} DepthStays(src: string, ops: seq<Op>, cut: seq<nat>, i: nat)
    requires SourceSimulation.Represents(src, ops, cut) && i <= |ops| && Outside(ops, i)
    requires cut[i] <= |src| && Source.DepthOf(src[..cut[i]]).Open?
    ensures Source.DepthOf(src).Open?
    decreases |ops| - i
  {
    hide Covers, Source.DepthOf, Open, Outside;
    if i == |ops| {
      SourceSimulation.ScanEnds(src, ops, cut, 0);
      assert src[..|src|] == src;
    } else {
      SourceSimulation.CutCount(src, ops, cut);
      OutsideNext(ops, i);
      SourceSimulation.PieceBrackets(src, ops, cut, i);
      if ops[i].kind == LoopStart && !IsPending(ops[i]) {
        DepthPasses(src, ops, cut, i, i + ops[i].arg + 1);
        DepthStays(src, ops, cut, i + ops[i].arg + 1);
      } else {
        if ops[i].kind == LoopStart {
          DepthBracket(src, cut[i]);
          DepthSkips(src, cut[i] + 1, cut[i + 1]);
        } else {
          DepthSkips(src, cut[i], cut[i + 1]);
        }
        DepthStays(src, ops, cut, i + 1);
      }
    }
  }

  lemma RepresentsAccepted(src: string, ops: seq<Op>, cut: seq<nat>)
    requires SourceSimulation.Represents(src, ops, cut)
    ensures Source.DepthOf(src) != Source.Unmatched
  {
    DepthSkips(src, 0, cut[0]);
    assert src[..0] == [];
    DepthStays(src, ops, cut, 0);
  }

  lemma RepresentsBalanced(src: string, ops: seq<Op>, cut: seq<nat>)
    requires Balanced(ops) && Covers(src, ops, cut)
    ensures Source.BalancedSource(src)
  {
    WholeClosed(ops);
    DepthSkips(src, 0, cut[0]);
    assert src[..0] == [];
    DepthPasses(src, ops, cut, 0, |ops|);
    assert src[..|src|] == src;
  }

  // ----- reparsing -----

  lemma ParsedIsPrintable(chunks: seq<string>)
    requires ParseChunks(EMPTY, chunks).ok
    ensures var ops := ParseChunks(EMPTY, chunks).ops; Open(ops) && Printable(ops)
    ensures Source.BalancedSource(Brackets.Seen(chunks)) ==> Balanced(ParseChunks(EMPTY, chunks).ops)
  {
    Brackets.ParserTracksBrackets(chunks);
    ParsedIsOpen(chunks);
    var src, ops := Brackets.Seen(chunks), ParseChunks(EMPTY, chunks).ops;
    var cut := ParserCovers(chunks);
    Chunks.ParsedCounts(chunks);
    forall k | 0 <= k < |ops| ensures ops[k].kind !in {Set, Halt} {
      assert Piece(src, ops, cut, k);
    }
  }

  lemma {:induction false} RunHasNoNul(c: char, n: int)
    requires c != NUL
    ensures NUL !in Times(c, n)
    decreases n
  {
    if n > 0 {
      RunHasNoNul(c, n - 1);
    }
  }

  lemma {:induction false} DumpHasNoNul(ops: seq<Op>)
    ensures NUL !in DumpOps(ops)
    decreases |ops|
  {
    if ops != [] {
      DumpHasNoNul(ops[..|ops| - 1]);
      forall c, n: int | c != NUL ensures NUL !in Times(c, n) {
        RunHasNoNul(c, n);
      }
    }
  }

  /** The printed form of a program is accepted as a whole; if the program is balanced, with nothing left pending. */
  lemma ReparseAccepted(ops: seq<Op>)
    requires Open(ops) && Printable(ops)
    ensures var again := ParseChunks(EMPTY, [DumpBf(ops)]);
            && again.ok && Open(again.ops) && Printable(again.ops)
            && (Balanced(ops) ==> again.patch == [] && Balanced(again.ops))
  {
    hide Brackets.BracketInv;
    var cut := DumpRepresents(ops);
    DumpSeen(ops);
    Brackets.ParserTracksBrackets([DumpBf(ops)]);
    ParsedIsPrintable([DumpBf(ops)]);
  }

  /** If the program runs on the tape, so do its printed form and the reparsed operations, and all behave alike. */
  lemma ReparseBehaves(ops: seq<Op>, s: State)
    requires Open(ops) && Printable(ops)
    requires s.OnTape() && FlatIr.StaysOnTape(WithHalt(ops), Running(0, s))
    ensures var again := ParseChunks(EMPTY, [DumpBf(ops)]);
            && SourceSimulation.StaysOnTape(DumpBf(ops), Running(0, s))
            && FlatIr.StaysOnTape(WithHalt(again.ops), Running(0, s))
            && SameBehaviour(Step(WithHalt(ops)), Running(0, s), Step(WithHalt(again.ops)), Running(0, s))
  {
    hide SourceSimulation.StaysOnTape, FlatIr.StaysOnTape, SourceSimulation.Represents, TapeSafety.OneWays;
    var src := DumpBf(ops);
    var again := ParseChunks(EMPTY, [src]);
    var cut := DumpRepresents(ops);
    TapeSafety.TextStaysOnTape(src, ops, cut, s);
    SourceSimulation.RepresentsSameRuns(src, ops, cut, s);
    DumpSeen(ops);
    EndToEnd.FrontEndCorrect([src], s);
    SameSourceSameBehaviour(WithHalt(ops), WithHalt(again.ops), src, s);
  }

  /** For every accepted text whose run stays on the tape: parsing, printing and parsing again keeps the behaviour. */
  lemma DumpRoundTrip(chunks: seq<string>, s: State)
    requires Source.DepthOf(Brackets.Seen(chunks)) != Source.Unmatched
    requires SourceSimulation.StaysOnTape(Brackets.Seen(chunks), Running(0, s))
    ensures var ops := ParseChunks(EMPTY, chunks).ops;
            var again := ParseChunks(EMPTY, [DumpBf(ops)]);
            && again.ok && (Source.BalancedSource(Brackets.Seen(chunks)) ==> again.patch == [])
            && SameBehaviour(Step(WithHalt(ops)), Running(0, s), Step(WithHalt(again.ops)), Running(0, s))
  {
    hide FlatIr.StaysOnTape;
    Brackets.ParserTracksBrackets(chunks);
    SourceSimulation.StaysOnTapeLater(Brackets.Seen(chunks), Running(0, s), 0);
    ParsedIsPrintable(chunks);
    EndToEnd.FrontEndCorrect(chunks, s);
    ReparseAccepted(ParseChunks(EMPTY, chunks).ops);
    ReparseBehaves(ParseChunks(EMPTY, chunks).ops, s);
  }

  lemma DumpSeen(ops: seq<Op>)
    ensures CString(DumpBf(ops)) == DumpBf(ops) && Brackets.Seen([DumpBf(ops)]) == DumpBf(ops)
  {
    DumpHasNoNul(ops);
    CStringIsPrefix(DumpBf(ops));
    var one := [DumpBf(ops)];
    assert one[1..] == [];
  }

  // ----- when reparsing gives the very same operations -----

  predicate Plain(kind: Kind) { kind in {Tape, Cell, Read, Write} }

  /** Operation `k` prints something, and not as a continuation of the operation before it. */
  predicate Apart(ops: seq<Op>, k: nat)
    requires k < |ops|
  {
    Plain(ops[k].kind) ==> ops[k].arg != 0 && (k > 0 ==> ops[k - 1].kind != ops[k].kind)
  }

  predicate Canonical(ops: seq<Op>) { forall k :: 0 <= k < |ops| ==> Apart(ops, k) }

  function CharOf(op: Op): char {
    match op.kind
    case Read => ','
    case Write => '.'
    case Cell => if op.arg < 0 then '-' else '+'
    case Tape => if op.arg < 0 then '<' else '>'
    case LoopStart => '['
    case LoopEnd => ']'
    case _ => '#'
  }

  function CountOf(op: Op): int {
    match op.kind
    case LoopStart | LoopEnd => 1
    case _ => if op.arg < 0 then -op.arg else op.arg
  }

  lemma DumpIsRun(op: Op)
    requires Printable([op])
    ensures DumpOp(op) == Times(CharOf(op), CountOf(op))
  {
    assert op == [op][0];
    assert Times('[', 1) == Times('[', 0) + ['['] && Times(']', 1) == Times(']', 0) + [']'];
  }

  lemma {:induction false} RunIsRun(c: char, n: nat)
    ensures IsRun(Times(c, n), c) && |Times(c, n)| == n
    decreases n
  {
    if n > 0 {
      RunIsRun(c, n - 1);
    }
  }

  /** The first `k` operations are parsed; starts whose end is still to come wait with distance 0. */
  ghost predicate Snapshot(ops: seq<Op>, p: Parsed, k: nat) {
    && p.ok && |p.ops| == k <= |ops| && Brackets.Descending(p.patch)
    && (forall i: nat :: i in p.patch <==> i < k && ops[i].kind == LoopStart && i + ops[i].arg >= k)
    && (forall i :: 0 <= i < k ==> p.ops[i] == if i in p.patch then Op(LoopStart, 0) else ops[i])
  }

  lemma SnapshotPlain(ops: seq<Op>, p: Parsed, prev: char, k: nat)
    requires Balanced(ops) && Printable(ops) && k < |ops| && Snapshot(ops, p, k) && Plain(ops[k].kind) && Apart(ops, k)
    requires prev != CharOf(ops[k])
    ensures PatchInside(p) && Snapshot(ops, ParseText(p, prev, DumpOp(ops[k])), k + 1)
  {
    hide ParseText, Times;
    var op := ops[k];
    assert ops[k] == [op][0] && Printable([op]);
    DumpIsRun(op);
    RunIsRun(CharOf(op), CountOf(op));
    RunIsCoalesced(p, prev, CharOf(op), DumpOp(op));
    var q := ParseRun(p, CharOf(op), CountOf(op));
    assert q.ops == p.ops + [op];
    forall i | i in p.patch ensures i + ops[i].arg != k {
      assert PairOk(ops, i);
    }
  }

  lemma SnapshotOpen(ops: seq<Op>, p: Parsed, prev: char, k: nat)
    requires Balanced(ops) && k < |ops| && Snapshot(ops, p, k) && ops[k].kind == LoopStart
    ensures PatchInside(p) && Snapshot(ops, ParseText(p, prev, "["), k + 1)
  {
    hide ParseText, ParseChar, Within, Balanced, Snapshot;
    SnapshotInside(ops, p, k);
    ParseOne(p, prev, '[');
    ParseOpens(p, prev);
    OpenDistances(ops, p, k);
    PushSnapshot(ops, p, k);
  }

  lemma SnapshotInside(ops: seq<Op>, p: Parsed, k: nat)
    requires Snapshot(ops, p, k)
    ensures PatchInside(p) && p.ok
  {
  }

  lemma PushSnapshot(ops: seq<Op>, p: Parsed, k: nat)
    requires k < |ops| && Snapshot(ops, p, k) && ops[k].kind == LoopStart && ops[k].arg > 0
    requires forall i :: i in p.patch ==> i + ops[i].arg != k
    ensures Snapshot(ops, Parsed(p.ops + [Op(LoopStart, 0)], [|p.ops|] + p.patch, true), k + 1)
  {
    hide Within, Balanced;
    assert forall n :: 0 <= n < |p.patch| ==> p.patch[n] in p.patch;
  }

  lemma ParseOpens(p: Parsed, prev: char)
    requires PatchInside(p) && p.ok
    ensures ParseChar(p, prev, '[') == Parsed(p.ops + [Op(LoopStart, 0)], [|p.ops|] + p.patch, true)
  {
  }

  /** The new start waits for its end, and it is no end that a pending one waits for. */
  lemma OpenDistances(ops: seq<Op>, p: Parsed, k: nat)
    requires Balanced(ops) && k < |ops| && Snapshot(ops, p, k) && ops[k].kind == LoopStart
    ensures ops[k].arg > 0 && forall i :: i in p.patch ==> i + ops[i].arg != k
  {
    assert PairOk(ops, k);
    forall i | i in p.patch ensures i + ops[i].arg != k {
      assert PairOk(ops, i);
    }
  }

  lemma SnapshotClose(ops: seq<Op>, p: Parsed, prev: char, k: nat)
    requires Balanced(ops) && k < |ops| && Snapshot(ops, p, k) && ops[k].kind == LoopEnd
    ensures PatchInside(p) && Snapshot(ops, ParseText(p, prev, "]"), k + 1)
  {
    hide ParseText;
    ParseOne(p, prev, ']');
    assert PairOk(ops, k);
    var b := k + ops[k].arg;
    assert PairOk(ops, b) && b in p.patch;
    var m := p.patch[0];
    assert m in p.patch && m >= b;
    assert m == b;
    var q := ParseChar(p, prev, ']');
    forall i ensures i in q.patch <==> i in p.patch && i != b {
      if i in p.patch && i != b {
        var n :| 0 <= n < |p.patch| && p.patch[n] == i;
        assert q.patch[n - 1] == i;
      }
    }
    forall i | i in q.patch ensures i + ops[i].arg != k {
      assert PairOk(ops, i);
    }
  }

  /** Last character of a text, or NUL. */
  function LastOf(s: string): char { Before(s, |s|) }

  lemma {:induction false} CanonicalSnapshot(ops: seq<Op>, k: nat)
    requires Balanced(ops) && Printable(ops) && Canonical(ops) && k <= |ops|
    ensures Snapshot(ops, ParseText(EMPTY, NUL, DumpOps(ops[..k])), k)
    ensures LastOf(DumpOps(ops[..k])) == if k == 0 then NUL else CharOf(ops[k - 1])
    decreases k
  {
    hide ParseText, Snapshot, Balanced, Times, Apart;
    if k == 0 {
      ParseNothing(EMPTY, NUL);
      EmptySnapshot(ops);
    } else {
      var done := DumpOps(ops[..k - 1]);
      var op, text := ops[k - 1], DumpOp(ops[k - 1]);
      CanonicalSnapshot(ops, k - 1);
      assert ops[..k][..k - 1] == ops[..k - 1];
      ParseTextConcat(EMPTY, NUL, done, text);
      DumpNonEmpty(ops, k - 1);
      SnapshotStep(ops, ParseText(EMPTY, NUL, done), LastOf(done), k - 1);
    }
  }

  lemma EmptySnapshot(ops: seq<Op>)
    ensures Snapshot(ops, EMPTY, 0)
  {
  }

  lemma DumpNonEmpty(ops: seq<Op>, k: nat)
    requires Printable(ops) && k < |ops| && Apart(ops, k)
    ensures DumpOp(ops[k]) != [] && DumpOp(ops[k])[|DumpOp(ops[k])| - 1] == CharOf(ops[k])
  {
    assert ops[k] == [ops[k]][0] && Printable([ops[k]]);
    DumpIsRun(ops[k]);
    RunIsRun(CharOf(ops[k]), CountOf(ops[k]));
  }

  lemma SnapshotStep(ops: seq<Op>, p: Parsed, prev: char, k: nat)
    requires Balanced(ops) && Printable(ops) && Canonical(ops) && k < |ops| && Snapshot(ops, p, k)
    requires prev == if k == 0 then NUL else CharOf(ops[k - 1])
    ensures PatchInside(p) && Snapshot(ops, ParseText(p, prev, DumpOp(ops[k])), k + 1)
  {
    hide ParseText, Snapshot, Balanced, Times;
    assert Apart(ops, k);
    if Plain(ops[k].kind) {
      SnapshotPlain(ops, p, prev, k);
    } else if ops[k].kind == LoopStart {
      SnapshotOpen(ops, p, prev, k);
    } else {
      SnapshotClose(ops, p, prev, k);
    }
  }

  // The other direction: an operation that prints nothing, or continues the one before it, is lost.

  function KindOf(c: char): Kind {
    match c
    case '+' | '-' => Cell
    case '>' | '<' => Tape
    case ',' => Read
    case '.' => Write
    case '[' => LoopStart
    case ']' => LoopEnd
    case _ => Halt
  }

  /** The next `c` will extend the last operation. */
  predicate Continues(p: Parsed, prev: char, c: char) {
    p.ops != [] && p.ops[|p.ops| - 1].kind == KindOf(c) && Plain(KindOf(c)) && (c in ",." ==> prev == c)
  }

  lemma CharAddsOne(p: Parsed, prev: char, c: char)
    requires PatchInside(p)
    ensures var q := ParseChar(p, prev, c);
            |q.ops| <= |p.ops| + 1 && (Continues(p, prev, c) ==> |q.ops| <= |p.ops|)
            && (p.ok && Plain(KindOf(c)) ==> q.ok && Continues(q, c, c))
  {
  }

  lemma {:induction false} RunAddsOne(p: Parsed, prev: char, c: char, n: nat)
    requires PatchInside(p) && (Plain(KindOf(c)) || n <= 1)
    ensures var q := ParseText(p, prev, Times(c, n));
            |q.ops| <= |p.ops| + (if n > 0 then 1 else 0) && (Continues(p, prev, c) ==> |q.ops| <= |p.ops|)
            && (p.ok && n > 0 && Plain(KindOf(c)) ==> q.ok && Continues(q, c, c))
    decreases n
  {
    hide ParseText, ParseChar, Continues;
    if n == 0 {
      ParseNothing(p, prev);
    } else if !p.ok {
      FailureStays(p, prev, Times(c, n));
    } else if n == 1 {
      assert Times(c, 1) == Times(c, 0) + [c] == [c];
      ParseOne(p, prev, c);
      CharAddsOne(p, prev, c);
    } else {
      RunAddsOne(p, prev, c, n - 1);
      RunIsRun(c, n - 1);
      ParseTextConcat(p, prev, Times(c, n - 1), [c]);
      var q := ParseText(p, prev, Times(c, n - 1));
      ParseOne(q, c, c);
      CharAddsOne(q, c, c);
    }
  }

  /** Parsing the first `k` printed operations makes at most `k` operations, fewer once one was not apart. */
  ghost predicate Counted(ops: seq<Op>, p: Parsed, prev: char, k: nat) {
    && PatchInside(p) && k <= |ops| && |p.ops| <= k
    && (k > 0 && |p.ops| == k ==> p.ok && prev == CharOf(ops[k - 1]) && p.ops[k - 1].kind == KindOf(prev))
    && (|p.ops| == k ==> forall i :: 0 <= i < k ==> Apart(ops, i))
  }

  lemma CountedStep(ops: seq<Op>, p: Parsed, prev: char, k: nat)
    requires Printable(ops) && k < |ops| && Counted(ops, p, prev, k)
    requires p.ok && ParseText(p, prev, DumpOp(ops[k])).ok
    ensures var text := DumpOp(ops[k]);
            Counted(ops, ParseText(p, prev, text), if text == [] then prev else text[|text| - 1], k + 1)
  {
    hide ParseText, Times;
    var op := ops[k];
    assert op == [op][0] && Printable([op]);
    DumpIsRun(op);
    RunIsRun(CharOf(op), CountOf(op));
    RunAddsOne(p, prev, CharOf(op), CountOf(op));
    if op.kind in {LoopStart, LoopEnd} {
      assert DumpOp(op) == [CharOf(op)];
      ParseOne(p, prev, CharOf(op));
    }
  }

  lemma {:induction false} ReparseCounted(ops: seq<Op>, k: nat)
    requires Printable(ops) && k <= |ops| && ParseText(EMPTY, NUL, DumpOps(ops)).ok
    ensures ParseText(EMPTY, NUL, DumpOps(ops[..k])).ok
    ensures var text := DumpOps(ops[..k]); Counted(ops, ParseText(EMPTY, NUL, text), LastOf(text), k)
    decreases k
  {
    hide ParseText, Counted, Times, Apart, DumpOp;
    PrefixOk(ops, k);
    if k == 0 {
      ParseNothing(EMPTY, NUL);
      assert Counted(ops, EMPTY, NUL, 0) by { EmptyCounted(ops); }
    } else {
      var done, text := DumpOps(ops[..k - 1]), DumpOp(ops[k - 1]);
      ReparseCounted(ops, k - 1);
      assert ops[..k][..k - 1] == ops[..k - 1];
      ParseTextConcat(EMPTY, NUL, done, text);
      CountedStep(ops, ParseText(EMPTY, NUL, done), LastOf(done), k - 1);
      if text != [] {
        assert (done + text)[|done + text| - 1] == text[|text| - 1];
      } else {
        assert done + text == done;
      }
    }
  }

  lemma EmptyCounted(ops: seq<Op>)
    ensures Counted(ops, EMPTY, NUL, 0)
  {
  }

  lemma {:induction false} DumpOpsSplit(ops: seq<Op>, k: nat)
    requires k <= |ops|
    ensures DumpOps(ops) == DumpOps(ops[..k]) + DumpOps(ops[k..])
    decreases |ops|
  {
    hide DumpOp;
    if k == |ops| {
      assert ops[..k] == ops && ops[k..] == [];
    } else {
      var front, last := ops[..|ops| - 1], ops[|ops| - 1];
      DumpOpsSplit(front, k);
      var rest := ops[k..];
      assert front[..k] == ops[..k] && rest[..|rest| - 1] == front[k..] && rest[|rest| - 1] == last;
    }
  }

  lemma PrefixOk(ops: seq<Op>, k: nat)
    requires k <= |ops| && ParseText(EMPTY, NUL, DumpOps(ops)).ok
    ensures ParseText(EMPTY, NUL, DumpOps(ops[..k])).ok
  {
    hide ParseText;
    DumpOpsSplit(ops, k);
    var done := DumpOps(ops[..k]);
    ParseTextConcat(EMPTY, NUL, done, DumpOps(ops[k..]));
    var p := ParseText(EMPTY, NUL, done);
    if !p.ok {
      FailureStays(p, LastOf(done), DumpOps(ops[k..]));
    }
  }

  /** The final newline adds nothing. */
  lemma ReparseIsText(ops: seq<Op>)
    ensures ParseChunks(EMPTY, [DumpBf(ops)]) == ParseText(EMPTY, NUL, DumpOps(ops))
  {
    hide ParseText;
    var text := DumpOps(ops);
    DumpSeen(ops);
    ParseTextConcat(EMPTY, NUL, text, ['\n']);
    var p := ParseText(EMPTY, NUL, text);
    ParseOne(p, LastOf(text), '\n');
    assert ParseChar(p, LastOf(text), '\n') == p;
    var one := [DumpBf(ops)];
    assert one[1..] == [];
    assert ParseChunks(EMPTY, one) == ParseChunks(ParseChunk(EMPTY, one[0]), []);
  }

  /** Reparsing the printed form gives back the operations exactly when none has a zero argument
      and no two neighbours are of the same kind, brackets apart. */
  lemma ReparseIdentical(ops: seq<Op>)
    requires Balanced(ops) && Printable(ops)
    ensures ParseChunks(EMPTY, [DumpBf(ops)]).ops == ops <==> Canonical(ops)
  {
    hide ParseText, Apart, Balanced;
    ReparseIsText(ops);
    assert ops[..|ops|] == ops;
    if Canonical(ops) {
      CanonicalSnapshot(ops, |ops|);
      CompleteSnapshot(ops, ParseText(EMPTY, NUL, DumpOps(ops)));
    } else {
      ReparseOk(ops);
      ReparseCounted(ops, |ops|);
    }
  }

  lemma CompleteSnapshot(ops: seq<Op>, p: Parsed)
    requires Balanced(ops) && Snapshot(ops, p, |ops|)
    ensures p.ops == ops
  {
    forall i | 0 <= i < |ops| ensures p.ops[i] == ops[i] {
      assert PairOk(ops, i);
    }
  }

  lemma ReparseOk(ops: seq<Op>)
    requires Balanced(ops) && Printable(ops)
    ensures ParseText(EMPTY, NUL, DumpOps(ops)).ok
  {
    BalancedIsOpen(ops);
    ReparseAccepted(ops);
    ReparseIsText(ops);
  }
}
