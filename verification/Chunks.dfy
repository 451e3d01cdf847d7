/** The read loop of csrc/src/main.c: the program reaches the parser in blocks. How it is cut only
    matters for how runs of reads and writes are grouped. */
module Chunks {
  import opened FlatIr
  import opened FrontEnd
  import Brackets

  const BUFLEN := 1024

  function Concat(chunks: seq<string>): string {
    if chunks == [] then [] else chunks[0] + Concat(chunks[1..])
  }

  lemma {:induction false} CStringSize(s: string)
    ensures |CString(s)| <= |s|
    ensures |CString(s)| == |s| <==> NUL !in s
    ensures NUL !in s ==> CString(s) == s
  {
    if s != [] && s[0] != NUL {
      CStringSize(s[1..]);
    }
  }

  lemma {:induction false} SeenSize(chunks: seq<string>)
    ensures |Brackets.Seen(chunks)| <= |Concat(chunks)|
    ensures NUL !in Concat(chunks) <==> |Brackets.Seen(chunks)| == |Concat(chunks)|
    ensures NUL !in Concat(chunks) ==> Brackets.Seen(chunks) == Concat(chunks)
  {
    if chunks != [] {
      CStringSize(chunks[0]);
      SeenSize(chunks[1..]);
    }
  }

  /** The parser sees the whole text exactly when no chunk holds a NUL. */
  lemma SeenIsEverything(chunks: seq<string>)
    ensures Brackets.Seen(chunks) == Concat(chunks) <==> NUL !in Concat(chunks)
  {
    SeenSize(chunks);
  }

  // ----- what does not depend on the chunks -----

  /** Reads and writes one by one, brackets without distances. */
  function Spread(ops: seq<Op>): seq<Op> {
    if ops == [] then [] else Spread(ops[..|ops| - 1]) + SpreadOp(ops[|ops| - 1])
  }

  function Repeat(op: Op, n: int): seq<Op> { if n <= 0 then [] else Repeat(op, n - 1) + [op] }

  function SpreadOp(op: Op): seq<Op> {
    match op.kind
    case Read | Write => Repeat(Op(op.kind, 1), op.arg)
    case LoopStart | LoopEnd => [Op(op.kind, 0)]
    case _ => [op]
  }

  datatype Erased = Erased(ops: seq<Op>, depth: nat, ok: bool)

  function Erase(p: Parsed): Erased { Erased(Spread(p.ops), |p.patch|, p.ok) }

  /** What a character does to the erased form, whatever stood before it. */
  function EraseChar(e: Erased, c: char): Erased {
    if !e.ok then e
    else match c
      case '+' => e.(ops := Merge(e.ops, Cell, 1))
      case '-' => e.(ops := Merge(e.ops, Cell, -1))
      case '>' => e.(ops := Merge(e.ops, Tape, 1))
      case '<' => e.(ops := Merge(e.ops, Tape, -1))
      case ',' => e.(ops := e.ops + [Op(Read, 1)])
      case '.' => e.(ops := e.ops + [Op(Write, 1)])
      case '[' => Erased(e.ops + [Op(LoopStart, 0)], e.depth + 1, true)
      case ']' => if e.depth == 0 then e.(ok := false) else Erased(e.ops + [Op(LoopEnd, 0)], e.depth - 1, true)
      case _ => e
  }

  function EraseText(e: Erased, s: string): Erased
    decreases |s|
  {
    if s == [] then e else EraseText(EraseChar(e, s[0]), s[1..])
  }

  predicate Counts(ops: seq<Op>) {
    forall k :: 0 <= k < |ops| && ops[k].kind in {Read, Write} ==> ops[k].arg >= 1
  }

  lemma SpreadPush(ops: seq<Op>, op: Op)
    ensures Spread(ops + [op]) == Spread(ops) + SpreadOp(op)
  {
    assert (ops + [op])[..|ops|] == ops;
  }

  lemma SpreadSplit(ops: seq<Op>)
    requires ops != []
    ensures Spread(ops) == Spread(ops[..|ops| - 1]) + SpreadOp(ops[|ops| - 1])
  {
  }

  /** The last erased operation has the kind of the last operation. */
  lemma SpreadLast(ops: seq<Op>)
    requires Counts(ops)
    ensures ops == [] <==> Spread(ops) == []
    ensures ops != [] ==> Spread(ops)[|Spread(ops)| - 1].kind == ops[|ops| - 1].kind
  {
    if ops != [] {
      SpreadSplit(ops);
      SpreadOpLast(ops[|ops| - 1]);
    }
  }

  lemma SpreadOpLast(op: Op)
    requires op.kind in {Read, Write} ==> op.arg >= 1
    ensures SpreadOp(op) != [] && SpreadOp(op)[|SpreadOp(op)| - 1].kind == op.kind
  {
  }

  /** Changing the last operation changes the last piece of the erased form. */
  lemma SpreadUpdateLast(ops: seq<Op>, op: Op)
    requires ops != []
    ensures Spread(ops[|ops| - 1 := op]) == Spread(ops[..|ops| - 1]) + SpreadOp(op)
  {
    var front := ops[..|ops| - 1];
    assert ops[|ops| - 1 := op] == front + [op];
    SpreadPush(front, op);
  }

  lemma SpreadMerge(ops: seq<Op>, kind: Kind, n: int)
    requires Counts(ops) && kind in {Tape, Cell}
    ensures Spread(Merge(ops, kind, n)) == Merge(Spread(ops), kind, n)
  {
    hide Spread, SpreadOp, Counts, Merge;
    SpreadLast(ops);
    SpreadOpPlain(Op(kind, n));
    if ops != [] && ops[|ops| - 1].kind == kind {
      var front, last := ops[..|ops| - 1], ops[|ops| - 1];
      SpreadOpPlain(last);
      SpreadOpPlain(Op(kind, last.arg + n));
      SpreadSplit(ops);
      SpreadPush(front, Op(kind, last.arg + n));
      assert ops == front + [last];
      MergeLast(front, last, n);
      MergeLast(Spread(front), last, n);
    } else {
      SpreadPush(ops, Op(kind, n));
      MergePush(ops, kind, n);
      MergePush(Spread(ops), kind, n);
    }
  }

  lemma SpreadOpPlain(op: Op)
    requires op.kind in {Tape, Cell}
    ensures SpreadOp(op) == [op]
  {
  }

  lemma MergeLast(front: seq<Op>, last: Op, n: int)
    ensures Merge(front + [last], last.kind, n) == front + [Op(last.kind, last.arg + n)]
  {
  }

  lemma MergePush(ops: seq<Op>, kind: Kind, n: int)
    requires ops == [] || ops[|ops| - 1].kind != kind
    ensures Merge(ops, kind, n) == ops + [Op(kind, n)]
  {
  }

  lemma SpreadGrow(ops: seq<Op>, kind: Kind)
    requires kind in {Read, Write} && ops != [] && ops[|ops| - 1].kind == kind && ops[|ops| - 1].arg >= 1
    ensures Spread(ops[|ops| - 1 := Op(kind, ops[|ops| - 1].arg + 1)]) == Spread(ops) + [Op(kind, 1)]
  {
    hide Spread;
    var one, n := Op(kind, 1), ops[|ops| - 1].arg;
    SpreadSplit(ops);
    SpreadUpdateLast(ops, Op(kind, n + 1));
    assert Repeat(one, n + 1) == Repeat(one, n) + [one];
  }

  lemma SpreadContinue(ops: seq<Op>, kind: Kind, sameRun: bool)
    requires Counts(ops) && kind in {Read, Write}
    ensures Spread(Continue(ops, kind, sameRun)) == Spread(ops) + [Op(kind, 1)]
    ensures Counts(Continue(ops, kind, sameRun))
  {
    hide Spread;
    var one := Op(kind, 1);
    SpreadPush(ops, one);
    assert Repeat(one, 1) == Repeat(one, 0) + [one];
    if sameRun && ops != [] && ops[|ops| - 1].kind == kind {
      SpreadGrow(ops, kind);
    }
  }

  lemma {:induction false} SpreadPatch(ops: seq<Op>, k: nat, d: int)
    requires k < |ops| && ops[k].kind == LoopStart
    ensures Spread(ops[k := Op(LoopStart, d)]) == Spread(ops)
    decreases |ops|
  {
    if k == |ops| - 1 {
      SpreadUpdateLast(ops, Op(LoopStart, d));
    } else {
      var front, last := ops[..|ops| - 1], ops[|ops| - 1];
      SpreadPatch(front, k, d);
      assert ops[k := Op(LoopStart, d)] == front[k := Op(LoopStart, d)] + [last];
      SpreadPush(front[k := Op(LoopStart, d)], last);
    }
  }

  lemma EraseCharAgrees(p: Parsed, prev: char, c: char)
    requires Brackets.BracketInv(p) && Counts(p.ops)
    ensures Erase(ParseChar(p, prev, c)) == EraseChar(Erase(p), c)
    ensures Counts(ParseChar(p, prev, c).ops)
  {
    hide Spread, Brackets.BracketInv;
    if p.ok {
      SpreadPush(p.ops, Op(LoopStart, 0));
      match c
      case '+' => SpreadMerge(p.ops, Cell, 1);
      case '-' => SpreadMerge(p.ops, Cell, -1);
      case '>' => SpreadMerge(p.ops, Tape, 1);
      case '<' => SpreadMerge(p.ops, Tape, -1);
      case ',' => SpreadContinue(p.ops, Read, prev == c);
      case '.' => SpreadContinue(p.ops, Write, prev == c);
      case ']' => EraseCloseAgrees(p);
      case _ =>
    }
  }

  lemma EraseCloseAgrees(p: Parsed)
    requires Brackets.BracketInv(p) && Counts(p.ops) && p.ok
    ensures Erase(CloseLoop(p)) == EraseChar(Erase(p), ']') && Counts(CloseLoop(p).ops)
  {
    hide Spread, Brackets.BracketInv;
    if p.patch != [] {
      Brackets.InnermostIsStart(p);
      var k := p.patch[0];
      var d := |p.ops| - k;
      SpreadPatch(p.ops, k, d);
      SpreadPush(p.ops[k := Op(LoopStart, d)], Op(LoopEnd, -d));
    }
  }

  lemma {:induction false} EraseTextAgrees(text: string, p: Parsed, prev: char, s: string)
    requires PatchInside(p) && Brackets.Tracks(text, p) && Counts(p.ops)
    ensures Erase(ParseText(p, prev, s)) == EraseText(Erase(p), s) && Counts(ParseText(p, prev, s).ops)
    decreases |s|
  {
    hide Spread, Brackets.BracketInv, ParseChar, Counts, EraseChar;
    if s != [] {
      EraseCharAgrees(p, prev, s[0]);
      Brackets.CharTracks(text, p, prev, s[0]);
      EraseTextAgrees(text + [s[0]], ParseChar(p, prev, s[0]), s[0], s[1..]);
    }
  }

  lemma {:induction false} EraseTextConcat(e: Erased, a: string, b: string)
    ensures EraseText(e, a + b) == EraseText(EraseText(e, a), b)
    decreases |a|
  {
    if a == [] {
      assert a + b == b;
    } else {
      assert (a + b)[0] == a[0] && (a + b)[1..] == a[1..] + b;
      EraseTextConcat(EraseChar(e, a[0]), a[1..], b);
    }
  }

  lemma {:induction false} EraseChunksAgrees(text: string, p: Parsed, chunks: seq<string>)
    requires PatchInside(p) && Brackets.Tracks(text, p) && Counts(p.ops)
    ensures Erase(ParseChunks(p, chunks)) == EraseText(Erase(p), Brackets.Seen(chunks))
    ensures Counts(ParseChunks(p, chunks).ops)
    decreases |chunks|
  {
    hide Spread, Brackets.Tracks, ParseText, Counts, EraseChar, CString;
    if chunks != [] {
      var t := CString(chunks[0]);
      EraseTextAgrees(text, p, NUL, t);
      Brackets.TextTracks(text, p, NUL, t);
      EraseTextConcat(Erase(p), t, Brackets.Seen(chunks[1..]));
      EraseChunksAgrees(text + t, ParseChunk(p, chunks[0]), chunks[1..]);
    }
  }

  /** Chunk invariance: any two ways to cut the same text give the same verdict, the same pending `[`,
      and the same operations up to how runs of reads and writes are grouped. */
  lemma ChunkInvariance(a: seq<string>, b: seq<string>)
    requires Brackets.Seen(a) == Brackets.Seen(b)
    ensures var p, q := ParseChunks(EMPTY, a), ParseChunks(EMPTY, b);
            && p.ok == q.ok && |p.patch| == |q.patch| && Spread(p.ops) == Spread(q.ops)
            && Brackets.BracketInv(p) && Brackets.BracketInv(q)
            && (p.ok ==> Brackets.Pending(p) == Brackets.Pending(q) == Brackets.Unclosed(Brackets.Seen(a)))
  {
    hide Brackets.BracketInv, Spread;
    Brackets.ParserTracksBrackets(a);
    Brackets.ParserTracksBrackets(b);
    Brackets.TracksNothing();
    EraseChunksAgrees([], EMPTY, a);
    EraseChunksAgrees([], EMPTY, b);
  }

  lemma ParsedCounts(chunks: seq<string>)
    ensures Counts(ParseChunks(EMPTY, chunks).ops)
  {
    Brackets.TracksNothing();
    EraseChunksAgrees([], EMPTY, chunks);
  }

  // ----- when a cut changes the operations -----

  predicate Groups(c: char) { c == ',' || c == '.' }

  lemma JoinedChunk(p: Parsed, a: string, b: string)
    requires PatchInside(p) && NUL !in a && NUL !in b
    ensures CString(a) == a && CString(b) == b
    ensures ParseChunk(p, a + b) == ParseText(ParseChunk(p, a), if a == [] then NUL else a[|a| - 1], b)
  {
    CStringSize(a);
    CStringSize(b);
    CStringSize(a + b);
    ParseTextConcat(p, NUL, a, b);
  }

  /** `p` holds one operation more than `q`; whatever comes next will not make up for it. */
  predicate OneMore(p: Parsed, q: Parsed) {
    && |p.ops| == |q.ops| + 1 && q.ops != [] && p.ops[|p.ops| - 1].kind == q.ops[|q.ops| - 1].kind
    && p.ok == q.ok && |p.patch| == |q.patch|
  }

  lemma OneMoreStays(p: Parsed, q: Parsed, prev: char, c: char)
    requires PatchInside(p) && PatchInside(q) && OneMore(p, q)
    ensures OneMore(ParseChar(p, prev, c), ParseChar(q, prev, c))
  {
    if c == ']' && p.ok {
      OneMoreClosed(p, q);
    }
  }

  lemma OneMoreClosed(p: Parsed, q: Parsed)
    requires PatchInside(p) && PatchInside(q) && OneMore(p, q) && p.ok
    ensures OneMore(CloseLoop(p), CloseLoop(q))
  {
  }

  lemma {:induction false} OneMoreStaysText(p: Parsed, q: Parsed, prev: char, s: string)
    requires PatchInside(p) && PatchInside(q) && OneMore(p, q)
    ensures OneMore(ParseText(p, prev, s), ParseText(q, prev, s))
    decreases |s|
  {
    hide OneMore, ParseChar;
    if s != [] {
      OneMoreStays(p, q, prev, s[0]);
      OneMoreStaysText(ParseChar(p, prev, s[0]), ParseChar(q, prev, s[0]), s[0], s[1..]);
    }
  }

  /** The last character of a text that was accepted has left its operation behind. */
  lemma EndsInRun(p: Parsed, a: string)
    requires PatchInside(p) && a != [] && Groups(a[|a| - 1]) && ParseText(p, NUL, a).ok
    ensures var q := ParseText(p, NUL, a);
            q.ops != [] && q.ops[|q.ops| - 1].kind == if a[|a| - 1] == ',' then Read else Write
  {
    hide ParseText, ParseChar;
    var front, c := a[..|a| - 1], a[|a| - 1];
    var prev := if front == [] then NUL else front[|front| - 1];
    assert a == front + [c];
    ParseTextConcat(p, NUL, front, [c]);
    ParseOne(ParseText(p, NUL, front), prev, c);
    LeavesItsKind(ParseText(p, NUL, front), prev, c);
  }

  lemma LeavesItsKind(p: Parsed, prev: char, c: char)
    requires PatchInside(p) && Groups(c) && ParseChar(p, prev, c).ok
    ensures var q := ParseChar(p, prev, c);
            q.ops != [] && q.ops[|q.ops| - 1].kind == if c == ',' then Read else Write
  {
  }

  /** A cut inside a run of reads or writes leaves one operation too many. */
  lemma DirtyCut(p: Parsed, a: string, b: string)
    requires PatchInside(p) && NUL !in a && NUL !in b
    requires a != [] && b != [] && a[|a| - 1] == b[0] && Groups(b[0]) && ParseChunk(p, a).ok
    ensures OneMore(ParseChunk(ParseChunk(p, a), b), ParseChunk(p, a + b))
  {
    JoinedChunk(p, a, b);
    EndsInRun(p, a);
    var q := ParseChunk(p, a);
    OneMoreStaysText(ParseChar(q, NUL, b[0]), ParseChar(q, b[0], b[0]), b[0], b[1..]);
  }

  /** Parsing in two calls gives what one call gives exactly when the cut does not split a run of reads
      or writes, or an unmatched `]` came before it. */
  lemma CutChangesNothing(p: Parsed, a: string, b: string)
    requires PatchInside(p) && NUL !in a && NUL !in b
    ensures ParseChunk(ParseChunk(p, a), b) == ParseChunk(p, a + b)
            <==> a == [] || b == [] || a[|a| - 1] != b[0] || !Groups(b[0]) || !ParseChunk(p, a).ok
  {
    JoinedChunk(p, a, b);
    var q := ParseChunk(p, a);
    if !q.ok {
      FailureStays(q, NUL, b);
      FailureStays(q, if a == [] then NUL else a[|a| - 1], b);
    } else if a != [] && b != [] && a[|a| - 1] == b[0] && Groups(b[0]) {
      DirtyCut(p, a, b);
    } else if a != [] && b != [] {
      assert ParseChar(q, NUL, b[0]) == ParseChar(q, a[|a| - 1], b[0]);
    }
  }

  /** Reads are joined only side by side, additions and moves also over a comment and when they cancel out. */
  lemma InterruptedRuns()
    ensures ParseText(EMPTY, NUL, ", ,").ops == [Op(Read, 1), Op(Read, 1)]
    ensures ParseText(EMPTY, NUL, "+ -").ops == [Op(Cell, 0)]
    ensures ParseText(EMPTY, NUL, "> >").ops == [Op(Tape, 2)]
  {
    ParseThree(',', ' ', ',');
    ParseThree('+', ' ', '-');
    ParseThree('>', ' ', '>');
  }

  lemma ParseThree(x: char, y: char, z: char)
    ensures ParseText(EMPTY, NUL, [x, y, z]) == ParseChar(ParseChar(ParseChar(EMPTY, NUL, x), x, y), y, z)
  {
    hide ParseChar;
    assert [x, y, z][1..] == [y, z] && [y, z][1..] == [z] && [z][1..] == [];
    var p := ParseChar(EMPTY, NUL, x);
    assert ParseText(EMPTY, NUL, [x, y, z]) == ParseText(p, x, [y, z]);
    assert ParseText(p, x, [y, z]) == ParseText(ParseChar(p, x, y), y, [z]);
    assert ParseText(ParseChar(p, x, y), y, [z]) == ParseText(ParseChar(ParseChar(p, x, y), y, z), z, []);
  }

  /** A cut inside `,,` leaves two operations. */
  lemma SplitRun()
    ensures ParseChunks(EMPTY, [",,"]).ops == [Op(Read, 2)]
    ensures ParseChunks(EMPTY, [",", ","]).ops == [Op(Read, 1), Op(Read, 1)]
  {
    var one, two := [","], [",", ","];
    assert "," + "," == ",," && two[1..] == one && one[1..] == [] && [",,"][1..] == [];
    assert CString(",") == ",";
    ParseOne(EMPTY, NUL, ',');
    JoinedChunk(EMPTY, ",", ",");
    var q := ParseChunk(EMPTY, ",");
    ParseOne(q, NUL, ',');
    ParseOne(q, ',', ',');
    assert ParseChunks(EMPTY, two) == ParseChunk(q, ",") by {
      assert ParseChunks(EMPTY, two) == ParseChunks(q, one);
      assert ParseChunks(q, one) == ParseChunks(ParseChunk(q, ","), []);
    }
    assert ParseChunks(EMPTY, [",,"]) == ParseChunks(ParseChunk(EMPTY, ",,"), []);
  }

  // ----- the read loop -----

  /** The blocks fread delivers, the empty one at the end of the file included. */
  function Blocks(file: string): seq<string> {
    if file == [] then [[]]
    else if |file| <= BUFLEN then [file, []]
    else [file[..BUFLEN]] + Blocks(file[BUFLEN..])
  }

  /** Block k has the 1024 characters from 1024 * k on, or those that are left; the last block is the empty one
      that ends the loop. */
  lemma {:induction false} BlockIs(file: string, k: nat)
    requires k < |Blocks(file)|
    ensures k == |Blocks(file)| - 1 ==> Blocks(file)[k] == []
    ensures k < |Blocks(file)| - 1 ==>
              1024 * k < |file| && Blocks(file)[k] == file[1024 * k..if 1024 * k + 1024 < |file| then 1024 * k + 1024 else |file|]
    decreases |file|
  {
    if |file| > 1024 && k > 0 {
      var rest := file[1024..];
      BlockIs(rest, k - 1);
      assert Blocks(file)[k] == Blocks(rest)[k - 1];
      if k < |Blocks(file)| - 1 {
        var end := if 1024 * k < |rest| then 1024 * k else |rest|;
        assert rest[1024 * (k - 1)..end] == file[1024 * k..end + 1024];
      }
    }
  }

  lemma {:induction false} BlocksJoin(file: string)
    ensures Concat(Blocks(file)) == file
    decreases |file|
  {
    var last: seq<string> := [[]];
    assert last[1..] == [] && Concat(last) == [];
    if |file| > BUFLEN {
      BlocksJoin(file[BUFLEN..]);
      assert Blocks(file)[1..] == Blocks(file[BUFLEN..]);
    } else if file != [] {
      assert [file, []][1..] == last;
    }
  }

  /** Feeds a file to a fresh context until it ends or the parser rejects a block. */
  method ReadProgram(ctx: IrCtx, file: string) returns (ok: bool)
    requires ctx.Valid() && ctx.data == [] && ctx.patch == []
    modifies ctx
    ensures ctx.Valid() && ctx.State(ok) == ParseChunks(EMPTY, Blocks(file))
  {
    var at, readBytes := 0, 1;
    ghost var rest := Blocks(file);
    assert file[0..] == file;
    while readBytes > 0
      invariant 0 <= at <= |file| && ctx.Valid() && readBytes >= 0
      invariant readBytes > 0 ==> rest == Blocks(file[at..])
      invariant readBytes == 0 ==> rest == []
      invariant ParseChunks(ctx.State(true), rest) == ParseChunks(EMPTY, Blocks(file))
      decreases |file| - at, readBytes
    {
      readBytes := if |file| - at < BUFLEN then |file| - at else BUFLEN;
      var block := file[at..at + readBytes];
      NextBlock(file, at, readBytes);
      ok := ctx.Parse(block);
      if !ok {
        FailureStaysChunks(ctx.State(false), rest[1..]);
        return;
      }
      at := at + readBytes;
      rest := rest[1..];
    }
    ok := true;
  }

  lemma NextBlock(file: string, at: nat, n: nat)
    requires at <= |file| && n == if |file| - at < BUFLEN then |file| - at else BUFLEN
    ensures var b := Blocks(file[at..]);
            b != [] && b[0] == file[at..at + n] && b[1..] == if n == 0 then [] else Blocks(file[at + n..])
  {
    assert file[at..][n..] == file[at + n..];
    if n == |file| - at {
      assert file[at + n..] == [];
    }
    if n == BUFLEN && |file| - at == BUFLEN {
      assert file[at..at + n] == file[at..];
    }
  }
}
