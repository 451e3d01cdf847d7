/** Each operation of the flat IR stands for a contiguous piece of the source text. */
module Coverage {
  import opened FlatIr
  import opened FrontEnd
  import Source
  import Brackets

  /** What one character contributes to the argument of an operation of this kind. */
  function Weight(kind: Kind, c: char): int {
    match kind
    case Cell => if c == '+' then 1 else if c == '-' then -1 else 0
    case Tape => if c == '>' then 1 else if c == '<' then -1 else 0
    case Read => if c == ',' then 1 else 0
    case Write => if c == '.' then 1 else 0
    case _ => 0
  }

  function Net(kind: Kind, s: string): (n: int)
    ensures kind == Read || kind == Write ==> n >= 0
  {
    if s == [] then 0 else Net(kind, s[..|s| - 1]) + Weight(kind, s[|s| - 1])
  }

  predicate OnlyComments(s: string) { forall c :: c in s ==> Source.IsComment(c) }

  /** `text` is a piece of source that an operation of this kind and argument may stand for. */
  predicate StandsFor(op: Op, text: string) {
    match op.kind
    case Cell | Tape | Read | Write =>
      op.arg == Net(op.kind, text) && forall c :: c in text ==> Source.IsComment(c) || Weight(op.kind, c) != 0
    case LoopStart => text != [] && text[0] == '[' && OnlyComments(text[1..])
    case LoopEnd => text != [] && text[0] == ']' && OnlyComments(text[1..])
    case _ => false
  }

  ghost predicate Piece(src: string, ops: seq<Op>, cut: seq<nat>, k: nat)
    requires k < |ops| && |cut| == |ops| + 1
  {
    cut[k] <= cut[k + 1] <= |src| && StandsFor(ops[k], src[cut[k]..cut[k + 1]])
  }

  /** Comments, then the pieces of the operations in order, up to the end of the text. */
  ghost predicate Covers(src: string, ops: seq<Op>, cut: seq<nat>) {
    && |cut| == |ops| + 1
    && cut[0] <= |src| && OnlyComments(src[..cut[0]])
    && cut[|ops|] == |src|
    && forall k :: 0 <= k < |ops| ==> Piece(src, ops, cut, k)
  }

  // ----- the parser covers its input -----

  lemma NetGrows(kind: Kind, s: string, c: char)
    ensures Net(kind, s + [c]) == Net(kind, s) + Weight(kind, c)
  {
    assert (s + [c])[..|s|] == s;
  }

  lemma {:induction false} NetBound(kind: Kind, s: string)
    ensures -|s| <= Net(kind, s) <= |s|
  {
    if s != [] {
      NetBound(kind, s[..|s| - 1]);
    }
  }

  function Tail(src: string, at: int): string { if 0 <= at <= |src| then src[at..] else [] }

  /** The last piece takes one more character. */
  lemma LastPieceGrows(src: string, ops: seq<Op>, cut: seq<nat>, c: char, op: Op) returns (cut': seq<nat>)
    requires Covers(src, ops, cut) && ops != []
    requires StandsFor(op, Tail(src, cut[|ops| - 1]) + [c])
    ensures Covers(src + [c], ops[|ops| - 1 := op], cut') && cut' == cut[|ops| := |src| + 1]
  {
    hide StandsFor;
    var last := |ops| - 1;
    var src', ops' := src + [c], ops[last := op];
    cut' := cut[|ops| := |src| + 1];
    assert Piece(src, ops, cut, last);
    assert src'[cut[last]..] == src[cut[last]..] + [c];
    assert src'[..cut[0]] == src[..cut[0]];
    forall k | 0 <= k < |ops| ensures Piece(src', ops', cut', k) {
      assert Piece(src, ops, cut, k);
      if k < last {
        assert src'[cut[k]..cut[k + 1]] == src[cut[k]..cut[k + 1]];
      } else {
        assert src'[cut'[last]..cut'[last + 1]] == src'[cut[last]..];
      }
    }
  }

  /** A new operation takes the character. */
  lemma NewPiece(src: string, ops: seq<Op>, cut: seq<nat>, c: char, op: Op) returns (cut': seq<nat>)
    requires Covers(src, ops, cut) && StandsFor(op, [c])
    ensures Covers(src + [c], ops + [op], cut')
  {
    var src', ops' := src + [c], ops + [op];
    cut' := cut + [|src| + 1];
    assert src'[..cut[0]] == src[..cut[0]];
    forall k | 0 <= k < |ops'| ensures Piece(src', ops', cut', k) {
      if k < |ops| {
        assert Piece(src, ops, cut, k);
        assert src'[cut[k]..cut[k + 1]] == src[cut[k]..cut[k + 1]];
      } else {
        assert src'[cut'[k]..cut'[k + 1]] == [c];
      }
    }
  }

  lemma StandsForMore(op: Op, text: string, c: char)
    requires StandsFor(op, text) && Source.IsComment(c)
    ensures StandsFor(op, text + [c])
  {
    NetGrows(op.kind, text, c);
    if op.kind == LoopStart || op.kind == LoopEnd {
      assert (text + [c])[1..] == text[1..] + [c];
    }
  }

  lemma CommentCovered(src: string, ops: seq<Op>, cut: seq<nat>, c: char) returns (cut': seq<nat>)
    requires Covers(src, ops, cut) && Source.IsComment(c)
    ensures Covers(src + [c], ops, cut') && cut' == cut[|ops| := |src| + 1]
  {
    hide StandsFor;
    if ops == [] {
      cut' := [|src| + 1];
      assert src[..|src|] == src && (src + [c])[..|src| + 1] == src + [c];
    } else {
      var op, text := ops[|ops| - 1], Tail(src, cut[|ops| - 1]);
      assert Piece(src, ops, cut, |ops| - 1) && text == src[cut[|ops| - 1]..cut[|ops|]];
      StandsForMore(op, text, c);
      cut' := LastPieceGrows(src, ops, cut, c, op);
      assert ops[|ops| - 1 := op] == ops;
    }
  }

  lemma StandsForMove(op: Op, text: string, c: char)
    requires StandsFor(op, text) && Weight(op.kind, c) != 0
    ensures StandsFor(Op(op.kind, op.arg + Weight(op.kind, c)), text + [c])
  {
    hide Net;
    NetGrows(op.kind, text, c);
  }

  lemma MergeCovered(src: string, ops: seq<Op>, cut: seq<nat>, kind: Kind, c: char) returns (cut': seq<nat>)
    requires Covers(src, ops, cut) && Weight(kind, c) != 0
    ensures Covers(src + [c], Merge(ops, kind, Weight(kind, c)), cut')
  {
    hide StandsFor, Net, Weight;
    if ops != [] && ops[|ops| - 1].kind == kind {
      var text := Tail(src, cut[|ops| - 1]);
      assert Piece(src, ops, cut, |ops| - 1) && text == src[cut[|ops| - 1]..cut[|ops|]];
      StandsForMove(ops[|ops| - 1], text, c);
      cut' := LastPieceGrows(src, ops, cut, c, Op(kind, ops[|ops| - 1].arg + Weight(kind, c)));
    } else {
      cut' := PushCovered(src, ops, cut, kind, c);
    }
  }

  lemma PushCovered(src: string, ops: seq<Op>, cut: seq<nat>, kind: Kind, c: char) returns (cut': seq<nat>)
    requires Covers(src, ops, cut) && Weight(kind, c) != 0
    ensures Covers(src + [c], ops + [Op(kind, Weight(kind, c))], cut')
  {
    assert Net(kind, []) == 0;
    NetGrows(kind, [], c);
    assert [] + [c] == [c];
    cut' := NewPiece(src, ops, cut, c, Op(kind, Weight(kind, c)));
  }

  lemma CloseCovered(src: string, p: Parsed, cut: seq<nat>) returns (cut': seq<nat>)
    requires Brackets.BracketInv(p) && p.patch != [] && Covers(src, p.ops, cut)
    ensures Covers(src + [']'], CloseLoop(p).ops, cut')
  {
    var k := p.patch[0];
    Brackets.InnermostIsStart(p);
    var d := |p.ops| - k;
    var ops := p.ops[k := Op(LoopStart, d)];
    forall i | 0 <= i < |ops| ensures Piece(src, ops, cut, i) {
      assert Piece(src, p.ops, cut, i);
    }
    cut' := NewPiece(src, ops, cut, ']', Op(LoopEnd, -d));
  }

  lemma CharCovered(src: string, p: Parsed, prev: char, c: char, cut: seq<nat>) returns (cut': seq<nat>)
    requires Brackets.BracketInv(p) && p.ok && Covers(src, p.ops, cut)
    ensures var q := ParseChar(p, prev, c); q.ok ==> Covers(src + [c], q.ops, cut')
  {
    hide Covers;
    cut' := cut;
    match c
    case '+' => cut' := MergeCovered(src, p.ops, cut, Cell, c);
    case '-' => cut' := MergeCovered(src, p.ops, cut, Cell, c);
    case '>' => cut' := MergeCovered(src, p.ops, cut, Tape, c);
    case '<' => cut' := MergeCovered(src, p.ops, cut, Tape, c);
    case ',' =>
      if prev == c { cut' := MergeCovered(src, p.ops, cut, Read, c); } else { cut' := PushCovered(src, p.ops, cut, Read, c); }
    case '.' =>
      if prev == c { cut' := MergeCovered(src, p.ops, cut, Write, c); } else { cut' := PushCovered(src, p.ops, cut, Write, c); }
    case '[' => cut' := NewPiece(src, p.ops, cut, c, Op(LoopStart, 0));
    case ']' => if p.patch != [] { cut' := CloseCovered(src, p, cut); }
    case _ => cut' := CommentCovered(src, p.ops, cut, c);
  }

  lemma {:induction false} TextCovered(src: string, p: Parsed, prev: char, s: string, cut: seq<nat>) returns (cut': seq<nat>)
    requires PatchInside(p) && Brackets.Tracks(src, p) && Covers(src, p.ops, cut)
    requires ParseText(p, prev, s).ok
    ensures Covers(src + s, ParseText(p, prev, s).ops, cut')
    decreases |s|
  {
    hide Covers, ParseChar, Brackets.BracketInv;
    if !p.ok {
      FailureStays(p, prev, s);
    }
    if s == [] {
      assert src + s == src;
      cut' := cut;
    } else {
      var q := ParseChar(p, prev, s[0]);
      if !q.ok {
        FailureStays(q, s[0], s[1..]);
      }
      cut' := CharCovered(src, p, prev, s[0], cut);
      Brackets.CharTracks(src, p, prev, s[0]);
      cut' := TextCovered(src + [s[0]], q, s[0], s[1..], cut');
      assert src + [s[0]] + s[1..] == src + s;
    }
  }

  lemma {:induction false} ChunksCovered(src: string, p: Parsed, chunks: seq<string>, cut: seq<nat>) returns (cut': seq<nat>)
    requires PatchInside(p) && Brackets.Tracks(src, p) && Covers(src, p.ops, cut)
    requires ParseChunks(p, chunks).ok
    ensures Covers(src + Brackets.Seen(chunks), ParseChunks(p, chunks).ops, cut')
    decreases |chunks|
  {
    hide Covers, Brackets.Tracks, ParseText, CString;
    if chunks == [] {
      assert src + Brackets.Seen(chunks) == src;
      cut' := cut;
    } else {
      var text := CString(chunks[0]);
      var q := ParseChunk(p, chunks[0]);
      Brackets.TextTracks(src, p, NUL, text);
      if !q.ok {
        FailureStaysChunks(q, chunks[1..]);
      }
      cut' := TextCovered(src, p, NUL, text, cut);
      cut' := ChunksCovered(src + text, q, chunks[1..], cut');
      assert src + text + Brackets.Seen(chunks[1..]) == src + Brackets.Seen(chunks);
    }
  }

  /** The operations parsed from any chunks of a program cover the whole program. */
  lemma ParserCovers(chunks: seq<string>) returns (cut: seq<nat>)
    requires ParseChunks(EMPTY, chunks).ok
    ensures Covers(Brackets.Seen(chunks), ParseChunks(EMPTY, chunks).ops, cut)
  {
    Brackets.TracksNothing();
    assert Covers([], EMPTY.ops, [0]);
    cut := ChunksCovered([], EMPTY, chunks, [0]);
    assert [] + Brackets.Seen(chunks) == Brackets.Seen(chunks);
  }
}
