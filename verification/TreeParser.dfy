/** lib/parser.ml and the printer of bin/main.ml. */
module TreeParser {
  import opened TreeIr
  import opened Passes
  import opened PassProofs
  import opened Slices
  import opened Texts

  /** The instructions of a block in program order, and the position of the `]` that ends it, or |src|. */
  datatype Block = Block(prog: seq<Ir>, end: nat)

  datatype Token = More(i: Ir) | Open | End | Skip

  function TokenOf(c: char): Token {
    match c
    case '+' => More(TreeIr.Cell(1))
    case '-' => More(TreeIr.Cell(-1))
    case '>' => More(Tape(1))
    case '<' => More(Tape(-1))
    case ',' => More(Read)
    case '.' => More(Write)
    case '[' => Open
    case ']' => End
    case _ => Skip
  }

  function After(src: string, end: nat): nat { if end < |src| then end + 1 else |src| }

  function BlockAt(src: string, at: nat): (b: Block)
    requires at <= |src|
    ensures at <= b.end <= |src| && (b.end < |src| ==> src[b.end] == ']')
    decreases |src| - at
  {
    if at == |src| then Block([], at)
    else match TokenOf(src[at])
      case End => Block([], at)
      case Skip => BlockAt(src, at + 1)
      case More(i) => var rest := BlockAt(src, at + 1); Block([i] + rest.prog, rest.end)
      case Open =>
        var inner := BlockAt(src, at + 1);
        var rest := BlockAt(src, After(src, inner.end));
        Block([Loop(inner.prog)] + rest.prog, rest.end)
  }

  /** Parser.parse */
  function Parse(src: string): seq<Ir> { BlockAt(src, 0).prog }

  /** One instruction of each kind in print. */
  lemma ShownExample()
    ensures Show([Tape(2), Tape(-1), TreeIr.Cell(3), TreeIr.Cell(-2), Loop([Read, Write]), Set(7)]) == ">><+++--[,.][-]"
  {
    hide Show, ShowOne;
    var loop := [Loop([Read, Write]), Set(7)];
    var cells := [TreeIr.Cell(3), TreeIr.Cell(-2)] + loop;
    ShownOnes();
    ShownTwo(Loop([Read, Write]), Set(7), []);
    ShownTwo(TreeIr.Cell(3), TreeIr.Cell(-2), loop);
    ShownTwo(Tape(2), Tape(-1), cells);
    assert loop + [] == loop;
    assert [Tape(2), Tape(-1)] + cells == [Tape(2), Tape(-1), TreeIr.Cell(3), TreeIr.Cell(-2), Loop([Read, Write]), Set(7)];
    assert Show(loop) == "[,.][-]" && Show(cells) == "+++--[,.][-]";
  }

  lemma ShownOnes()
    ensures Show([]) == "" && ShowOne(Tape(2)) == ">>" && ShowOne(Tape(-1)) == "<" && ShowOne(TreeIr.Cell(3)) == "+++"
    ensures ShowOne(TreeIr.Cell(-2)) == "--" && ShowOne(Loop([Read, Write])) == "[,.]" && ShowOne(Set(7)) == "[-]"
  {
    hide Times;
    TimesShort('>', 2);
    TimesShort('<', 1);
    TimesShort('+', 3);
    TimesShort('-', 2);
    ShownBody();
  }

  lemma ShownBody()
    ensures Show([Read, Write]) == ",."
  {
    hide Times;
    ShownTwo(Read, Write, []);
    assert [Read, Write] + [] == [Read, Write];
  }

  lemma ShownTwo(x: Ir, y: Ir, rest: seq<Ir>)
    ensures Show([x, y] + rest) == ShowOne(x) + ShowOne(y) + Show(rest)
  {
    hide ShowOne;
    assert ([x, y] + rest)[1..] == [y] + rest && ([y] + rest)[1..] == rest;
  }

  class CharStream {
    const data: string
    var pos: nat

    constructor (data: string)
      ensures this.data == data && pos == 0
    {
      this.data := data;
      pos := 0;
    }

    method Peek() returns (more: bool, c: char)
      ensures more == (pos < |data|) && (more ==> c == data[pos])
    {
      more := pos < |data|;
      c := if more then data[pos] else ' ';
    }

    method Junk()
      requires pos < |data|
      modifies this
      ensures pos == old(pos) + 1
    {
      pos := pos + 1;
    }

    /** parse_stream: the accumulator holds the latest instruction first. */
    method ParseStream() returns (acc: seq<Ir>)
      requires pos <= |data|
      modifies this
      ensures acc == Reverse(BlockAt(data, old(pos)).prog)
      ensures pos == After(data, BlockAt(data, old(pos)).end)
      decreases |data| - pos
    {
      hide BlockAt, TokenOf, Reverse;
      ghost var start, whole := pos, BlockAt(data, pos);
      acc := [];
      AccStarts(whole.prog);
      var more, c := Peek();
      while more
        invariant start <= pos <= |data| && more == (pos < |data|) && (more ==> c == data[pos])
        invariant whole.prog == Reverse(acc) + BlockAt(data, pos).prog && whole.end == BlockAt(data, pos).end
        decreases |data| - pos
      {
        BlockUnfolds(data, pos);
        ghost var was := pos;
        Junk();
        match TokenOf(c) {
          case More(i) =>
            AccGrows(acc, i, BlockAt(data, pos).prog);
            acc := [i] + acc;
          case Open =>
            var inner := ParseStream();
            ReverseTwice(BlockAt(data, was + 1).prog);
            AccGrows(acc, Loop(Reverse(inner)), BlockAt(data, pos).prog);
            acc := [Loop(Reverse(inner))] + acc;
          case End =>
            AccEnds(acc);
            return;
          case Skip =>
        }
        more, c := Peek();
      }
      BlockUnfolds(data, pos);
      AccEnds(acc);
    }
  }

  lemma BlockUnfolds(src: string, at: nat)
    requires at <= |src|
    ensures at == |src| ==> BlockAt(src, at) == Block([], at)
    ensures at < |src| ==>
              match TokenOf(src[at])
              case End => BlockAt(src, at) == Block([], at)
              case Skip => BlockAt(src, at) == BlockAt(src, at + 1)
              case More(i) => BlockAt(src, at) == Block([i] + BlockAt(src, at + 1).prog, BlockAt(src, at + 1).end)
              case Open =>
                var inner := BlockAt(src, at + 1);
                var rest := BlockAt(src, After(src, inner.end));
                BlockAt(src, at) == Block([Loop(inner.prog)] + rest.prog, rest.end)
  {
  }

  lemma AccStarts(p: seq<Ir>)
    ensures Reverse<Ir>([]) + p == p
  {
  }

  lemma AccGrows(acc: seq<Ir>, i: Ir, rest: seq<Ir>)
    ensures Reverse([i] + acc) + rest == Reverse(acc) + ([i] + rest)
  {
    assert ([i] + acc)[1..] == acc;
  }

  lemma AccEnds(acc: seq<Ir>)
    ensures acc == Reverse(Reverse(acc) + [])
  {
    assert Reverse(acc) + [] == Reverse(acc);
    ReverseTwice(acc);
  }

  method ParseString(src: string) returns (prog: seq<Ir>)
    ensures prog == Parse(src)
  {
    var s := new CharStream(src);
    var acc := s.ParseStream();
    ReverseTwice(Parse(src));
    prog := Reverse(acc);
  }

  // ----- the printer -----

  function Magnitude(n: int): nat { if n < 0 then -n else n }

  function ShowOne(i: Ir): string
    decreases i
  {
    match i
    case Tape(n) => Times(if n < 0 then '<' else '>', Magnitude(n))
    case Cell(n) => Times(if n < 0 then '-' else '+', Magnitude(n))
    case Set(_) => "[-]"
    case Read => ","
    case Write => "."
    case Loop(body) => ['['] + Show(body) + [']']
  }

  function Show(p: seq<Ir>): string
    decreases p
  {
    if p == [] then [] else ShowOne(p[0]) + Show(p[1..])
  }

  // ----- printing what was parsed -----

  /** The text without comments, up to the first unmatched `]`, with every open `[` closed. */
  function Clean(src: string, at: nat, depth: nat): string
    requires at <= |src|
    decreases |src| - at
  {
    if at == |src| then Times(']', depth)
    else match TokenOf(src[at])
      case Skip => Clean(src, at + 1, depth)
      case Open => ['['] + Clean(src, at + 1, depth + 1)
      case End => if depth == 0 then [] else [']'] + Clean(src, at + 1, depth - 1)
      case More(_) => [src[at]] + Clean(src, at + 1, depth)
  }

  lemma TimesFront(c: char, n: nat)
    ensures Times(c, n + 1) == [c] + Times(c, n)
  {
    if n > 0 {
      TimesFront(c, n - 1);
    }
  }

  lemma ShowBasic(c: char)
    requires TokenOf(c).More?
    ensures ShowOne(TokenOf(c).i) == [c]
  {
    assert forall d :: Times(d, 1) == Times(d, 0) + [d];
  }

  /** What follows a block: its closing bracket and the rest, one level up. */
  function Rest(src: string, end: nat, depth: nat): string
    requires end <= |src|
  {
    if depth == 0 then [] else [']'] + Clean(src, After(src, end), depth - 1)
  }

  lemma {:induction false} ShowOfBlock(src: string, at: nat, depth: nat)
    requires at <= |src|
    ensures Clean(src, at, depth) == Show(BlockAt(src, at).prog) + Rest(src, BlockAt(src, at).end, depth)
    decreases |src| - at
  {
    hide ShowOne, TokenOf, Show, Rest;
    ShowNothing();
    if at == |src| {
      RestAtEnd(src, depth);
    } else {
      match TokenOf(src[at])
      case End => RestAtClose(src, at, depth);
      case Skip => ShowOfBlock(src, at + 1, depth);
      case More(i) =>
        var rest := BlockAt(src, at + 1);
        ShowOfBlock(src, at + 1, depth);
        ShowBasic(src[at]);
        ShowCons(i, rest.prog);
        assert [src[at]] + (Show(rest.prog) + Rest(src, rest.end, depth)) == [src[at]] + Show(rest.prog) + Rest(src, rest.end, depth);
      case Open =>
        var inner := BlockAt(src, at + 1);
        ShowOfBlock(src, at + 1, depth + 1);
        ShowOfBlock(src, After(src, inner.end), depth);
        ShowOfOpen(src, at, depth);
    }
  }

  lemma ShowOfOpen(src: string, at: nat, depth: nat)
    requires at < |src| && TokenOf(src[at]).Open?
    requires var inner := BlockAt(src, at + 1);
             Clean(src, at + 1, depth + 1) == Show(inner.prog) + Rest(src, inner.end, depth + 1)
    requires var rest := BlockAt(src, After(src, BlockAt(src, at + 1).end));
             Clean(src, After(src, BlockAt(src, at + 1).end), depth) == Show(rest.prog) + Rest(src, rest.end, depth)
    ensures Clean(src, at, depth) == Show(BlockAt(src, at).prog) + Rest(src, BlockAt(src, at).end, depth)
  {
    hide ShowOne, TokenOf, Show, BlockAt, Rest, Clean;
    BlockUnfolds(src, at);
    CleanOpens(src, at, depth);
    var inner := BlockAt(src, at + 1);
    var rest := BlockAt(src, After(src, inner.end));
    ShowLoop(inner.prog);
    ShowCons(Loop(inner.prog), rest.prog);
    RestCloses(src, inner.end, depth);
    LoopText(Show(inner.prog), Show(rest.prog), Rest(src, rest.end, depth));
  }

  lemma CleanOpens(src: string, at: nat, depth: nat)
    requires at < |src| && TokenOf(src[at]).Open?
    ensures Clean(src, at, depth) == ['['] + Clean(src, at + 1, depth + 1)
  {
  }

  lemma RestCloses(src: string, end: nat, depth: nat)
    requires end <= |src|
    ensures Rest(src, end, depth + 1) == [']'] + Clean(src, After(src, end), depth)
  {
  }

  lemma LoopText(a: string, b: string, r: string)
    ensures ['['] + (a + ([']'] + (b + r))) == (['['] + a + [']']) + b + r
  {
  }

  lemma ShowNothing()
    ensures Show([]) == []
  {
  }

  lemma RestAtEnd(src: string, depth: nat)
    ensures Rest(src, |src|, depth) == Times(']', depth)
  {
    if depth > 0 {
      TimesFront(']', depth - 1);
    }
  }

  lemma RestAtClose(src: string, at: nat, depth: nat)
    requires at < |src| && TokenOf(src[at]).End?
    ensures Rest(src, at, depth) == Clean(src, at, depth)
  {
  }

  lemma ShowCons(i: Ir, p: seq<Ir>)
    ensures Show([i] + p) == ShowOne(i) + Show(p)
  {
    assert ([i] + p)[1..] == p;
  }

  lemma ShowLoop(body: seq<Ir>)
    ensures ShowOne(Loop(body)) == ['['] + Show(body) + [']']
  {
  }

  /** Printing the parse of any text gives its cleaned form. */
  lemma ShowOfParse(src: string)
    ensures Show(Parse(src)) == Clean(src, 0, 0)
  {
    ShowOfBlock(src, 0, 0);
    assert Show(Parse(src)) + [] == Show(Parse(src));
  }

  // ----- parsing what was printed -----

  function Copies(i: Ir, n: nat): seq<Ir> { if n == 0 then [] else [i] + Copies(i, n - 1) }

  /** One instruction per printed character; a Set prints as the loop that clears the cell. */
  function UnitsOf(i: Ir): seq<Ir>
    decreases i
  {
    match i
    case Tape(n) => Copies(Tape(if n < 0 then -1 else 1), Magnitude(n))
    case Cell(n) => Copies(TreeIr.Cell(if n < 0 then -1 else 1), Magnitude(n))
    case Set(_) => [Loop([TreeIr.Cell(-1)])]
    case Loop(body) => [Loop(Units(body))]
    case _ => [i]
  }

  function Units(p: seq<Ir>): seq<Ir>
    decreases p
  {
    if p == [] then [] else UnitsOf(p[0]) + Units(p[1..])
  }

  /** Parsing from `at` gives `prog` followed by what is parsed from `next`. */
  ghost predicate ParsesTo(src: string, at: nat, prog: seq<Ir>, next: nat) {
    at <= next <= |src| && BlockAt(src, at) == Block(prog + BlockAt(src, next).prog, BlockAt(src, next).end)
  }

  lemma ParsesToTrans(src: string, at: nat, p: seq<Ir>, mid: nat, q: seq<Ir>, next: nat)
    requires ParsesTo(src, at, p, mid) && ParsesTo(src, mid, q, next)
    ensures ParsesTo(src, at, p + q, next)
  {
    var r := BlockAt(src, next).prog;
    assert p + (q + r) == (p + q) + r;
  }

  lemma ParsesNothing(src: string, at: nat)
    requires at <= |src|
    ensures ParsesTo(src, at, [], at)
  {
    hide BlockAt;
    assert [] + BlockAt(src, at).prog == BlockAt(src, at).prog;
  }

  lemma {:induction false} ParseTimes(src: string, at: nat, c: char, n: nat)
    requires HasSlice(src, at, Times(c, n)) && TokenOf(c).More?
    ensures ParsesTo(src, at, Copies(TokenOf(c).i, n), at + n)
    decreases n
  {
    hide TokenOf, BlockAt, ParsesTo, HasSlice, Times;
    TimesLength(c, n);
    if n == 0 {
      SliceEnds(src, at, Times(c, n));
      ParsesNothing(src, at);
    } else {
      TimesFront(c, n - 1);
      SliceSplit(src, at, [c], Times(c, n - 1));
      ParseBasic(src, at, c, TokenOf(c).i);
      ParseTimes(src, at + 1, c, n - 1);
      ParsesToTrans(src, at, [TokenOf(c).i], at + 1, Copies(TokenOf(c).i, n - 1), at + n);
    }
  }

  lemma {:induction false} ParseShowOne(src: string, at: nat, i: Ir)
    requires HasSlice(src, at, ShowOne(i))
    ensures ParsesTo(src, at, UnitsOf(i), at + |ShowOne(i)|)
    decreases i, 0
  {
    hide BlockAt, ParsesTo, HasSlice;
    match i
    case Tape(n) => ParseTimesUnits(src, at, i, if n < 0 then '<' else '>', Magnitude(n));
    case Cell(n) => ParseTimesUnits(src, at, i, if n < 0 then '-' else '+', Magnitude(n));
    case Read => ParseBasic(src, at, ',', i);
    case Write => ParseBasic(src, at, '.', i);
    case Set(_) => ParseClearing(src, at);
    case Loop(body) =>
      LoopSlices(src, at, Show(body));
      ParseShow(src, at + 1, body);
      ParseBrackets(src, at, Show(body), Units(body));
  }

  lemma LoopSlices(src: string, at: nat, text: string)
    requires HasSlice(src, at, ['['] + text + [']'])
    ensures HasSlice(src, at, ['[']) && HasSlice(src, at + 1, text) && HasSlice(src, at + 1 + |text|, [']'])
  {
    hide HasSlice;
    SliceSplit(src, at, ['['] + text, [']']);
    SliceSplit(src, at, ['['], text);
  }

  lemma ParseBasic(src: string, at: nat, c: char, i: Ir)
    requires HasSlice(src, at, [c]) && TokenOf(c) == More(i)
    ensures ParsesTo(src, at, [i], at + 1)
  {
    SliceElement(src, at, [c], 0);
  }

  lemma ParseClearing(src: string, at: nat)
    requires HasSlice(src, at, "[-]")
    ensures ParsesTo(src, at, [Loop([TreeIr.Cell(-1)])], at + 3)
  {
    hide BlockAt;
    assert "[-]" == ['['] + "-]" && "-]" == "-" + [']'];
    SliceSplit(src, at, ['['], "-]");
    SliceSplit(src, at + 1, "-", [']']);
    ParseBasic(src, at + 1, '-', TreeIr.Cell(-1));
    ParseBrackets(src, at, "-", [TreeIr.Cell(-1)]);
  }

  lemma ParseTimesUnits(src: string, at: nat, i: Ir, c: char, n: nat)
    requires HasSlice(src, at, Times(c, n)) && TokenOf(c).More?
    requires ShowOne(i) == Times(c, n) && UnitsOf(i) == Copies(TokenOf(c).i, n)
    ensures ParsesTo(src, at, UnitsOf(i), at + |ShowOne(i)|)
  {
    hide TokenOf, ShowOne, UnitsOf, BlockAt;
    TimesLength(c, n);
    ParseTimes(src, at, c, n);
  }

  lemma ParseBrackets(src: string, at: nat, text: string, body: seq<Ir>)
    requires HasSlice(src, at, ['[']) && HasSlice(src, at + 1, text) && HasSlice(src, at + 1 + |text|, [']'])
    requires ParsesTo(src, at + 1, body, at + 1 + |text|)
    ensures ParsesTo(src, at, [Loop(body)], at + |text| + 2)
  {
    hide BlockAt;
    var end := at + 1 + |text|;
    SliceElement(src, at, ['['], 0);
    SliceElement(src, end, [']'], 0);
    BlockUnfolds(src, end);
    BlockUnfolds(src, at);
    assert body + [] == body;
  }

  lemma {:induction false} ParseShow(src: string, at: nat, p: seq<Ir>)
    requires HasSlice(src, at, Show(p))
    ensures ParsesTo(src, at, Units(p), at + |Show(p)|)
    decreases p, 1
  {
    hide ShowOne, UnitsOf, BlockAt;
    if p == [] {
      assert [] + BlockAt(src, at).prog == BlockAt(src, at).prog;
    } else {
      SliceSplit(src, at, ShowOne(p[0]), Show(p[1..]));
      ParseShowOne(src, at, p[0]);
      ParseShow(src, at + |ShowOne(p[0])|, p[1..]);
      ParsesToTrans(src, at, UnitsOf(p[0]), at + |ShowOne(p[0])|, Units(p[1..]), at + |Show(p)|);
    }
  }

  lemma ParseOfShow(p: seq<Ir>)
    ensures Parse(Show(p)) == Units(p)
  {
    hide Show, Units;
    var src := Show(p);
    assert src[0..|src|] == src;
    ParseShow(src, 0, p);
    assert Units(p) + [] == Units(p);
  }

  // ----- contraction joins the units again -----

  predicate SameMove(i: Ir, j: Ir) { (i.Tape? && j.Tape?) || (i.Cell? && j.Cell?) }

  /** No Set, no move or addition of zero, no two neighbours that contraction would join. */
  predicate Canonical(p: seq<Ir>)
    decreases p
  {
    p == [] || (CanonicalOne(p[0]) && Canonical(p[1..]) && (|p| > 1 ==> !SameMove(p[0], p[1])))
  }

  predicate CanonicalOne(i: Ir)
    decreases i
  {
    match i
    case Tape(n) => n != 0
    case Cell(n) => n != 0
    case Set(_) => false
    case Loop(body) => Canonical(body)
    case _ => true
  }

  /** Whether contraction would join `i` to the latest accumulated instruction. */
  predicate Joins(acc: seq<Ir>, i: Ir) { acc != [] && SameMove(acc[0], i) }

  lemma {:induction false} ContractCopies(acc: seq<Ir>, tape: bool, unit: int, n: nat, more: seq<Ir>)
    requires n > 0
    requires !Joins(acc, if tape then Tape(1) else TreeIr.Cell(1))
    ensures var i := if tape then Tape(unit) else TreeIr.Cell(unit);
            var sum := if tape then Tape(unit * n) else TreeIr.Cell(unit * n);
            Fold(CONTRACTION, acc, Copies(i, n) + more) == Fold(CONTRACTION, [sum] + acc, more)
  {
    var i := if tape then Tape(unit) else TreeIr.Cell(unit);
    CopiesJoin(acc, tape, unit, unit, n - 1, more);
    var first := if tape then Tape(unit) else TreeIr.Cell(unit);
    assert Copies(i, n) + more == [i] + (Copies(i, n - 1) + more);
    assert ([i] + (Copies(i, n - 1) + more))[1..] == Copies(i, n - 1) + more;
    assert Apply(CONTRACTION, acc, i) == [first] + acc;
    assert unit + unit * (n - 1) == unit * n;
  }

  lemma {:induction false} CopiesJoin(acc: seq<Ir>, tape: bool, so: int, unit: int, n: nat, more: seq<Ir>)
    ensures var i := if tape then Tape(unit) else TreeIr.Cell(unit);
            var head := if tape then Tape(so) else TreeIr.Cell(so);
            var sum := if tape then Tape(so + unit * n) else TreeIr.Cell(so + unit * n);
            Fold(CONTRACTION, [head] + acc, Copies(i, n) + more) == Fold(CONTRACTION, [sum] + acc, more)
    decreases n
  {
    var i := if tape then Tape(unit) else TreeIr.Cell(unit);
    var head := if tape then Tape(so) else TreeIr.Cell(so);
    if n == 0 {
      assert Copies(i, n) + more == more;
    } else {
      var next := if tape then Tape(so + unit) else TreeIr.Cell(so + unit);
      assert Copies(i, n) + more == [i] + (Copies(i, n - 1) + more);
      assert ([i] + (Copies(i, n - 1) + more))[1..] == Copies(i, n - 1) + more;
      assert ([head] + acc)[1..] == acc;
      assert unit + so == so + unit;
      assert Apply(CONTRACTION, [head] + acc, i) == [next] + acc;
      CopiesJoin(acc, tape, so + unit, unit, n - 1, more);
      assert so + unit + unit * (n - 1) == so + unit * n;
    }
  }

  lemma {:induction false} ContractUnitsOf(acc: seq<Ir>, i: Ir, more: seq<Ir>)
    requires CanonicalOne(i) && !Joins(acc, i)
    ensures Fold(CONTRACTION, acc, UnitsOf(i) + more) == Fold(CONTRACTION, [i] + acc, more)
    decreases i, 0
  {
    match i
    case Tape(n) => ContractCopies(acc, true, if n < 0 then -1 else 1, Magnitude(n), more);
    case Cell(n) => ContractCopies(acc, false, if n < 0 then -1 else 1, Magnitude(n), more);
    case Loop(body) =>
      ContractUnits([], body, []);
      assert Units(body) + [] == Units(body) && Reverse(body) + [] == Reverse(body);
      ReverseTwice(body);
      var l := Loop(Units(body));
      assert Apply(CONTRACTION, acc, l) == [i] + acc;
      assert ([l] + more)[1..] == more;
    case Read => PushPlain(acc, i, more);
    case Write => PushPlain(acc, i, more);
    case Set(_) =>
  }

  lemma PushPlain(acc: seq<Ir>, i: Ir, more: seq<Ir>)
    requires i == Read || i == Write
    ensures Fold(CONTRACTION, acc, [i] + more) == Fold(CONTRACTION, [i] + acc, more)
  {
    assert Apply(CONTRACTION, acc, i) == [i] + acc;
    assert ([i] + more)[1..] == more;
  }

  lemma {:induction false} ContractUnits(acc: seq<Ir>, p: seq<Ir>, more: seq<Ir>)
    requires Canonical(p) && (p != [] ==> !Joins(acc, p[0]))
    ensures Fold(CONTRACTION, acc, Units(p) + more) == Fold(CONTRACTION, Reverse(p) + acc, more)
    decreases p, 1
  {
    hide UnitsOf, Fold;
    if p == [] {
      assert Units(p) + more == more && Reverse(p) + acc == acc;
    } else {
      assert Units(p) + more == UnitsOf(p[0]) + (Units(p[1..]) + more);
      ContractUnitsOf(acc, p[0], Units(p[1..]) + more);
      ContractUnits([p[0]] + acc, p[1..], more);
      assert Reverse(p[1..]) + ([p[0]] + acc) == Reverse(p) + acc;
    }
  }

  /** Printing, parsing and contracting gives back every canonical program. */
  lemma RoundTrip(p: seq<Ir>)
    requires Canonical(p)
    ensures Run([CONTRACTION], Parse(Show(p))) == p
  {
    hide Fold, Canonical, Show, Parse;
    ParseOfShow(p);
    ContractUnits([], p, []);
    FoldNothing(CONTRACTION, Reverse(p) + []);
    assert Units(p) + [] == Units(p) && Reverse(p) + [] == Reverse(p);
    ReverseTwice(p);
    var none: seq<Pass> := [];
    assert [CONTRACTION][1..] == none;
    assert RunPasses([CONTRACTION], Units(p)) == RunPasses(none, Fold(CONTRACTION, [], Units(p)));
  }

  lemma FoldNothing(pass: Pass, acc: seq<Ir>)
    ensures Fold(pass, acc, []) == acc
  {
  }
}
