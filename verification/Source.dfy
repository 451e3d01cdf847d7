/** Reference semantics: the source text is executed one character at a time. A bracket finds its
    partner by counting brackets in the text; a `[` without one is passed over whatever the cell holds. A cell
    outside the tape cannot be touched. */
module Source {
  import opened Store

  predicate IsComment(c: char) { c !in "+-<>,.[]" }

  /** Position of the `]` that closes `depth` + 1 levels, from `k` on; |src| if there is none. */
  function ScanForward(src: string, k: nat, depth: nat): (r: nat)
    ensures r >= k || r >= |src|
    decreases |src| - k
  {
    if k >= |src| then |src|
    else if src[k] == '[' then ScanForward(src, k + 1, depth + 1)
    else if src[k] == ']' then (if depth == 0 then k else ScanForward(src, k + 1, depth - 1))
    else ScanForward(src, k + 1, depth)
  }

  /** Position of the `[` that opens `depth` + 1 levels, before `k`; -1 if there is none. */
  function ScanBackward(src: string, k: nat, depth: nat): (r: int)
    requires k <= |src|
    ensures -1 <= r < k
    decreases k
  {
    if k == 0 then -1
    else if src[k - 1] == ']' then ScanBackward(src, k - 1, depth + 1)
    else if src[k - 1] == '[' then (if depth == 0 then k - 1 else ScanBackward(src, k - 1, depth - 1))
    else ScanBackward(src, k - 1, depth)
  }

  function Execute(src: string, pc: nat, s: State): Config
    requires pc < |src|
  {
    var c := src[pc];
    if c == '>' then Running(pc + 1, s.Move(1))
    else if c == '<' then Running(pc + 1, s.Move(-1))
    else if IsComment(c) then Running(pc + 1, s)
    else if !s.OnTape() then Crashed(s)
    else match c
      case '+' => Running(pc + 1, s.AddCell(1))
      case '-' => Running(pc + 1, s.AddCell(-1))
      case ',' => Running(pc + 1, s.Read())
      case '.' => Running(pc + 1, s.Write())
      case '[' =>
        var end := ScanForward(src, pc + 1, 0);
        Running(if s.Cell() == 0 && end < |src| then end + 1 else pc + 1, s)
      case _ => Running(if s.Cell() != 0 then ScanBackward(src, pc, 0) + 1 else pc + 1, s)
  }

  function Step(src: string): Config -> Config {
    (c: Config) => match c
      case Running(pc, s) => if 0 <= pc < |src| then Execute(src, pc, s) else Halted(s)
      case _ => c
  }

  /** The same on a circular tape: whoever leaves it at one end comes in at the other. */
  function CircularStep(src: string): Config -> Config {
    (c: Config) => Around(Step(src)(c))
  }

  function Around(c: Config): Config {
    if |c.st.tape| == 0 then c else c.(st := c.st.(dp := c.st.dp % |c.st.tape|))
  }

  /** Bracket depth of a text, or failure when some prefix closes more than it opened. */
  datatype Depth = Open(n: nat) | Unmatched

  function DepthOf(src: string): Depth {
    if src == [] then Open(0) else DepthAfter(DepthOf(src[..|src| - 1]), src[|src| - 1])
  }

  function DepthAfter(d: Depth, c: char): Depth {
    if d.Unmatched? then d
    else if c == '[' then Open(d.n + 1)
    else if c == ']' then (if d.n == 0 then Unmatched else Open(d.n - 1))
    else d
  }

  predicate BalancedSource(src: string) { DepthOf(src) == Open(0) }
}
