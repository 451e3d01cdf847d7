/** Repeated characters. */
module Texts {
  function Times(c: char, n: int): string { if n <= 0 then [] else Times(c, n - 1) + [c] }

  lemma TimesShort(c: char, n: nat)
    requires n < 4
    ensures Times(c, n) == [c, c, c][..n]
  {
    assert Times(c, 0) == [] && Times(c, 1) == [c] && Times(c, 2) == [c, c] && Times(c, 3) == [c, c, c];
  }

  lemma {:induction false} TimesLength(c: char, n: nat)
    ensures |Times(c, n)| == n
  {
    if n > 0 {
      TimesLength(c, n - 1);
    }
  }
}
