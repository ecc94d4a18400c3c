/** Double sums of integers, by rows and by columns. */
module Sums {
  ghost function Row(g: (nat, nat) -> int, s: nat, n: nat): int {
    if n == 0 then 0 else Row(g, s, n - 1) + g(s, n - 1)
  }

  ghost function Column(g: (nat, nat) -> int, c: nat, i: nat): int {
    if c == 0 then 0 else Column(g, c - 1, i) + g(c - 1, i)
  }

  ghost function ByRows(g: (nat, nat) -> int, c: nat, n: nat): int {
    if c == 0 then 0 else ByRows(g, c - 1, n) + Row(g, c - 1, n)
  }

  ghost function ByColumns(g: (nat, nat) -> int, c: nat, n: nat): int {
    if n == 0 then 0 else ByColumns(g, c, n - 1) + Column(g, c, n - 1)
  }

  lemma {:induction false} OneMoreRow(g: (nat, nat) -> int, c: nat, n: nat)
    ensures ByColumns(g, c + 1, n) == ByColumns(g, c, n) + Row(g, c, n)
  {
    if n > 0 { OneMoreRow(g, c, n - 1); }
  }

  lemma {:induction false} NoRows(g: (nat, nat) -> int, n: nat)
    ensures ByColumns(g, 0, n) == 0
  {
    if n > 0 { NoRows(g, n - 1); }
  }

  /** The order of summation does not matter. */
  lemma {:induction false} SumSwap(g: (nat, nat) -> int, c: nat, n: nat)
    ensures ByRows(g, c, n) == ByColumns(g, c, n)
  {
    if c == 0 {
      NoRows(g, n);
    } else {
      SumSwap(g, c - 1, n);
      OneMoreRow(g, c - 1, n);
    }
  }
}
