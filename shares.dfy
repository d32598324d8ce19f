/** Percentage shares of a total, `cnt / total * 100`, as the rating summary
    and the sentiment breakdown compute them (exactly, without the rounding to
    one decimal). */
module Shares {

  function Share(count: nat, total: nat): real
    requires total > 0
  {
    (count as real) / (total as real) * 100.0
  }

  function Sum(counts: seq<nat>): nat
  {
    if |counts| == 0 then 0 else counts[0] + Sum(counts[1..])
  }

  function Shares(counts: seq<nat>, total: nat): (p: seq<real>)
    requires total > 0
    ensures |p| == |counts|
    ensures forall i :: 0 <= i < |counts| ==> p[i] == Share(counts[i], total)
  {
    if |counts| == 0 then [] else [Share(counts[0], total)] + Shares(counts[1..], total)
  }

  /** A column of a table: `f` read off each row, in row order. */
  function Column<T, U>(rows: seq<T>, f: T -> U): (c: seq<U>)
    ensures |c| == |rows|
    ensures forall i :: 0 <= i < |rows| ==> c[i] == f(rows[i])
  {
    if |rows| == 0 then [] else [f(rows[0])] + Column(rows[1..], f)
  }

  function SumReals(xs: seq<real>): real
  {
    if |xs| == 0 then 0.0 else xs[0] + SumReals(xs[1..])
  }

  /** The shares of two counts add up to the share of their sum. */
  lemma ShareOfSum(a: nat, b: nat, total: nat)
    requires total > 0
    ensures Share(a, total) + Share(b, total) == Share(a + b, total)
  {
    var t := total as real;
    var x, y := a as real / t, b as real / t;
    assert x * t == a as real && y * t == b as real;
    assert (x + y) * t == (a + b) as real;
    assert x + y == (a + b) as real / t;
  }

  /** The shares of some counts add up to their sum's share of the total. */
  lemma {:induction false} SharesAdd(counts: seq<nat>, total: nat)
    requires total > 0
    ensures SumReals(Shares(counts, total)) == Share(Sum(counts), total)
    decreases |counts|
  {
    if |counts| > 0 {
      SharesAdd(counts[1..], total);
      ShareOfSum(counts[0], Sum(counts[1..]), total);
    }
  }

  /** Shares of counts whose sum is the total add up to 100. */
  lemma SharesSumTo100(counts: seq<nat>)
    requires Sum(counts) > 0
    ensures SumReals(Shares(counts, Sum(counts))) == 100.0
  {
    var n := Sum(counts);
    SharesAdd(counts, n);
    assert (n as real) / (n as real) == 1.0;
    assert Share(n, n) == 100.0;
  }
}
