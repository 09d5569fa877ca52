/** The running total both guidance engines keep beside their magnitude
    history, so that the window average costs O(1) per cycle. */
module RollingSum {

  /** The exact total of a window of samples. */
  function Sum(s: seq<real>): real
  {
    if s == [] then 0.0 else s[0] + Sum(s[1..])
  }

  /** Evict-then-insert: overwriting one slot changes the total by the new
      value minus the evicted one, which is how the engines update it. */
  lemma {:induction false} SumUpdate(s: seq<real>, i: nat, v: real)
    requires i < |s|
    ensures Sum(s[i := v]) == Sum(s) - s[i] + v
  {
    if i > 0 {
      assert s[i := v][1..] == s[1..][i - 1 := v];
      SumUpdate(s[1..], i - 1, v);
    }
  }

  /** A window seeded with one value `c` in all `n` slots totals `c * n`. */
  lemma {:induction false} SumConst(c: real, n: nat)
    ensures Sum(seq(n, _ => c)) == c * (n as real)
  {
    if n > 0 {
      var s := seq(n, _ => c);
      assert s[1..] == seq(n - 1, _ => c);
      SumConst(c, n - 1);
      calc {
        Sum(s);
        s[0] + Sum(s[1..]);
        c + c * ((n - 1) as real);
        c * (n as real);
      }
    }
  }
}
