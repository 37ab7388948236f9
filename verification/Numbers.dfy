/** Sums and minima used across the components. */
module Numbers {
  function Sum(s: seq<int>): int {
    if s == [] then 0 else s[0] + Sum(s[1..])
  }

  function RealSum(s: seq<real>): real {
    if s == [] then 0.0 else s[0] + RealSum(s[1..])
  }

  function Min(x: real, y: real): real {
    if x <= y then x else y
  }

  lemma {:induction false} RealSumConcat(s: seq<real>, t: seq<real>)
    ensures RealSum(s + t) == RealSum(s) + RealSum(t)
  {
    if s == [] {
      assert s + t == t;
    } else {
      assert (s + t)[1..] == s[1..] + t;
      RealSumConcat(s[1..], t);
    }
  }
}
