/**
 * Deriving base-currency amounts from foreign legs (src/domain/fx.rs).
 * Amounts are integers in units of 1/10000, the scale of the postings table;
 * a cent is 100 units. Rates are reals.
 */
module Fx {
  import opened Numbers

  const CENT := 100

  /** Nearest integer, midpoints away from zero. */
  function RoundAway(x: real): int {
    if x >= 0.0 then (x + 0.5).Floor else -((0.5 - x).Floor)
  }

  /** `derive_base_amount`: convert at `rate` and round to whole cents. */
  function DeriveBaseAmount(amount: int, rate: real): int {
    CENT * RoundAway(amount as real * rate / CENT as real)
  }

  function Negated(s: seq<int>): seq<int> {
    seq(|s|, i requires 0 <= i < |s| => -s[i])
  }

  function Total(f: int -> int, s: seq<int>): int {
    if s == [] then 0 else f(s[0]) + Total(f, s[1..])
  }

  /** Conversion at one rate, as a function of the foreign amount. */
  function At(rate: real): int -> int {
    (amount: int) => DeriveBaseAmount(amount, rate)
  }

  /** Net base amount derived from foreign legs of one currency. */
  function DerivedTotal(s: seq<int>, rate: real): int {
    Total(At(rate), s)
  }

  function Abs(x: real): real {
    if x >= 0.0 then x else -x
  }

  /** Rounding stays within half a cent of the exact product and keeps its sign. */
  lemma RoundingError(amount: int, rate: real)
    ensures Abs(DeriveBaseAmount(amount, rate) as real - amount as real * rate) <= 0.5 * CENT as real
    ensures DeriveBaseAmount(amount, rate) % CENT == 0
    ensures rate > 0.0 && amount >= 0 ==> DeriveBaseAmount(amount, rate) >= 0
    ensures rate > 0.0 && amount <= 0 ==> DeriveBaseAmount(amount, rate) <= 0
  {
    var a := amount as real;
    if rate > 0.0 {
      assert amount >= 0 ==> a * rate >= 0.0;
      assert amount <= 0 ==> a * rate <= 0.0;
    }
  }

  lemma RoundAwayIsOdd(x: real)
    ensures RoundAway(-x) == -RoundAway(x)
  {
    assert 0.5 - (-x) == x + 0.5;
  }

  /** Rounding is odd, so opposite legs always cancel to the last cent. */
  lemma RoundingIsOdd(amount: int, rate: real)
    ensures DeriveBaseAmount(-amount, rate) == -DeriveBaseAmount(amount, rate)
  {
    var x := amount as real * rate;
    assert (-amount) as real * rate == -x;
    assert -x / CENT as real == -(x / CENT as real);
    RoundAwayIsOdd(x / CENT as real);
  }

  function ExactTotal(g: int -> real, s: seq<int>): real {
    if s == [] then 0.0 else g(s[0]) + ExactTotal(g, s[1..])
  }

  function Scale(rate: real): int -> real {
    (amount: int) => amount as real * rate
  }

  /** The rounded value exceeds the exact one by at most half a cent, and by less if that is not positive. */
  predicate HalfUp(f: int -> int, g: int -> real, x: int) {
    f(x) as real - g(x) <= 50.0 && (g(x) <= 0.0 ==> f(x) as real - g(x) < 50.0)
  }

  ghost predicate RoundsUpByHalf(f: int -> int, g: int -> real) {
    forall x :: HalfUp(f, g, x)
  }

  lemma {:induction false} ErrorsAdd(f: int -> int, g: int -> real, s: seq<int>)
    requires RoundsUpByHalf(f, g)
    ensures Total(f, s) as real - ExactTotal(g, s) <= |s| as real * 50.0
  {
    if s != [] {
      ErrorsAdd(f, g, s[1..]);
      assert HalfUp(f, g, s[0]);
    }
  }

  /** Not every leg can be rounded up by a full half cent unless the exact total is positive. */
  lemma {:induction false} SomeLegFallsShort(f: int -> int, g: int -> real, s: seq<int>)
    requires RoundsUpByHalf(f, g) && s != []
    ensures ExactTotal(g, s) > 0.0 || Total(f, s) as real - ExactTotal(g, s) < |s| as real * 50.0
  {
    assert HalfUp(f, g, s[0]);
    ErrorsAdd(f, g, s[1..]);
    if s[1..] != [] {
      SomeLegFallsShort(f, g, s[1..]);
    }
  }

  lemma Distribute(x: real, y: real, rate: real)
    ensures (x + y) * rate == x * rate + y * rate
  {
  }

  lemma {:induction false} ExactTotalScales(s: seq<int>, rate: real)
    ensures ExactTotal(Scale(rate), s) == Sum(s) as real * rate
  {
    if s == [] {
      assert 0 as real * rate == 0.0;
    } else {
      ExactTotalScales(s[1..], rate);
      Distribute(s[0] as real, Sum(s[1..]) as real, rate);
    }
  }

  lemma AtError(rate: real, x: int)
    ensures HalfUp(At(rate), Scale(rate), x)
  {
    RoundingError(x, rate);
    var q := x as real * rate / 100.0;
    assert x as real * rate == 100.0 * q;
  }

  lemma {:induction false} WholeCents(s: seq<int>, rate: real)
    ensures DerivedTotal(s, rate) % CENT == 0
  {
    if s != [] {
      WholeCents(s[1..], rate);
      RoundingError(s[0], rate);
      assert At(rate)(s[0]) == DeriveBaseAmount(s[0], rate);
    }
  }

  lemma HalfCents(d: int, n: nat)
    requires d as real < n as real * 50.0 && d % CENT == 0
    ensures 2 * d <= (n - 1) * CENT
  {
    assert (2 * d) as real == 2.0 * d as real;
    assert (n * CENT) as real == n as real * 100.0;
    var k := d / CENT;
    assert d == CENT * k;
    assert 2 * k < n;
  }

  lemma NetRoundsUp(s: seq<int>, rate: real)
    requires Sum(s) == 0 && s != []
    ensures 2 * DerivedTotal(s, rate) <= (|s| - 1) * CENT
  {
    forall x ensures HalfUp(At(rate), Scale(rate), x) {
      AtError(rate, x);
    }
    SomeLegFallsShort(At(rate), Scale(rate), s);
    ExactTotalScales(s, rate);
    assert 0 as real * rate == 0.0;
    WholeCents(s, rate);
    HalfCents(DerivedTotal(s, rate), |s|);
  }

  lemma {:induction false} SumOfNegated(s: seq<int>)
    ensures Sum(Negated(s)) == -Sum(s)
  {
    if s != [] {
      assert Negated(s)[1..] == Negated(s[1..]);
      SumOfNegated(s[1..]);
    }
  }

  lemma {:induction false} TotalOfNegated(f: int -> int, s: seq<int>)
    requires forall x :: f(-x) == -f(x)
    ensures Total(f, Negated(s)) == -Total(f, s)
  {
    if s != [] {
      assert Negated(s)[1..] == Negated(s[1..]);
      TotalOfNegated(f, s[1..]);
      assert f(-s[0]) == -f(s[0]);
    }
  }

  lemma NegatedTotal(s: seq<int>, rate: real)
    ensures DerivedTotal(Negated(s), rate) == -DerivedTotal(s, rate)
  {
    forall x ensures At(rate)(-x) == -At(rate)(x) {
      RoundingIsOdd(x, rate);
    }
    TotalOfNegated(At(rate), s);
  }

  /**
   * n legs that balance in the foreign currency derive base amounts that are off balance
   * by at most (n - 1)/2 cents, at any rate; DriftReached shows that this is sharp.
   */
  lemma NetRoundingError(s: seq<int>, rate: real)
    requires Sum(s) == 0
    ensures s != [] ==> 2 * DerivedTotal(s, rate) <= (|s| - 1) * CENT && -2 * DerivedTotal(s, rate) <= (|s| - 1) * CENT
    ensures s == [] ==> DerivedTotal(s, rate) == 0
  {
    if s != [] {
      NetRoundsUp(s, rate);
      SumOfNegated(s);
      NetRoundsUp(Negated(s), rate);
      NegatedTotal(s, rate);
    }
  }

  lemma {:induction false} TotalConcat(f: int -> int, s: seq<int>, t: seq<int>)
    ensures Total(f, s + t) == Total(f, s) + Total(f, t)
  {
    if s == [] {
      assert s + t == t;
    } else {
      assert (s + t)[1..] == s[1..] + t;
      TotalConcat(f, s[1..], t);
    }
  }

  lemma RemoveOne(s: seq<int>, i: nat)
    requires i < |s|
    ensures multiset(s[..i] + s[i + 1..]) == multiset(s) - multiset{s[i]}
  {
    assert s == s[..i] + [s[i]] + s[i + 1..];
  }

  lemma SameRest(s: seq<int>, t: seq<int>) returns (i: nat)
    requires s != [] && multiset(s) == multiset(t)
    ensures i < |t| && t[i] == s[0] && multiset(s[1..]) == multiset(t[..i] + t[i + 1..])
  {
    assert s[0] in multiset(t);
    i :| 0 <= i < |t| && t[i] == s[0];
    assert s == [s[0]] + s[1..];
    RemoveOne(t, i);
  }

  lemma PullOut(f: int -> int, s: seq<int>, i: nat)
    requires i < |s|
    ensures Total(f, s) == f(s[i]) + Total(f, s[..i] + s[i + 1..])
  {
    assert s == s[..i] + s[i..] && s[i..][1..] == s[i + 1..];
    TotalConcat(f, s[..i], s[i..]);
    TotalConcat(f, s[..i], s[i + 1..]);
  }

  /** A total does not depend on the order of the legs. */
  lemma {:induction false} TotalOfPermutation(f: int -> int, s: seq<int>, t: seq<int>)
    requires multiset(s) == multiset(t)
    ensures Total(f, s) == Total(f, t)
    decreases |s|
  {
    if s == [] {
      assert t == [] by { assert |t| == |multiset(t)| == |multiset(s)| == 0; }
    } else {
      var i := SameRest(s, t);
      TotalOfPermutation(f, s[1..], t[..i] + t[i + 1..]);
      PullOut(f, t, i);
    }
  }

  /** Legs that pair up as (x, -x), in any order, derive amounts that sum to exactly zero. */
  lemma PairedLegsBalance(s: seq<int>, rate: real)
    requires multiset(s) == multiset(Negated(s))
    ensures DerivedTotal(s, rate) == 0
  {
    TotalOfPermutation(At(rate), s, Negated(s));
    NegatedTotal(s, rate);
  }

  function Equal(n: nat, x: int): seq<int> {
    if n == 0 then [] else [x] + Equal(n - 1, x)
  }

  lemma {:induction false} EqualLegs(f: int -> int, n: nat, x: int)
    ensures |Equal(n, x)| == n && Total(f, Equal(n, x)) == n * f(x) && Sum(Equal(n, x)) == n * x
  {
    if n > 0 {
      EqualLegs(f, n - 1, x);
      assert Equal(n, x)[1..] == Equal(n - 1, x);
      assert n * f(x) == f(x) + (n - 1) * f(x) && n * x == x + (n - 1) * x;
    }
  }

  /** At rate 0.005 a leg of 1.00 is half a cent, rounded up, and a leg of -2.00 m is exactly -m cents. */
  lemma HalfCentLegs(m: nat)
    ensures At(0.005)(10000) == CENT && At(0.005)(-20000 * m) == -CENT * m && At(0.005)(0) == 0
  {
    assert (-20000 * m) as real == -20000.0 * m as real;
    assert -20000.0 * m as real * 0.005 / 100.0 == -(m as real);
    assert (0.5 + m as real).Floor == m;
  }

  lemma {:induction false} SumConcat(s: seq<int>, t: seq<int>)
    ensures Sum(s + t) == Sum(s) + Sum(t)
  {
    if s == [] {
      assert s + t == t;
    } else {
      assert (s + t)[1..] == s[1..] + t;
      SumConcat(s[1..], t);
    }
  }

  /** The sharp case for every odd number of legs: 2m legs of 1.00 against one of -2.00 m drift by m cents. */
  lemma DriftReached(m: nat) returns (s: seq<int>, rate: real)
    ensures rate > 0.0 && |s| == 2 * m + 1 && Sum(s) == 0 && 2 * DerivedTotal(s, rate) == (|s| - 1) * CENT
  {
    var legs, last := Equal(2 * m, 10000), -20000 * m;
    s, rate := legs + [last], 0.005;
    EqualLegs(At(rate), 2 * m, 10000);
    HalfCentLegs(m);
    TotalConcat(At(rate), legs, [last]);
    SumConcat(legs, [last]);
    assert [last][1..] == [] && Sum([last]) == last && Total(At(rate), [last]) == At(rate)(last);
  }
}
