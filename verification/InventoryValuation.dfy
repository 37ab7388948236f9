/**
 * FIFO and weighted-average stock valuation (src/domain/inventory_valuation.rs).
 * Costs are exact, here reals; quantities are unbounded integers.
 */
module InventoryValuation {
  import opened Prelude
  import opened Numbers

  datatype Method = Fifo | Average

  /** Non-negative `qty` is a purchase at `unitCost`, negative `qty` a sale. */
  datatype Movement = Movement(qty: int, unitCost: real)

  datatype Layer = Layer(qty: int, cost: real)

  datatype Oversell = Oversell(sale: int, onHand: int)

  type Valuation = Result<(int, real), Oversell>

  function Copies(n: int, cost: real): seq<real> {
    seq(if n > 0 then n else 0, _ => cost)
  }

  function Worth(n: int, cost: real): real {
    n as real * cost
  }

  /** A stack of layers read as single units, oldest first. */
  function Units(layers: seq<Layer>): seq<real> {
    if layers == [] then [] else Copies(layers[0].qty, layers[0].cost) + Units(layers[1..])
  }

  /** Reference: stock as a queue of single units; purchases join the back, sales leave the front. */
  function Queue(ms: seq<Movement>): Result<seq<real>, Oversell> {
    if ms == [] then Ok([])
    else
      match Queue(ms[..|ms| - 1])
      case Err(e) => Err(e)
      case Ok(q) =>
        var m := ms[|ms| - 1];
        if m.qty >= 0 then Ok(q + Copies(m.qty, m.unitCost))
        else if -m.qty > |q| then Err(Oversell(-m.qty, |q|))
        else Ok(q[-m.qty..])
  }

  function QueueValue(ms: seq<Movement>): Valuation {
    match Queue(ms)
    case Err(e) => Err(e)
    case Ok(q) => Ok((|q|, RealSum(q)))
  }

  /** Value left after `need` units leave at the average cost; an emptied stock is worth exactly zero. */
  function Depleted(qty: int, value: real, need: int): real {
    var avg := if qty > 0 then value / qty as real else 0.0;
    if qty == need then 0.0 else value - Worth(need, avg)
  }

  function AverageStep(v: Valuation, m: Movement): Valuation {
    match v
    case Err(e) => Err(e)
    case Ok((qty, value)) =>
      if m.qty >= 0 then Ok((qty + m.qty, value + Worth(m.qty, m.unitCost)))
      else if -m.qty > qty then Err(Oversell(-m.qty, qty))
      else Ok((qty + m.qty, Depleted(qty, value, -m.qty)))
  }

  /** Quantity and value under the running average. */
  function AverageValue(ms: seq<Movement>): Valuation {
    if ms == [] then Ok((0, 0.0)) else AverageStep(AverageValue(ms[..|ms| - 1]), ms[|ms| - 1])
  }

  function Retained(layers: seq<Layer>): seq<Layer> {
    if layers == [] then []
    else (if layers[0].qty > 0 then [layers[0]] else []) + Retained(layers[1..])
  }

  ghost predicate Stocked(layers: seq<Layer>) {
    forall i :: 0 <= i < |layers| ==> layers[i].qty >= 0
  }

  method OnHand(layers: seq<Layer>) returns (n: int)
    requires Stocked(layers)
    ensures n == |Units(layers)|
  {
    n := 0;
    for i := 0 to |layers|
      invariant n + |Units(layers[i..])| == |Units(layers)|
    {
      assert layers[i..][1..] == layers[i + 1..];
      n := n + layers[i].qty;
    }
  }

  lemma {:induction false} CopiesSum(n: int, cost: real)
    requires n >= 0
    ensures RealSum(Copies(n, cost)) == Worth(n, cost)
  {
    if n > 0 {
      CopiesSum(n - 1, cost);
      assert Copies(n, cost)[1..] == Copies(n - 1, cost);
      assert n as real * cost == cost + (n - 1) as real * cost;
    }
  }

  lemma LayerValue(layers: seq<Layer>)
    requires Stocked(layers) && layers != []
    ensures RealSum(Units(layers)) == Worth(layers[0].qty, layers[0].cost) + RealSum(Units(layers[1..]))
  {
    var first, rest := Copies(layers[0].qty, layers[0].cost), Units(layers[1..]);
    assert Units(layers) == first + rest;
    assert RealSum(first + rest) == RealSum(first) + RealSum(rest) by { RealSumConcat(first, rest); }
    assert RealSum(first) == Worth(layers[0].qty, layers[0].cost) by { CopiesSum(layers[0].qty, layers[0].cost); }
  }

  method LayersValue(layers: seq<Layer>) returns (v: real)
    requires Stocked(layers)
    ensures v == RealSum(Units(layers))
  {
    v := 0.0;
    for i := 0 to |layers|
      invariant v + RealSum(Units(layers[i..])) == RealSum(Units(layers))
    {
      LayerValue(layers[i..]);
      assert layers[i..][1..] == layers[i + 1..];
      v := v + Worth(layers[i].qty, layers[i].cost);
    }
  }

  /** Taking from the first non-empty layer pops that many units off the front of the queue. */
  lemma {:induction false} TakeFromLayer(layers: seq<Layer>, j: nat, take: int)
    requires j < |layers| && Stocked(layers) && 0 <= take <= layers[j].qty
    requires forall i :: 0 <= i < j ==> layers[i].qty == 0
    ensures take <= |Units(layers)|
    ensures Units(layers[j := layers[j].(qty := layers[j].qty - take)]) == Units(layers)[take..]
  {
    var layers' := layers[j := layers[j].(qty := layers[j].qty - take)];
    if j == 0 {
      assert Copies(layers[0].qty - take, layers[0].cost) == Copies(layers[0].qty, layers[0].cost)[take..];
      assert layers'[1..] == layers[1..];
    } else {
      assert layers'[1..] == layers[1..][j - 1 := layers[j].(qty := layers[j].qty - take)];
      TakeFromLayer(layers[1..], j - 1, take);
    }
  }

  lemma {:induction false} EmptyLayers(layers: seq<Layer>)
    requires forall i :: 0 <= i < |layers| ==> layers[i].qty == 0
    ensures Units(layers) == []
  {
    if layers != [] { EmptyLayers(layers[1..]); }
  }

  lemma {:induction false} RetainedUnits(layers: seq<Layer>)
    requires Stocked(layers)
    ensures Units(Retained(layers)) == Units(layers) && Stocked(Retained(layers))
  {
    if layers != [] {
      RetainedUnits(layers[1..]);
      if layers[0].qty > 0 {
        assert Retained(layers)[1..] == Retained(layers[1..]);
      } else {
        assert Retained(layers) == Retained(layers[1..]);
      }
    }
  }

  /** The inner loop of a sale: empties the oldest layers, then drops the empty ones. */
  method Consume(start: seq<Layer>, sale: int) returns (layers: seq<Layer>)
    requires Stocked(start) && 0 <= sale <= |Units(start)|
    ensures Stocked(layers) && Units(layers) == Units(start)[sale..]
  {
    layers := start;
    var need := sale;
    var j := 0;
    while j < |layers| && need != 0
      invariant 0 <= j <= |layers| && |layers| == |start| && Stocked(layers)
      invariant 0 <= need <= sale
      invariant Units(layers) == Units(start)[sale - need..]
      invariant need > 0 ==> forall i :: 0 <= i < j ==> layers[i].qty == 0
    {
      var take := if layers[j].qty <= need then layers[j].qty else need;
      TakeFromLayer(layers, j, take);
      assert Units(start)[sale - need..][take..] == Units(start)[sale - need + take..];
      layers := layers[j := layers[j].(qty := layers[j].qty - take)];
      need := need - take;
      j := j + 1;
    }
    if need > 0 {
      EmptyLayers(layers);
    }
    RetainedUnits(layers);
    layers := Retained(layers);
  }

  lemma {:induction false} UnitsAppend(layers: seq<Layer>, l: Layer)
    ensures Units(layers + [l]) == Units(layers) + Copies(l.qty, l.cost)
  {
    if layers != [] {
      assert (layers + [l])[1..] == layers[1..] + [l];
      UnitsAppend(layers[1..], l);
    }
  }

  lemma {:induction false} ErrorSticks(ms: seq<Movement>, n: nat)
    requires n <= |ms| && Queue(ms[..n]).Err?
    ensures Queue(ms) == Queue(ms[..n])
  {
    if n == |ms| {
      assert ms[..n] == ms;
    } else {
      assert ms[..|ms| - 1][..n] == ms[..n];
      ErrorSticks(ms[..|ms| - 1], n);
    }
  }

  method ValuateFifo(ms: seq<Movement>) returns (r: Valuation)
    ensures r == QueueValue(ms)
  {
    var layers: seq<Layer> := [];
    for i := 0 to |ms|
      invariant Stocked(layers) && Queue(ms[..i]) == Ok(Units(layers))
    {
      var m := ms[i];
      assert ms[..i + 1][..i] == ms[..i];
      if m.qty >= 0 {
        UnitsAppend(layers, Layer(m.qty, m.unitCost));
        layers := layers + [Layer(m.qty, m.unitCost)];
      } else {
        var onHand := OnHand(layers);
        if -m.qty > onHand {
          ErrorSticks(ms, i + 1);
          return Err(Oversell(-m.qty, onHand));
        }
        layers := Consume(layers, -m.qty);
      }
    }
    assert ms[..|ms|] == ms;
    var qty := OnHand(layers);
    var value := LayersValue(layers);
    r := Ok((qty, value));
  }

  lemma {:induction false} AverageErrorSticks(ms: seq<Movement>, n: nat)
    requires n <= |ms| && AverageValue(ms[..n]).Err?
    ensures AverageValue(ms) == AverageValue(ms[..n])
  {
    if n == |ms| {
      assert ms[..n] == ms;
    } else {
      assert ms[..|ms| - 1][..n] == ms[..n];
      AverageErrorSticks(ms[..|ms| - 1], n);
    }
  }

  method ValuateAverage(ms: seq<Movement>) returns (r: Valuation)
    ensures r == AverageValue(ms)
  {
    var qty, value := 0, 0.0;
    for i := 0 to |ms|
      invariant AverageValue(ms[..i]) == Ok((qty, value))
    {
      var m := ms[i];
      assert ms[..i + 1][..i] == ms[..i];
      assert AverageValue(ms[..i + 1]) == AverageStep(Ok((qty, value)), m);
      if m.qty >= 0 {
        qty, value := qty + m.qty, value + Worth(m.qty, m.unitCost);
      } else {
        var need := -m.qty;
        if need > qty {
          AverageErrorSticks(ms, i + 1);
          return Err(Oversell(need, qty));
        }
        var avg := if qty > 0 then value / qty as real else 0.0;
        ghost var left := Depleted(qty, value, need);
        qty := qty - need;
        value := if qty == 0 then 0.0 else value - Worth(need, avg);
        assert value == left;
      }
    }
    assert ms[..|ms|] == ms;
    r := Ok((qty, value));
  }

  method Valuate(kind: Method, ms: seq<Movement>) returns (r: Valuation)
    ensures r == match kind case Fifo => QueueValue(ms) case Average => AverageValue(ms)
  {
    match kind
    case Fifo => r := ValuateFifo(ms);
    case Average => r := ValuateAverage(ms);
  }

  /** Net quantity of a movement list: purchases minus sales. */
  function Net(ms: seq<Movement>): int {
    if ms == [] then 0 else Net(ms[..|ms| - 1]) + ms[|ms| - 1].qty
  }

  /** Both methods fail on the same movement with the same figures, or agree on the quantity. */
  lemma {:induction false} MethodsAgree(ms: seq<Movement>)
    ensures Queue(ms).Err? <==> AverageValue(ms).Err?
    ensures Queue(ms).Err? ==> Queue(ms).error == AverageValue(ms).error
    ensures Queue(ms).Ok? ==> |Queue(ms).value| == AverageValue(ms).value.0 == Net(ms)
  {
    if ms != [] {
      MethodsAgree(ms[..|ms| - 1]);
      var m := ms[|ms| - 1];
    }
  }

  /** A valuation fails exactly when some prefix of the movements sells more than was bought. */
  lemma {:induction false} FailsExactlyOnOversell(ms: seq<Movement>)
    ensures Queue(ms).Err? <==> exists n :: 0 <= n <= |ms| && Net(ms[..n]) < 0
  {
    MethodsAgree(ms);
    if ms != [] {
      var front := ms[..|ms| - 1];
      FailsExactlyOnOversell(front);
      MethodsAgree(front);
      assert forall n :: 0 <= n <= |front| ==> front[..n] == ms[..n];
      assert ms[..|ms|] == ms;
      if Queue(ms).Err? && Queue(front).Ok? {
        assert Net(ms[..|ms|]) < 0;
      }
    }
  }

  /** Every unit ever bought, in order of purchase. */
  function Purchased(ms: seq<Movement>): seq<real> {
    if ms == [] then []
    else Purchased(ms[..|ms| - 1]) + Copies(ms[|ms| - 1].qty, ms[|ms| - 1].unitCost)
  }

  function Sold(ms: seq<Movement>): nat {
    if ms == [] then 0
    else Sold(ms[..|ms| - 1]) + if ms[|ms| - 1].qty < 0 then -ms[|ms| - 1].qty else 0
  }

  /**
   * The stock is always the most recently bought units: whatever the interleaving of
   * purchases and sales, the queue is what remains of all purchases after the oldest
   * `Sold` units.
   */
  lemma {:induction false} StockIsLatestPurchases(ms: seq<Movement>)
    requires Queue(ms).Ok?
    ensures Sold(ms) <= |Purchased(ms)| && Queue(ms).value == Purchased(ms)[Sold(ms)..]
  {
    if ms != [] {
      var front, m := ms[..|ms| - 1], ms[|ms| - 1];
      StockIsLatestPurchases(front);
      var all := Purchased(front);
      if m.qty >= 0 {
        assert (all + Copies(m.qty, m.unitCost))[Sold(front)..] == all[Sold(front)..] + Copies(m.qty, m.unitCost);
      } else {
        assert Purchased(ms) == all;
        assert all[Sold(front)..][-m.qty..] == all[Sold(front) - m.qty..];
      }
    }
  }

  /** Stock value plus the cost of the goods sold is everything that was spent. */
  lemma SpendingIsConserved(ms: seq<Movement>)
    requires Queue(ms).Ok?
    ensures Sold(ms) <= |Purchased(ms)|
    ensures RealSum(Purchased(ms)) == RealSum(Purchased(ms)[..Sold(ms)]) + RealSum(Queue(ms).value)
  {
    StockIsLatestPurchases(ms);
    var p := Purchased(ms);
    assert p == p[..Sold(ms)] + p[Sold(ms)..];
    RealSumConcat(p[..Sold(ms)], p[Sold(ms)..]);
  }

  /** Every purchase of at least one unit was made at a cost between `lo` and `hi`. */
  ghost predicate CostsWithin(ms: seq<Movement>, lo: real, hi: real) {
    forall i :: 0 <= i < |ms| && ms[i].qty > 0 ==> lo <= ms[i].unitCost <= hi
  }

  lemma {:induction false} QueueWithin(ms: seq<Movement>, lo: real, hi: real)
    requires CostsWithin(ms, lo, hi) && Queue(ms).Ok?
    ensures forall i :: 0 <= i < |Queue(ms).value| ==> lo <= Queue(ms).value[i] <= hi
  {
    if ms != [] {
      QueueWithin(ms[..|ms| - 1], lo, hi);
      var m := ms[|ms| - 1];
    }
  }

  /** `value` prices `qty` units between `lo` and `hi` each. */
  ghost predicate Within(qty: int, value: real, lo: real, hi: real) {
    qty >= 0 && qty as real * lo <= value <= qty as real * hi
  }

  lemma NothingWithin(lo: real, hi: real)
    ensures Within(0, 0.0, lo, hi)
  {
  }

  lemma AddWithin(qty: int, value: real, n: int, cost: real, lo: real, hi: real)
    requires n >= 0 && Within(qty, value, lo, hi)
    requires n > 0 ==> lo <= cost <= hi
    ensures Within(qty + n, value + Worth(n, cost), lo, hi)
  {
    var a, b := qty as real, n as real;
    assert (a + b) * lo == a * lo + b * lo && (a + b) * hi == a * hi + b * hi;
    if n == 0 {
      assert b * lo == 0.0 && b * hi == 0.0 && b * cost == 0.0;
    } else {
      assert b * (cost - lo) >= 0.0 && b * (hi - cost) >= 0.0;
    }
  }

  lemma {:induction false} SumWithin(s: seq<real>, lo: real, hi: real)
    requires forall i :: 0 <= i < |s| ==> lo <= s[i] <= hi
    ensures Within(|s|, RealSum(s), lo, hi)
  {
    if s == [] {
      NothingWithin(lo, hi);
    } else {
      SumWithin(s[1..], lo, hi);
      AddWithin(|s[1..]|, RealSum(s[1..]), 1, s[0], lo, hi);
    }
  }

  lemma Sign(q: real, x: real)
    requires q > 0.0 && q * x >= 0.0
    ensures x >= 0.0
  {
  }

  /** Selling at the average scales the value with the quantity, so the bounds scale with it. */
  lemma DepleteWithin(qty: int, value: real, need: int, lo: real, hi: real)
    requires 0 < need <= qty && Within(qty, value, lo, hi)
    ensures Within(qty - need, Depleted(qty, value, need), lo, hi)
  {
    if qty == need {
      NothingWithin(lo, hi);
    } else {
      var q, n := qty as real, need as real;
      var avg := value / q;
      assert q * avg == value;
      assert q * (avg - lo) >= 0.0 && q * (hi - avg) >= 0.0;
      Sign(q, avg - lo);
      Sign(q, hi - avg);
      assert value - n * avg == (q - n) * avg;
      assert (q - n) * (avg - lo) >= 0.0 && (q - n) * (hi - avg) >= 0.0;
    }
  }

  lemma {:induction false} AverageWithin(ms: seq<Movement>, lo: real, hi: real)
    requires CostsWithin(ms, lo, hi)
    ensures AverageValue(ms).Ok? ==> Within(AverageValue(ms).value.0, AverageValue(ms).value.1, lo, hi)
  {
    if ms == [] {
      NothingWithin(lo, hi);
    } else {
      var front, m := ms[..|ms| - 1], ms[|ms| - 1];
      AverageWithin(front, lo, hi);
      if AverageValue(front).Ok? {
        var (qty, value) := AverageValue(front).value;
        if m.qty >= 0 {
          AddWithin(qty, value, m.qty, m.unitCost, lo, hi);
        } else if -m.qty <= qty {
          DepleteWithin(qty, value, -m.qty, lo, hi);
        }
      }
    }
  }

  /** Either method values the stock between quantity x lowest and quantity x highest purchase cost. */
  lemma ValueWithinCosts(kind: Method, ms: seq<Movement>, lo: real, hi: real)
    requires CostsWithin(ms, lo, hi)
    ensures var r := match kind case Fifo => QueueValue(ms) case Average => AverageValue(ms);
            r.Ok? ==> Within(r.value.0, r.value.1, lo, hi)
  {
    match kind
    case Fifo =>
      if Queue(ms).Ok? {
        QueueWithin(ms, lo, hi);
        SumWithin(Queue(ms).value, lo, hi);
      }
    case Average =>
      AverageWithin(ms, lo, hi);
  }

  lemma DepletedScales(qty: int, value: real, need: int)
    requires 0 < need < qty
    ensures Depleted(qty, value, need) / (qty - need) as real == value / qty as real
  {
    var q, n, avg := qty as real, need as real, value / qty as real;
    assert q * avg == value;
    assert value - n * avg == (q - n) * avg;
  }

  /** A sale under the average method leaves the cost per unit where it was. */
  lemma AverageSaleKeepsUnitCost(ms: seq<Movement>, m: Movement)
    requires m.qty < 0 && AverageValue(ms).Ok? && AverageValue(ms + [m]).Ok? && AverageValue(ms + [m]).value.0 > 0
    ensures AverageValue(ms).value.0 > 0
    ensures AverageValue(ms + [m]).value.1 / AverageValue(ms + [m]).value.0 as real
         == AverageValue(ms).value.1 / AverageValue(ms).value.0 as real
  {
    assert (ms + [m])[..|ms|] == ms;
    var (qty, value) := AverageValue(ms).value;
    DepletedScales(qty, value, -m.qty);
  }

  /** The FIFO result itself: how many units are left and what those latest purchases cost together. */
  lemma FifoValueExactly(ms: seq<Movement>)
    ensures QueueValue(ms).Ok? <==> forall n :: 0 <= n <= |ms| ==> Net(ms[..n]) >= 0
    ensures QueueValue(ms).Ok? ==>
              && Sold(ms) <= |Purchased(ms)|
              && QueueValue(ms).value == (|Purchased(ms)| - Sold(ms), RealSum(Purchased(ms)[Sold(ms)..]))
  {
    FailsExactlyOnOversell(ms);
    if Queue(ms).Ok? {
      StockIsLatestPurchases(ms);
    }
  }

  /** An oversell, under either method, reports the first sale that finds too little, and what it finds. */
  lemma {:induction false} OversellNamesSale(ms: seq<Movement>) returns (n: nat)
    requires Queue(ms).Err?
    ensures n < |ms| && Queue(ms[..n]).Ok? && Net(ms[..n]) + ms[n].qty < 0
    ensures QueueValue(ms) == AverageValue(ms) == Err(Oversell(-ms[n].qty, Net(ms[..n])))
  {
    var front := ms[..|ms| - 1];
    MethodsAgree(ms);
    if Queue(front).Err? {
      n := OversellNamesSale(front);
      assert front[..n] == ms[..n];
      MethodsAgree(front);
    } else {
      n := |ms| - 1;
      MethodsAgree(front);
    }
  }

  /** Under the average method a purchase adds its own cost, and selling everything leaves a value of zero. */
  lemma AverageExactly(ms: seq<Movement>, m: Movement)
    requires AverageValue(ms + [m]).Ok?
    ensures AverageValue(ms).Ok?
    ensures AverageValue(ms + [m]).value.0 == AverageValue(ms).value.0 + m.qty
    ensures m.qty >= 0 ==>
      AverageValue(ms + [m]).value.1 == AverageValue(ms).value.1 + RealSum(Copies(m.qty, m.unitCost))
    ensures m.qty < 0 && AverageValue(ms + [m]).value.0 == 0 ==> AverageValue(ms + [m]).value.1 == 0.0
  {
    assert (ms + [m])[..|ms|] == ms;
    if m.qty >= 0 { CopiesSum(m.qty, m.unitCost); }
  }
}
