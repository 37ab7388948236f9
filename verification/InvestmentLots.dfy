/**
 * Investment lots and FIFO disposal (src/domain/investment_lot.rs).
 * Quantities and prices are exact decimals, here reals. The lots table is kept
 * in the order of the matching query: acquisition date, then id.
 */
module InvestmentLots {
  import opened Prelude
  import opened Numbers

  datatype Lot = Lot(id: nat, account: nat, acquiredAt: int, qty: real, unitCost: real)

  datatype Disposal = Disposal(lotId: nat, qty: real, unitProceeds: real, disposedAt: int, realizedGain: real)

  datatype DbError = CheckViolation

  function Positive(x: real): real {
    if x >= 0.0 then x else 0.0
  }

  /** The disposed quantity of one lot, as summed by the query's join. */
  function Disposed(disposals: seq<Disposal>, lotId: nat): real {
    if disposals == [] then 0.0
    else
      var k := |disposals| - 1;
      Disposed(disposals[..k], lotId) + if disposals[k].lotId == lotId then disposals[k].qty else 0.0
  }

  function Open(lot: Lot, disposals: seq<Disposal>): real {
    lot.qty - Disposed(disposals, lot.id)
  }

  /** Open quantity per lot of an account; lots of other accounts count as empty. */
  function Opens(lots: seq<Lot>, disposals: seq<Disposal>, account: nat): seq<real> {
    seq(|lots|, i requires 0 <= i < |lots| =>
      if lots[i].account == account then Open(lots[i], disposals) else 0.0)
  }

  /** Reference: what a sale of `q` leaves in each lot when lots are emptied in order. */
  function Left(s: seq<real>, q: real): seq<real> {
    if s == [] then []
    else
      var t := Min(s[0], q);
      [s[0] - t] + Left(s[1..], q - t)
  }

  function DisposalOf(lot: Lot, take: real, price: real, at: int): Disposal {
    Disposal(lot.id, take, price, at, take * price - take * lot.unitCost)
  }

  /** Reference: the disposal rows of that sale, one per lot it draws on. */
  function Match(lots: seq<Lot>, s: seq<real>, q: real, price: real, at: int): seq<Disposal>
    requires |lots| == |s|
  {
    if s == [] then []
    else
      var t := Min(s[0], q);
      (if t > 0.0 then [DisposalOf(lots[0], t, price, at)] else [])
      + Match(lots[1..], s[1..], q - t, price, at)
  }

  function TotalQty(ds: seq<Disposal>): real {
    if ds == [] then 0.0 else ds[0].qty + TotalQty(ds[1..])
  }

  function TotalGain(ds: seq<Disposal>): real {
    if ds == [] then 0.0 else ds[0].realizedGain + TotalGain(ds[1..])
  }

  ghost predicate NonNegative(s: seq<real>) {
    forall i :: 0 <= i < |s| ==> s[i] >= 0.0
  }

  predicate Before(a: Lot, b: Lot) {
    a.acquiredAt < b.acquiredAt || (a.acquiredAt == b.acquiredAt && a.id < b.id)
  }

  /** The table with a lot put at its place in query order. */
  function Inserted(lots: seq<Lot>, lot: Lot): seq<Lot> {
    if lots != [] && Before(lots[0], lot) then [lots[0]] + Inserted(lots[1..], lot) else [lot] + lots
  }

  ghost predicate ValidLots(lots: seq<Lot>) {
    && (forall i, j :: 0 <= i < j < |lots| ==> Before(lots[i], lots[j]) && lots[i].id != lots[j].id)
    && (forall i :: 0 <= i < |lots| ==> lots[i].qty > 0.0 && lots[i].unitCost >= 0.0)
  }

  ghost predicate HasLot(lots: seq<Lot>, id: nat) {
    exists j :: 0 <= j < |lots| && lots[j].id == id
  }

  /** Unique ids in query order, every disposal on a known lot, and no lot over-disposed. */
  ghost predicate ValidBook(lots: seq<Lot>, disposals: seq<Disposal>) {
    && ValidLots(lots)
    && (forall i :: 0 <= i < |disposals| ==> HasLot(lots, disposals[i].lotId))
    && (forall i :: 0 <= i < |lots| ==> Open(lots[i], disposals) >= 0.0)
  }

  lemma {:induction false} DisposedOfUnknownLot(disposals: seq<Disposal>, id: nat, lots: seq<Lot>)
    requires forall i :: 0 <= i < |disposals| ==> HasLot(lots, disposals[i].lotId)
    requires !HasLot(lots, id)
    ensures Disposed(disposals, id) == 0.0
  {
    if disposals != [] {
      DisposedOfUnknownLot(disposals[..|disposals| - 1], id, lots);
    }
  }

  lemma InsertKeepsOrder(lots: seq<Lot>, p: nat, lot: Lot)
    requires ValidLots(lots) && p <= |lots|
    requires lot.qty > 0.0 && lot.unitCost >= 0.0 && forall i :: 0 <= i < |lots| ==> lots[i].id != lot.id
    requires forall i :: 0 <= i < p ==> Before(lots[i], lot)
    requires p < |lots| ==> !Before(lots[p], lot)
    ensures ValidLots(lots[..p] + [lot] + lots[p..])
  {
    forall i | p <= i < |lots| ensures Before(lot, lots[i]) {
      assert Before(lot, lots[p]);
    }
  }

  lemma InsertKeepsKnown(lots: seq<Lot>, p: nat, lot: Lot, id: nat)
    requires p <= |lots| && HasLot(lots, id)
    ensures HasLot(lots[..p] + [lot] + lots[p..], id)
  {
    var j :| 0 <= j < |lots| && lots[j].id == id;
    assert (lots[..p] + [lot] + lots[p..])[if j < p then j else j + 1] == lots[j];
  }

  lemma InsertKeepsBook(lots: seq<Lot>, disposals: seq<Disposal>, p: nat, lot: Lot)
    requires ValidBook(lots, disposals) && p <= |lots|
    requires lot.qty > 0.0 && lot.unitCost >= 0.0 && forall i :: 0 <= i < |lots| ==> lots[i].id != lot.id
    requires forall i :: 0 <= i < p ==> Before(lots[i], lot)
    requires p < |lots| ==> !Before(lots[p], lot)
    ensures ValidBook(lots[..p] + [lot] + lots[p..], disposals)
  {
    InsertKeepsOrder(lots, p, lot);
    forall i | 0 <= i < |disposals| ensures HasLot(lots[..p] + [lot] + lots[p..], disposals[i].lotId) {
      InsertKeepsKnown(lots, p, lot, disposals[i].lotId);
    }
    DisposedOfUnknownLot(disposals, lot.id, lots);
  }

  /** Number of lots with nothing left, the measure that bounds the matching loop. */
  ghost function Exhausted(s: seq<real>): (n: nat)
    ensures n <= |s|
  {
    if s == [] then 0 else (if s[0] == 0.0 then 1 else 0) + Exhausted(s[1..])
  }

  /** Loop invariant of the match: rows made so far plus the reference rows still to come. */
  ghost predicate Selling(lots: seq<Lot>, was: seq<Disposal>, disposals: seq<Disposal>, account: nat,
                          made: seq<Disposal>, q: real, remaining: real, price: real, at: int) {
    && ValidBook(lots, disposals) && disposals == was + made
    && made + Match(lots, Opens(lots, disposals, account), remaining, price, at)
       == Match(lots, Opens(lots, was, account), q, price, at)
    && Left(Opens(lots, disposals, account), remaining) == Left(Opens(lots, was, account), q)
    && (forall other :: other != account ==> Opens(lots, disposals, other) == Opens(lots, was, other))
  }

  lemma BookOpens(lots: seq<Lot>, disposals: seq<Disposal>, account: nat)
    requires ValidBook(lots, disposals)
    ensures NonNegative(Opens(lots, disposals, account))
  {
  }

  lemma {:induction false} ExhaustedStep(s: seq<real>, k: nat, take: real)
    requires k < |s| && s[k] > 0.0 && 0.0 < take <= s[k]
    ensures Exhausted(s[k := s[k] - take]) == Exhausted(s) + if take == s[k] then 1 else 0
  {
    var s' := s[k := s[k] - take];
    if k == 0 {
      assert s'[1..] == s[1..];
    } else {
      assert s'[1..] == s[1..][k - 1 := s[k] - take];
      ExhaustedStep(s[1..], k - 1, take);
    }
  }

  /** One turn of the loop peels exactly the first disposal off the reference list. */
  lemma {:induction false} MatchStep(lots: seq<Lot>, s: seq<real>, k: nat, q: real, price: real, at: int)
    requires |lots| == |s| && k < |s| && q > 0.0 && NonNegative(s)
    requires s[k] > 0.0 && forall i :: 0 <= i < k ==> s[i] == 0.0
    ensures var take := Min(s[k], q); var s' := s[k := s[k] - take];
            && Match(lots, s, q, price, at)
               == [DisposalOf(lots[k], take, price, at)] + Match(lots, s', q - take, price, at)
            && Left(s, q) == Left(s', q - take)
  {
    var take := Min(s[k], q);
    var s' := s[k := s[k] - take];
    if k == 0 {
      assert s'[1..] == s[1..];
    } else {
      assert s'[1..] == s[1..][k - 1 := s[k] - take];
      MatchStep(lots[1..], s[1..], k - 1, q, price, at);
    }
  }

  /** Recording a disposal on one lot changes that lot's open quantity and no other. */
  lemma SellFromLot(lots: seq<Lot>, disposals: seq<Disposal>, k: nat, d: Disposal)
    requires ValidLots(lots) && k < |lots| && d.lotId == lots[k].id
    ensures var account := lots[k].account;
            && Opens(lots, disposals + [d], account)
               == Opens(lots, disposals, account)[k := Open(lots[k], disposals) - d.qty]
            && (forall other :: other != account ==>
                  Opens(lots, disposals + [d], other) == Opens(lots, disposals, other))
    ensures forall i :: 0 <= i < |lots| ==>
      Open(lots[i], disposals + [d]) == Open(lots[i], disposals) - if i == k then d.qty else 0.0
  {
    assert (disposals + [d])[..|disposals|] == disposals;
    forall i | 0 <= i < |lots|
      ensures Open(lots[i], disposals + [d]) == Open(lots[i], disposals) - if i == k then d.qty else 0.0
    {
      assert i < k ==> lots[i].id != lots[k].id;
      assert k < i ==> lots[k].id != lots[i].id;
    }
  }

  lemma OpenAfter(lot: Lot, disposals: seq<Disposal>, d: Disposal)
    ensures Open(lot, disposals + [d]) == Open(lot, disposals) - if d.lotId == lot.id then d.qty else 0.0
  {
    assert (disposals + [d])[..|disposals|] == disposals;
  }

  /** One turn of the matching loop: the book stays valid and the reference advances by one row. */
  lemma SaleKeepsBook(lots: seq<Lot>, disposals: seq<Disposal>, k: nat, take: real, price: real, at: int)
    requires ValidBook(lots, disposals) && k < |lots| && 0.0 < take <= Open(lots[k], disposals)
    ensures ValidBook(lots, disposals + [DisposalOf(lots[k], take, price, at)])
  {
    var d := DisposalOf(lots[k], take, price, at);
    SellFromLot(lots, disposals, k, d);
    assert HasLot(lots, d.lotId);
    forall i | 0 <= i < |lots| ensures Open(lots[i], disposals + [d]) >= 0.0 {
      OpenAfter(lots[i], disposals, d);
    }
  }

  lemma SaleStep(lots: seq<Lot>, disposals: seq<Disposal>, k: nat, q: real, price: real, at: int)
    requires ValidBook(lots, disposals) && k < |lots| && q > 0.0
    requires var s := Opens(lots, disposals, lots[k].account);
             s[k] > 0.0 && forall i :: 0 <= i < k ==> s[i] == 0.0
    ensures var account := lots[k].account; var s := Opens(lots, disposals, account);
            var take := Min(s[k], q); var d := DisposalOf(lots[k], take, price, at);
            var s' := s[k := s[k] - take];
            && ValidBook(lots, disposals + [d]) && Opens(lots, disposals + [d], account) == s'
            && (forall other :: other != account ==>
                  Opens(lots, disposals + [d], other) == Opens(lots, disposals, other))
            && Match(lots, s, q, price, at) == [d] + Match(lots, s', q - take, price, at)
            && Left(s, q) == Left(s', q - take)
            && Exhausted(s') == Exhausted(s) + if take == s[k] then 1 else 0
  {
    var s := Opens(lots, disposals, lots[k].account);
    var take := Min(s[k], q);
    BookOpens(lots, disposals, lots[k].account);
    MatchStep(lots, s, k, q, price, at);
    SellFromLot(lots, disposals, k, DisposalOf(lots[k], take, price, at));
    SaleKeepsBook(lots, disposals, k, take, price, at);
    ExhaustedStep(s, k, take);
  }

  lemma SellingAdvances(lots: seq<Lot>, was: seq<Disposal>, disposals: seq<Disposal>, made: seq<Disposal>,
                        k: nat, q: real, remaining: real, price: real, at: int)
    requires k < |lots| && remaining > 0.0
    requires Selling(lots, was, disposals, lots[k].account, made, q, remaining, price, at)
    requires var s := Opens(lots, disposals, lots[k].account);
             s[k] > 0.0 && forall i :: 0 <= i < k ==> s[i] == 0.0
    ensures var account := lots[k].account; var s := Opens(lots, disposals, account);
            var take := Min(s[k], remaining); var d := DisposalOf(lots[k], take, price, at);
            && Selling(lots, was, disposals + [d], account, made + [d], q, remaining - take, price, at)
            && Match(lots, Opens(lots, was, account), q, price, at) != []
            && Exhausted(Opens(lots, disposals + [d], account)) == Exhausted(s) + if take == s[k] then 1 else 0
  {
    var s := Opens(lots, disposals, lots[k].account);
    var take := Min(s[k], remaining);
    var d := DisposalOf(lots[k], take, price, at);
    SaleStep(lots, disposals, k, remaining, price, at);
    var rest := Match(lots, s[k := s[k] - take], remaining - take, price, at);
    assert made + ([d] + rest) == (made + [d]) + rest;
    assert was + made + [d] == was + (made + [d]);
  }

  lemma {:induction false} MatchDone(lots: seq<Lot>, s: seq<real>, q: real, price: real, at: int)
    requires |lots| == |s| && q >= 0.0 && NonNegative(s)
    requires q == 0.0 || forall i :: 0 <= i < |s| ==> s[i] == 0.0
    ensures Match(lots, s, q, price, at) == [] && Left(s, q) == s
  {
    if s != [] {
      MatchDone(lots[1..], s[1..], q, price, at);
    }
  }

  lemma SellingEnds(lots: seq<Lot>, was: seq<Disposal>, disposals: seq<Disposal>, account: nat,
                    made: seq<Disposal>, q: real, remaining: real, price: real, at: int)
    requires Selling(lots, was, disposals, account, made, q, remaining, price, at) && remaining >= 0.0
    requires remaining == 0.0 || forall i :: 0 <= i < |lots| ==> Opens(lots, disposals, account)[i] == 0.0
    ensures made == Match(lots, Opens(lots, was, account), q, price, at)
    ensures Opens(lots, disposals, account) == Left(Opens(lots, was, account), q)
  {
    BookOpens(lots, disposals, account);
    MatchDone(lots, Opens(lots, disposals, account), remaining, price, at);
    assert made + [] == made;
  }

  class LotBook {
    var lots: seq<Lot>
    var disposals: seq<Disposal>

    ghost predicate Valid()
      reads this
    {
      ValidBook(lots, disposals)
    }

    constructor ()
      ensures Valid() && lots == [] && disposals == []
    {
      lots, disposals := [], [];
    }

    /** Buy: the table's CHECK constraints refuse a non-positive quantity or a negative cost. */
    method InsertLot(lot: Lot) returns (r: Result<nat, DbError>)
      requires Valid() && forall i :: 0 <= i < |lots| ==> lots[i].id != lot.id
      modifies this`lots
      ensures Valid()
      ensures r == if lot.qty > 0.0 && lot.unitCost >= 0.0 then Ok(lot.id) else Err(CheckViolation)
      ensures lots == if r.Ok? then Inserted(old(lots), lot) else old(lots)
    {
      if !(lot.qty > 0.0 && lot.unitCost >= 0.0) {
        return Err(CheckViolation);
      }
      var p := PlaceOf(lot);
      InsertKeepsBook(lots, disposals, p, lot);
      lots := lots[..p] + [lot] + lots[p..];
      r := Ok(lot.id);
    }

    /** The position of a lot in query order. */
    method PlaceOf(lot: Lot) returns (p: nat)
      ensures p <= |lots| && Inserted(lots, lot) == lots[..p] + [lot] + lots[p..]
      ensures (forall i :: 0 <= i < p ==> Before(lots[i], lot)) && (p < |lots| ==> !Before(lots[p], lot))
    {
      p := 0;
      while p < |lots| && Before(lots[p], lot)
        invariant 0 <= p <= |lots|
        invariant Inserted(lots, lot) == lots[..p] + Inserted(lots[p..], lot)
        invariant forall i :: 0 <= i < p ==> Before(lots[i], lot)
      {
        assert lots[p..][1..] == lots[p + 1..];
        p := p + 1;
      }
    }

    /** Sell: draws on the oldest open lot until the quantity or the lots run out. */
    method FifoMatch(account: nat, sellQty: real, price: real, at: int)
      returns (r: Result<seq<Disposal>, DbError>)
      requires Valid()
      modifies this`disposals
      ensures Valid()
      ensures r.Err? <==>
        price < 0.0 && Match(lots, Opens(lots, old(disposals), account), Positive(sellQty), price, at) != []
      ensures r.Err? ==> disposals == old(disposals)
      ensures r.Ok? ==>
        && r.value == Match(lots, Opens(lots, old(disposals), account), Positive(sellQty), price, at)
        && disposals == old(disposals) + r.value
        && Opens(lots, disposals, account) == Left(Opens(lots, old(disposals), account), Positive(sellQty))
      ensures forall other :: other != account ==> Opens(lots, disposals, other) == Opens(lots, old(disposals), other)
    {
      var remaining := sellQty;
      var made: seq<Disposal> := [];
      ghost var was := disposals;
      assert was + [] == was;
      while remaining > 0.0
        invariant Selling(lots, was, disposals, account, made, Positive(sellQty), Positive(remaining), price, at)
        invariant price < 0.0 ==> made == []
        invariant remaining < 0.0 ==> remaining == sellQty
        decreases |lots| - Exhausted(Opens(lots, disposals, account)), if remaining > 0.0 then 1 else 0
      {
        var k := OldestOpen(account);
        if k == |lots| {
          break;
        }
        var available := Open(lots[k], disposals);
        var take := if available <= remaining then available else remaining;
        var d := DisposalOf(lots[k], take, price, at);
        SellingAdvances(lots, was, disposals, made, k, Positive(sellQty), remaining, price, at);
        if price < 0.0 {
          return Err(CheckViolation);
        }
        made := made + [d];
        disposals := disposals + [d];
        remaining := remaining - take;
      }
      SellingEnds(lots, was, disposals, account, made, Positive(sellQty), Positive(remaining), price, at);
      r := Ok(made);
    }

    /** The candidate query: the first lot of the account with something left. */
    method OldestOpen(account: nat) returns (k: nat)
      requires Valid()
      ensures k <= |lots|
      ensures var s := Opens(lots, disposals, account);
              && (forall i :: 0 <= i < k ==> s[i] == 0.0)
              && (k < |lots| ==> lots[k].account == account && s[k] > 0.0)
    {
      k := 0;
      while k < |lots| && !(lots[k].account == account && Open(lots[k], disposals) > 0.0)
        invariant 0 <= k <= |lots|
        invariant forall i :: 0 <= i < k ==> Opens(lots, disposals, account)[i] == 0.0
      {
        k := k + 1;
      }
    }

    method RemainingQty(account: nat) returns (total: real)
      ensures total == RealSum(Opens(lots, disposals, account))
    {
      total := 0.0;
      ghost var s := Opens(lots, disposals, account);
      for i := 0 to |lots|
        invariant total + RealSum(s[i..]) == RealSum(s)
      {
        assert s[i..][1..] == s[i + 1..];
        if lots[i].account == account {
          total := total + Open(lots[i], disposals);
        }
      }
    }
  }

  lemma {:induction false} SumNonNegative(s: seq<real>)
    requires NonNegative(s)
    ensures RealSum(s) >= 0.0
  {
    if s != [] { SumNonNegative(s[1..]); }
  }

  lemma {:induction false} LeftNonNegative(s: seq<real>, q: real)
    requires q >= 0.0 && NonNegative(s)
    ensures |Left(s, q)| == |s| && NonNegative(Left(s, q))
  {
    if s != [] { LeftNonNegative(s[1..], q - Min(s[0], q)); }
  }

  lemma {:induction false} LeftSum(s: seq<real>, q: real)
    requires q >= 0.0 && NonNegative(s)
    ensures RealSum(Left(s, q)) == RealSum(s) - Min(q, RealSum(s))
  {
    if s != [] {
      var t := Min(s[0], q);
      LeftSum(s[1..], q - t);
      SumNonNegative(s[1..]);
      assert ([s[0] - t] + Left(s[1..], q - t))[1..] == Left(s[1..], q - t);
    }
  }

  lemma {:induction false} MatchQty(lots: seq<Lot>, s: seq<real>, q: real, price: real, at: int)
    requires |lots| == |s| && q >= 0.0 && NonNegative(s)
    ensures TotalQty(Match(lots, s, q, price, at)) == Min(q, RealSum(s))
  {
    if s != [] {
      var t := Min(s[0], q);
      MatchQty(lots[1..], s[1..], q - t, price, at);
      SumNonNegative(s[1..]);
      var rest := Match(lots[1..], s[1..], q - t, price, at);
      if t > 0.0 {
        assert ([DisposalOf(lots[0], t, price, at)] + rest)[1..] == rest;
      } else {
        assert [] + rest == rest;
      }
    }
  }

  /** A sale disposes of exactly min(quantity, open quantity), and the holding shrinks by as much. */
  lemma SaleConserves(lots: seq<Lot>, s: seq<real>, q: real, price: real, at: int)
    requires |lots| == |s| && q >= 0.0 && NonNegative(s)
    ensures TotalQty(Match(lots, s, q, price, at)) == Min(q, RealSum(s))
    ensures RealSum(Left(s, q)) == RealSum(s) - Min(q, RealSum(s))
    ensures |Left(s, q)| == |s| && NonNegative(Left(s, q))
  {
    MatchQty(lots, s, q, price, at);
    LeftSum(s, q);
    LeftNonNegative(s, q);
  }

  /** A purchase adds its quantity to its own account's holding and to no other. */
  lemma {:induction false} PurchaseConserves(lots: seq<Lot>, lot: Lot, disposals: seq<Disposal>, account: nat)
    requires Disposed(disposals, lot.id) == 0.0
    ensures RealSum(Opens(Inserted(lots, lot), disposals, account))
         == RealSum(Opens(lots, disposals, account)) + if lot.account == account then lot.qty else 0.0
  {
    var after := Inserted(lots, lot);
    assert Opens(after, disposals, account)[1..] == Opens(after[1..], disposals, account);
    if lots != [] && Before(lots[0], lot) {
      assert Opens(lots, disposals, account)[1..] == Opens(lots[1..], disposals, account);
      PurchaseConserves(lots[1..], lot, disposals, account);
    }
  }

  function Clamp(x: real, hi: real): real {
    if x < 0.0 then 0.0 else if x > hi then hi else x
  }

  lemma {:induction false} LeftLength(s: seq<real>, q: real)
    ensures |Left(s, q)| == |s|
  {
    if s != [] { LeftLength(s[1..], q - Min(s[0], q)); }
  }

  /** Closed form: a lot gives up the part of the sale that the lots before it cannot cover. */
  lemma {:induction false} LotShare(s: seq<real>, q: real, i: nat)
    requires q >= 0.0 && NonNegative(s) && i < |s|
    ensures |Left(s, q)| == |s|
    ensures Left(s, q)[i] == s[i] - Clamp(q - RealSum(s[..i]), s[i])
  {
    if i > 0 {
      LotShare(s[1..], q - Min(s[0], q), i - 1);
      assert s[..i][1..] == s[1..][..i - 1];
      SumNonNegative(s[1..][..i - 1]);
    } else {
      LeftLength(s[1..], q - Min(s[0], q));
    }
  }

  /** First in, first out: a lot is touched only when every older lot is used up. */
  lemma OldestFirst(s: seq<real>, q: real, j: nat, i: nat)
    requires q >= 0.0 && NonNegative(s) && j < i < |s|
    ensures |Left(s, q)| == |s|
    ensures Left(s, q)[i] != s[i] ==> Left(s, q)[j] == 0.0
  {
    LotShare(s, q, i);
    LotShare(s, q, j);
    assert s[..i] == s[..j] + [s[j]] + s[j + 1..i];
    RealSumConcat(s[..j], [s[j]]);
    RealSumConcat(s[..j] + [s[j]], s[j + 1..i]);
    SumNonNegative(s[j + 1..i]);
    assert [s[j]][1..] == [];
  }

  /** What a sale takes from each lot. */
  function Takes(s: seq<real>, q: real): seq<real> {
    if s == [] then [] else [Min(s[0], q)] + Takes(s[1..], q - Min(s[0], q))
  }

  function GainFrom(lot: Lot, take: real, price: real): real {
    take * price - take * lot.unitCost
  }

  function GainOf(lots: seq<Lot>, takes: seq<real>, price: real): real
    requires |lots| == |takes|
  {
    if lots == [] then 0.0 else GainFrom(lots[0], takes[0], price) + GainOf(lots[1..], takes[1..], price)
  }

  function Plus(x: seq<real>, y: seq<real>): seq<real>
    requires |x| == |y|
  {
    seq(|x|, i requires 0 <= i < |x| => x[i] + y[i])
  }

  lemma GainFromAdds(lot: Lot, t: real, u: real, price: real)
    ensures GainFrom(lot, t, price) + GainFrom(lot, u, price) == GainFrom(lot, t + u, price)
    ensures GainFrom(lot, 0.0, price) == 0.0
  {
    assert (t + u) * price == t * price + u * price;
    assert (t + u) * lot.unitCost == t * lot.unitCost + u * lot.unitCost;
  }

  lemma {:induction false} GainOfAdds(lots: seq<Lot>, x: seq<real>, y: seq<real>, price: real)
    requires |lots| == |x| == |y|
    ensures GainOf(lots, x, price) + GainOf(lots, y, price) == GainOf(lots, Plus(x, y), price)
  {
    if lots != [] {
      GainOfAdds(lots[1..], x[1..], y[1..], price);
      assert Plus(x, y)[1..] == Plus(x[1..], y[1..]);
      GainFromAdds(lots[0], x[0], y[0], price);
    }
  }

  lemma FirstRowGain(lot: Lot, t: real, price: real, at: int, rest: seq<Disposal>)
    requires t >= 0.0
    ensures TotalGain((if t > 0.0 then [DisposalOf(lot, t, price, at)] else []) + rest)
         == GainFrom(lot, t, price) + TotalGain(rest)
  {
    if t > 0.0 {
      assert ([DisposalOf(lot, t, price, at)] + rest)[1..] == rest;
    } else {
      assert [] + rest == rest;
      GainFromAdds(lot, t, t, price);
    }
  }

  /** The gain of the disposal rows is the gain of what was taken from each lot. */
  lemma {:induction false} MatchGain(lots: seq<Lot>, s: seq<real>, q: real, price: real, at: int)
    requires |lots| == |s| && q >= 0.0 && NonNegative(s)
    ensures |Takes(s, q)| == |s|
    ensures TotalGain(Match(lots, s, q, price, at)) == GainOf(lots, Takes(s, q), price)
  {
    if s != [] {
      var t := Min(s[0], q);
      var rest := Match(lots[1..], s[1..], q - t, price, at);
      MatchGain(lots[1..], s[1..], q - t, price, at);
      assert Takes(s, q)[1..] == Takes(s[1..], q - t);
      FirstRowGain(lots[0], t, price, at, rest);
    }
  }

  /** What is taken from a lot is what it loses. */
  lemma {:induction false} TakesAreLosses(s: seq<real>, q: real)
    ensures |Takes(s, q)| == |Left(s, q)| == |s|
    ensures forall i :: 0 <= i < |s| ==> Takes(s, q)[i] == s[i] - Left(s, q)[i]
  {
    if s != [] {
      TakesAreLosses(s[1..], q - Min(s[0], q));
    }
  }

  lemma LeftCons(x: real, rest: seq<real>, q: real)
    ensures Left([x] + rest, q) == [x - Min(x, q)] + Left(rest, q - Min(x, q))
  {
    assert ([x] + rest)[1..] == rest;
  }

  lemma SplitMin(x: real, a: real, b: real)
    requires x >= 0.0 && a >= 0.0 && b >= 0.0
    ensures var t := Min(x, a); var u := Min(x - t, b);
            && a - t >= 0.0 && b - u >= 0.0 && t + u == Min(x, a + b)
            && (a - t) + (b - u) == a + b - Min(x, a + b)
  {
  }

  lemma SplitLeftCons(x: real, rest: seq<real>, a: real, b: real)
    requires x >= 0.0 && a >= 0.0 && b >= 0.0
    requires var t := Min(x, a); var u := Min(x - t, b);
             Left(Left(rest, a - t), b - u) == Left(rest, (a - t) + (b - u))
    ensures Left(Left([x] + rest, a), b) == Left([x] + rest, a + b)
  {
    var t := Min(x, a);
    var once := Left(rest, a - t);
    LeftCons(x, rest, a);
    LeftCons(x - t, once, b);
    LeftCons(x, rest, a + b);
    SplitMin(x, a, b);
  }

  lemma {:induction false} SplitLeft(s: seq<real>, a: real, b: real)
    requires a >= 0.0 && b >= 0.0 && NonNegative(s)
    ensures Left(Left(s, a), b) == Left(s, a + b)
  {
    if s != [] {
      var t := Min(s[0], a);
      SplitMin(s[0], a, b);
      SplitLeft(s[1..], a - t, b - Min(s[0] - t, b));
      SplitLeftCons(s[0], s[1..], a, b);
      assert s == [s[0]] + s[1..];
    }
  }

  lemma LossesAdd(s: seq<real>, l: seq<real>, m: seq<real>, x: seq<real>, y: seq<real>, z: seq<real>)
    requires |s| == |l| == |m| == |x| == |y| == |z|
    requires forall i :: 0 <= i < |s| ==> x[i] == s[i] - l[i]
    requires forall i :: 0 <= i < |s| ==> y[i] == l[i] - m[i]
    requires forall i :: 0 <= i < |s| ==> z[i] == s[i] - m[i]
    ensures z == Plus(x, y)
  {
  }

  lemma TakesAdd(s: seq<real>, a: real, b: real)
    requires a >= 0.0 && b >= 0.0 && NonNegative(s)
    ensures |Takes(s, a)| == |Takes(Left(s, a), b)| == |s|
    ensures Takes(s, a + b) == Plus(Takes(s, a), Takes(Left(s, a), b))
  {
    var once, twice := Left(s, a), Left(s, a + b);
    SplitLeft(s, a, b);
    TakesAreLosses(s, a);
    TakesAreLosses(once, b);
    TakesAreLosses(s, a + b);
    LossesAdd(s, once, twice, Takes(s, a), Takes(once, b), Takes(s, a + b));
  }

  lemma GainAdds(lots: seq<Lot>, s: seq<real>, a: real, b: real, price: real, at: int)
    requires |lots| == |s| && a >= 0.0 && b >= 0.0 && NonNegative(s) && |Left(s, a)| == |lots|
    ensures TotalGain(Match(lots, s, a, price, at)) + TotalGain(Match(lots, Left(s, a), b, price, at))
         == TotalGain(Match(lots, s, a + b, price, at))
  {
    LeftNonNegative(s, a);
    TakesAdd(s, a, b);
    MatchGain(lots, s, a, price, at);
    MatchGain(lots, Left(s, a), b, price, at);
    MatchGain(lots, s, a + b, price, at);
    GainOfAdds(lots, Takes(s, a), Takes(Left(s, a), b), price);
  }

  /** Selling a and then b leaves the same lots and the same total gain as selling a + b. */
  lemma SplitSale(lots: seq<Lot>, s: seq<real>, a: real, b: real, price: real, at: int)
    requires |lots| == |s| && a >= 0.0 && b >= 0.0 && NonNegative(s)
    ensures |Left(s, a)| == |s| && Left(Left(s, a), b) == Left(s, a + b)
    ensures TotalGain(Match(lots, s, a, price, at)) + TotalGain(Match(lots, Left(s, a), b, price, at))
         == TotalGain(Match(lots, s, a + b, price, at))
  {
    LeftNonNegative(s, a);
    SplitLeft(s, a, b);
    GainAdds(lots, s, a, b, price, at);
  }

  /** Lots left, and gain made, by a run of sales at one price with no purchase in between. */
  function LeftAfter(s: seq<real>, parts: seq<real>): seq<real>
    decreases |parts|
  {
    if parts == [] then s else LeftAfter(Left(s, parts[0]), parts[1..])
  }

  function GainOver(lots: seq<Lot>, s: seq<real>, parts: seq<real>, price: real, at: int): real
    requires |lots| == |s|
    decreases |parts|
  {
    if parts == [] then 0.0
    else
      LeftLength(s, parts[0]);
      TotalGain(Match(lots, s, parts[0], price, at)) + GainOver(lots, Left(s, parts[0]), parts[1..], price, at)
  }

  lemma {:induction false} LeftOfNothing(s: seq<real>)
    requires NonNegative(s)
    ensures Left(s, 0.0) == s
  {
    if s != [] {
      LeftOfNothing(s[1..]);
      assert s == [s[0]] + s[1..];
    }
  }

  lemma {:induction false} LeftInParts(s: seq<real>, parts: seq<real>)
    requires NonNegative(s) && NonNegative(parts)
    ensures LeftAfter(s, parts) == Left(s, RealSum(parts))
    decreases |parts|
  {
    if parts == [] {
      LeftOfNothing(s);
    } else {
      SumNonNegative(parts[1..]);
      LeftNonNegative(s, parts[0]);
      LeftInParts(Left(s, parts[0]), parts[1..]);
      SplitLeft(s, parts[0], RealSum(parts[1..]));
    }
  }

  lemma {:induction false} GainInParts(lots: seq<Lot>, s: seq<real>, parts: seq<real>, price: real, at: int)
    requires |lots| == |s| && NonNegative(s) && NonNegative(parts)
    ensures GainOver(lots, s, parts, price, at) == TotalGain(Match(lots, s, RealSum(parts), price, at))
    decreases |parts|
  {
    if parts == [] {
      MatchDone(lots, s, 0.0, price, at);
    } else {
      SumNonNegative(parts[1..]);
      LeftNonNegative(s, parts[0]);
      GainInParts(lots, Left(s, parts[0]), parts[1..], price, at);
      GainAdds(lots, s, parts[0], RealSum(parts[1..]), price, at);
    }
  }

  /** However a sale is cut into parts, the lots left and the gain are those of one sale. */
  lemma SaleInParts(lots: seq<Lot>, s: seq<real>, parts: seq<real>, price: real, at: int)
    requires |lots| == |s| && NonNegative(s) && NonNegative(parts)
    ensures LeftAfter(s, parts) == Left(s, RealSum(parts))
    ensures GainOver(lots, s, parts, price, at) == TotalGain(Match(lots, s, RealSum(parts), price, at))
  {
    LeftInParts(s, parts);
    GainInParts(lots, s, parts, price, at);
  }

  /** Row i of the sale: which lot, how much, at what price and date, and what is gained on it. */
  ghost predicate Records(lots: seq<Lot>, s: seq<real>, q: real, price: real, at: int, d: Disposal, k: nat)
    requires |lots| == |s| == |Left(s, q)|
  {
    && k < |lots| && d.lotId == lots[k].id && d.unitProceeds == price && d.disposedAt == at
    && d.qty == s[k] - Left(s, q)[k] && d.qty > 0.0
    && d.realizedGain == d.qty * price - d.qty * lots[k].unitCost
  }

  /** A row for the later lots is one for all lots, with the position shifted. */
  lemma RecordsShift(lots: seq<Lot>, s: seq<real>, q: real, price: real, at: int, d: Disposal, k: nat)
    requires |lots| == |s| && s != [] && |Left(s[1..], q - Min(s[0], q))| == |s| - 1
    requires Records(lots[1..], s[1..], q - Min(s[0], q), price, at, d, k)
    ensures |Left(s, q)| == |s| && Records(lots, s, q, price, at, d, k + 1)
  {
  }

  /** Every disposal row records one lot the sale drew on: quantity taken, price, date, and gain over its cost. */
  lemma {:induction false} RowRecords(lots: seq<Lot>, s: seq<real>, q: real, price: real, at: int, d: Disposal)
    returns (k: nat)
    requires |lots| == |s| && q >= 0.0 && NonNegative(s) && d in Match(lots, s, q, price, at)
    ensures |Left(s, q)| == |s| && Records(lots, s, q, price, at, d, k)
  {
    var t := Min(s[0], q);
    LeftNonNegative(s[1..], q - t);
    if d in Match(lots[1..], s[1..], q - t, price, at) {
      var j := RowRecords(lots[1..], s[1..], q - t, price, at, d);
      RecordsShift(lots, s, q, price, at, d, j);
      k := j + 1;
    } else {
      k := 0;
    }
  }

  /** And every lot the sale drew on has such a row. */
  lemma {:induction false} DrawnIsRecorded(lots: seq<Lot>, s: seq<real>, q: real, price: real, at: int, k: nat)
    returns (d: Disposal)
    requires |lots| == |s| == |Left(s, q)| && q >= 0.0 && NonNegative(s) && k < |s| && Left(s, q)[k] < s[k]
    ensures d in Match(lots, s, q, price, at) && Records(lots, s, q, price, at, d, k)
    decreases |s|
  {
    var t := Min(s[0], q);
    LeftNonNegative(s[1..], q - t);
    if k == 0 {
      d := DisposalOf(lots[0], t, price, at);
    } else {
      d := DrawnIsRecorded(lots[1..], s[1..], q - t, price, at, k - 1);
      RecordsShift(lots, s, q, price, at, d, k - 1);
    }
  }

  /** A purchase puts its lot into the table and leaves every other row there. */
  lemma {:induction false} InsertedExactly(lots: seq<Lot>, lot: Lot)
    ensures multiset(Inserted(lots, lot)) == multiset(lots) + multiset{lot}
  {
    if lots != [] && Before(lots[0], lot) {
      InsertedExactly(lots[1..], lot);
      assert lots == [lots[0]] + lots[1..];
    }
  }

  lemma OrderOfPurchase(lots: seq<Lot>, i: nat, j: nat)
    requires ValidLots(lots) && i < j < |lots|
    ensures lots[i].acquiredAt < lots[j].acquiredAt
            || (lots[i].acquiredAt == lots[j].acquiredAt && lots[i].id < lots[j].id)
  {
    assert Before(lots[i], lots[j]);
  }

  /**
   * First in, first out, in terms of the lots themselves: a sale touches a lot only when
   * every lot of the account acquired earlier, or on the same day under a smaller id, is
   * used up by it.
   */
  lemma SoldInOrderOfPurchase(lots: seq<Lot>, disposals: seq<Disposal>, account: nat, q: real, j: nat, i: nat)
    requires ValidBook(lots, disposals) && q >= 0.0 && i < |lots| && j < |lots|
    requires lots[j].acquiredAt < lots[i].acquiredAt
             || (lots[j].acquiredAt == lots[i].acquiredAt && lots[j].id < lots[i].id)
    ensures var s := Opens(lots, disposals, account);
            |Left(s, q)| == |lots| && (Left(s, q)[i] != s[i] ==> Left(s, q)[j] == 0.0)
  {
    BookOpens(lots, disposals, account);
    LeftLength(Opens(lots, disposals, account), q);
    if j < i {
      OldestFirst(Opens(lots, disposals, account), q, j, i);
    } else if i < j {
      OrderOfPurchase(lots, i, j);
    }
  }
}
