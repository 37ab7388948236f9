/**
 * Sales of lots that overlap (src/domain/investment_lot.rs). `fifo_match` runs each
 * statement on its own, with no transaction around its loop and no lock, so the select of
 * one sale may be followed by other sales' inserts before its own insert.
 */
module LotRaces {
  import opened Prelude
  import opened Numbers
  import opened InvestmentLots

  /** What a select decided: a position in the lots table and a quantity. */
  datatype Choice = Choice(lot: nat, take: real)

  /** One running call; `over` once its loop has ended. */
  datatype Sale = Sale(account: nat, remaining: real, price: real, at: int, chosen: Option<Choice>, over: bool)

  datatype State = State(lots: seq<Lot>, disposals: seq<Disposal>, sales: seq<Sale>)

  datatype Event = Select(i: nat) | Insert(i: nat)

  function OpenAt(s: State, k: nat): real
    requires k < |s.lots|
  {
    Open(s.lots[k], s.disposals)
  }

  /** Position of the oldest open lot of the account at or after k, or the length of the table. */
  function OldestFrom(lots: seq<Lot>, disposals: seq<Disposal>, account: nat, k: nat): (r: nat)
    requires k <= |lots|
    ensures k <= r <= |lots|
    ensures r < |lots| ==> lots[r].account == account && Open(lots[r], disposals) > 0.0
    ensures forall j :: k <= j < r ==> !(lots[j].account == account && Open(lots[j], disposals) > 0.0)
    decreases |lots| - k
  {
    if k == |lots| || (lots[k].account == account && Open(lots[k], disposals) > 0.0) then k
    else OldestFrom(lots, disposals, account, k + 1)
  }

  /** The select of sale i, when its loop goes round. */
  function Selected(s: State, i: nat): Sale
    requires i < |s.sales|
  {
    var sale := s.sales[i];
    var k := OldestFrom(s.lots, s.disposals, sale.account, 0);
    if sale.remaining <= 0.0 || k == |s.lots| then sale.(over := true)
    else sale.(chosen := Some(Choice(k, Min(OpenAt(s, k), sale.remaining))))
  }

  /** The insert of sale i; the table refuses a negative price, which ends the call. */
  function Landed(s: State, i: nat): State
    requires i < |s.sales| && s.sales[i].chosen.Some? && s.sales[i].chosen.value.lot < |s.lots|
  {
    var sale, c := s.sales[i], s.sales[i].chosen.value;
    if sale.price < 0.0 then s.(sales := s.sales[i := sale.(chosen := None, over := true)])
    else
      s.(disposals := s.disposals + [DisposalOf(s.lots[c.lot], c.take, sale.price, sale.at)],
         sales := s.sales[i := sale.(remaining := sale.remaining - c.take, chosen := None)])
  }

  function Step(s: State, e: Event): State {
    if e.i >= |s.sales| || s.sales[e.i].over then s
    else if e.Select? then
      if s.sales[e.i].chosen.Some? then s else s.(sales := s.sales[e.i := Selected(s, e.i)])
    else if s.sales[e.i].chosen.Some? && s.sales[e.i].chosen.value.lot < |s.lots| then Landed(s, e.i)
    else s
  }

  function Run(s: State, events: seq<Event>): State
    decreases |events|
  {
    if events == [] then s else Run(Step(s, events[0]), events[1..])
  }

  /** What sale is about to take from lot k. */
  function Share(sale: Sale, k: nat): real {
    if sale.chosen.Some? && sale.chosen.value.lot == k && sale.price >= 0.0 && !sale.over
    then sale.chosen.value.take else 0.0
  }

  /** What all sales together are about to take from lot k. */
  function Pending(sales: seq<Sale>, k: nat): real {
    if sales == [] then 0.0 else Share(sales[0], k) + Pending(sales[1..], k)
  }

  ghost predicate Valid(s: State) {
    && ValidLots(s.lots)
    && forall i :: 0 <= i < |s.sales| && s.sales[i].chosen.Some? ==>
         s.sales[i].chosen.value.lot < |s.lots| && s.sales[i].chosen.value.take > 0.0
  }

  ghost predicate NoneOverDisposed(s: State) {
    forall k :: 0 <= k < |s.lots| ==> OpenAt(s, k) >= 0.0
  }

  /** Every lot has room for everything that is about to be taken from it. */
  ghost predicate Fits(s: State) {
    forall k :: 0 <= k < |s.lots| ==> Pending(s.sales, k) <= OpenAt(s, k)
  }

  lemma {:induction false} PendingUpdate(sales: seq<Sale>, i: nat, sale: Sale, k: nat)
    requires i < |sales|
    ensures Pending(sales[i := sale], k) == Pending(sales, k) - Share(sales[i], k) + Share(sale, k)
  {
    if i == 0 {
      assert sales[0 := sale][1..] == sales[1..];
    } else {
      assert sales[i := sale][1..] == sales[1..][i - 1 := sale];
      PendingUpdate(sales[1..], i - 1, sale, k);
    }
  }

  lemma {:induction false} PendingNonNegative(sales: seq<Sale>, k: nat)
    requires forall i :: 0 <= i < |sales| && sales[i].chosen.Some? ==> sales[i].chosen.value.take > 0.0
    ensures Pending(sales, k) >= 0.0
  {
    if sales != [] { PendingNonNegative(sales[1..], k); }
  }

  /** An insert moves its sale's share of a lot from pending to disposed. */
  lemma InsertMoves(s: State, i: nat, k: nat)
    requires Valid(s) && i < |s.sales| && s.sales[i].chosen.Some? && !s.sales[i].over && k < |s.lots|
    ensures var after := Step(s, Insert(i));
            && Pending(after.sales, k) == Pending(s.sales, k) - Share(s.sales[i], k)
            && OpenAt(after, k) == OpenAt(s, k) - Share(s.sales[i], k)
  {
    var sale, c := s.sales[i], s.sales[i].chosen.value;
    PendingUpdate(s.sales, i, Step(s, Insert(i)).sales[i], k);
    OpenAfter(s.lots[k], s.disposals, DisposalOf(s.lots[c.lot], c.take, sale.price, sale.at));
    assert c.lot != k ==> s.lots[c.lot].id != s.lots[k].id;
  }

  lemma StepKeepsValid(s: State, e: Event)
    requires Valid(s)
    ensures Valid(Step(s, e)) && Step(s, e).lots == s.lots && |Step(s, e).sales| == |s.sales|
  {
  }

  /** The inserts of the first n sales, without any further select. */
  function LandFirst(s: State, n: nat): State {
    if n == 0 then s else Step(LandFirst(s, n - 1), Insert(n - 1))
  }

  lemma {:induction false} PendingSplit(sales: seq<Sale>, k: nat)
    requires sales != []
    ensures Pending(sales, k) == Pending(sales[..|sales| - 1], k) + Share(sales[|sales| - 1], k)
  {
    if |sales| > 1 {
      PendingSplit(sales[1..], k);
      assert sales[1..][..|sales| - 2] == sales[..|sales| - 1][1..];
    } else {
      assert sales[1..] == [] && sales[..0] == [];
    }
  }

  lemma {:induction false} LandKeepsShape(s: State, n: nat)
    requires Valid(s) && n <= |s.sales|
    ensures var after := LandFirst(s, n);
            && Valid(after) && after.lots == s.lots && |after.sales| == |s.sales|
            && forall j :: n <= j < |s.sales| ==> after.sales[j] == s.sales[j]
  {
    if n > 0 {
      LandKeepsShape(s, n - 1);
      StepKeepsValid(LandFirst(s, n - 1), Insert(n - 1));
    }
  }

  lemma InsertTakes(s: State, i: nat, k: nat)
    requires Valid(s) && i < |s.sales| && k < |s.lots|
    ensures Step(s, Insert(i)).lots == s.lots && OpenAt(Step(s, Insert(i)), k) == OpenAt(s, k) - Share(s.sales[i], k)
  {
    if s.sales[i].chosen.Some? && !s.sales[i].over {
      InsertMoves(s, i, k);
    }
  }

  lemma PendingPrefix(sales: seq<Sale>, n: nat, k: nat)
    requires 0 < n <= |sales|
    ensures Pending(sales[..n], k) == Pending(sales[..n - 1], k) + Share(sales[n - 1], k)
  {
    PendingSplit(sales[..n], k);
    assert sales[..n][..n - 1] == sales[..n - 1];
  }

  lemma LandNext(s: State, n: nat, k: nat)
    requires Valid(s) && n < |s.sales| && k < |s.lots|
    ensures LandFirst(s, n).lots == s.lots == LandFirst(s, n + 1).lots
    ensures OpenAt(LandFirst(s, n + 1), k) == OpenAt(LandFirst(s, n), k) - Share(s.sales[n], k)
  {
    LandKeepsShape(s, n);
    InsertTakes(LandFirst(s, n), n, k);
  }

  lemma {:induction false} LandFirstTakes(s: State, n: nat, k: nat)
    requires Valid(s) && n <= |s.sales| && k < |s.lots|
    ensures LandFirst(s, n).lots == s.lots
    ensures OpenAt(LandFirst(s, n), k) == OpenAt(s, k) - Pending(s.sales[..n], k)
  {
    if n > 0 {
      LandFirstTakes(s, n - 1, k);
      LandNext(s, n - 1, k);
      PendingPrefix(s.sales, n, k);
    }
  }

  lemma {:induction false} LandKeepsLots(s: State, n: nat)
    ensures LandFirst(s, n).lots == s.lots
  {
    if n > 0 { LandKeepsLots(s, n - 1); }
  }

  /** No lot is over-disposed once all pending inserts have landed exactly when all of them fit. */
  lemma LandsSafelyExactly(s: State)
    requires Valid(s)
    ensures NoneOverDisposed(LandFirst(s, |s.sales|)) <==> Fits(s)
  {
    var after := LandFirst(s, |s.sales|);
    LandKeepsLots(s, |s.sales|);
    assert s.sales[..|s.sales|] == s.sales;
    forall k | 0 <= k < |s.lots| ensures OpenAt(after, k) >= 0.0 <==> Pending(s.sales, k) <= OpenAt(s, k) {
      LandFirstTakes(s, |s.sales|, k);
    }
  }

  /**
   * The condition on a select: nobody else is about to take from the lot it finds, or what
   * is left after them covers the whole rest of the sale.
   */
  predicate HasRoom(s: State, i: nat)
    requires i < |s.sales|
  {
    var sale := s.sales[i];
    var k := OldestFrom(s.lots, s.disposals, sale.account, 0);
    (k < |s.lots| && sale.remaining > 0.0 && sale.price >= 0.0) ==>
      Pending(s.sales, k) == 0.0 || Pending(s.sales, k) + sale.remaining <= OpenAt(s, k)
  }

  lemma SelectFitsExactly(s: State, i: nat)
    requires Valid(s) && Fits(s) && i < |s.sales| && s.sales[i].chosen == None && !s.sales[i].over
    ensures Fits(Step(s, Select(i))) <==> HasRoom(s, i)
  {
    var after, sale := Step(s, Select(i)), Selected(s, i);
    forall k: nat | k < |s.lots| ensures Pending(after.sales, k) == Pending(s.sales, k) + Share(sale, k) {
      PendingUpdate(s.sales, i, sale, k);
    }
    if sale.chosen.Some? {
      PendingNonNegative(s.sales, sale.chosen.value.lot);
      assert OpenAt(after, sale.chosen.value.lot) == OpenAt(s, sale.chosen.value.lot);
    }
    assert forall k: nat :: k < |s.lots| ==> OpenAt(after, k) == OpenAt(s, k);
  }

  lemma InsertFits(s: State, i: nat)
    requires Valid(s) && Fits(s)
    ensures Fits(Step(s, Insert(i)))
  {
    if i < |s.sales| && s.sales[i].chosen.Some? && !s.sales[i].over {
      forall k: nat | k < |s.lots|
        ensures Pending(Step(s, Insert(i)).sales, k) <= OpenAt(Step(s, Insert(i)), k)
      {
        InsertMoves(s, i, k);
      }
    }
  }

  /** Every select of the run finds room. */
  ghost predicate RoomyRun(s: State, events: seq<Event>)
    decreases |events|
  {
    events != [] ==>
      && (events[0].Select? && events[0].i < |s.sales| ==> HasRoom(s, events[0].i))
      && RoomyRun(Step(s, events[0]), events[1..])
  }

  lemma FitsIsSafe(s: State)
    requires Valid(s) && Fits(s)
    ensures NoneOverDisposed(s)
  {
    forall k | 0 <= k < |s.lots| ensures OpenAt(s, k) >= 0.0 {
      PendingNonNegative(s.sales, k);
    }
  }

  /** When every select finds room, no interleaving over-disposes a lot at any point. */
  lemma {:induction false} RoomyRunIsSafe(s: State, events: seq<Event>)
    requires Valid(s) && Fits(s) && RoomyRun(s, events)
    ensures Valid(Run(s, events)) && Fits(Run(s, events)) && NoneOverDisposed(Run(s, events))
    decreases |events|
  {
    if events == [] {
      FitsIsSafe(s);
    } else {
      var e := events[0];
      StepKeepsValid(s, e);
      if e.Insert? {
        InsertFits(s, e.i);
      } else if e.i < |s.sales| && s.sales[e.i].chosen == None && !s.sales[e.i].over {
        SelectFitsExactly(s, e.i);
      }
      RoomyRunIsSafe(Step(s, e), events[1..]);
    }
  }

  /** Sales that never overlap always find room: nothing is pending when one selects. */
  lemma {:induction false} NothingPending(sales: seq<Sale>, k: nat)
    requires forall i :: 0 <= i < |sales| ==> sales[i].chosen == None
    ensures Pending(sales, k) == 0.0
  {
    if sales != [] { NothingPending(sales[1..], k); }
  }

  lemma RunCons(s: State, e: Event, rest: seq<Event>)
    ensures Run(s, [e] + rest) == Run(Step(s, e), rest)
  {
    assert ([e] + rest)[1..] == rest;
  }

  lemma FourSteps(s: State, a: Event, b: Event, c: Event, d: Event)
    ensures Run(s, [a, b, c, d]) == Step(Step(Step(Step(s, a), b), c), d)
  {
    RunCons(s, a, [b, c, d]);
    RunCons(Step(s, a), b, [c, d]);
    RunCons(Step(Step(s, a), b), c, [d]);
    RunCons(Step(Step(Step(s, a), b), c), d, []);
    assert [a] + [b, c, d] == [a, b, c, d] && [b] + [c, d] == [b, c, d] && [c] + [d] == [c, d] && [d] + [] == [d];
  }

  /** Two sales of the whole of the only lot: both select it, both insert, and it is sold twice. */
  lemma OverlapOverDisposes(lot: Lot, price: real, at: int)
    requires lot.qty > 0.0 && lot.unitCost >= 0.0 && price >= 0.0
    ensures var sale := Sale(lot.account, lot.qty, price, at, None, false);
            var s := State([lot], [], [sale, sale]);
            && Valid(s) && Fits(s)
            && OpenAt(Run(s, [Select(0), Select(1), Insert(0), Insert(1)]), 0) == -lot.qty
  {
    var sale := Sale(lot.account, lot.qty, price, at, None, false);
    var s := State([lot], [], [sale, sale]);
    NothingPending(s.sales, 0);
    var chosen := sale.(chosen := Some(Choice(0, lot.qty)));
    var d := DisposalOf(lot, lot.qty, price, at);
    var done := sale.(remaining := 0.0);
    var s1 := Step(s, Select(0));
    assert s1 == s.(sales := [chosen, sale]);
    var s2 := Step(s1, Select(1));
    assert s2 == s.(sales := [chosen, chosen]);
    var s3 := Step(s2, Insert(0));
    assert s3 == State([lot], [d], [done, chosen]);
    var s4 := Step(s3, Insert(1));
    assert s4 == State([lot], [d, d], [done, done]);
    OpenAfter(lot, [], d);
    OpenAfter(lot, [d], d);
    assert [] + [d] == [d] && [d] + [d] == [d, d];
    FourSteps(s, Select(0), Select(1), Insert(0), Insert(1));
  }

  /** Selects and inserts of one sale in turn, n times. */
  function Turns(i: nat, n: nat): seq<Event> {
    if n == 0 then [] else [Select(i), Insert(i)] + Turns(i, n - 1)
  }

  lemma TurnsRun(s: State, i: nat, n: nat, rest: seq<Event>)
    ensures Run(s, Turns(i, n + 1) + rest) == Run(Step(Step(s, Select(i)), Insert(i)), Turns(i, n) + rest)
  {
    assert Turns(i, n + 1) + rest == [Select(i)] + ([Insert(i)] + (Turns(i, n) + rest));
    RunCons(s, Select(i), [Insert(i)] + (Turns(i, n) + rest));
    RunCons(Step(s, Select(i)), Insert(i), Turns(i, n) + rest);
  }

  function OpensOf(s: State, i: nat): seq<real>
    requires i < |s.sales|
  {
    Opens(s.lots, s.disposals, s.sales[i].account)
  }

  /** A sale ready for its next turn. */
  ghost predicate Ready(s: State, i: nat) {
    && ValidBook(s.lots, s.disposals) && i < |s.sales|
    && s.sales[i].chosen == None && !s.sales[i].over && s.sales[i].price >= 0.0 && s.sales[i].remaining >= 0.0
  }

  /** The disposals that the whole sale comes to. */
  function Whole(s: State, i: nat): seq<Disposal>
    requires i < |s.sales|
  {
    var sale := s.sales[i];
    Match(s.lots, OpensOf(s, i), sale.remaining, sale.price, sale.at)
  }

  lemma OneTurn(s: State, i: nat, k: nat)
    requires Ready(s, i) && s.sales[i].remaining > 0.0
    requires k == OldestFrom(s.lots, s.disposals, s.sales[i].account, 0) < |s.lots|
    ensures var sale := s.sales[i]; var take := Min(OpenAt(s, k), sale.remaining);
            var d := DisposalOf(s.lots[k], take, sale.price, sale.at);
            var after := Step(Step(s, Select(i)), Insert(i));
            && after.lots == s.lots && after.disposals == s.disposals + [d] && |after.sales| == |s.sales|
            && after.sales[i] == sale.(remaining := sale.remaining - take)
  {
  }

  /** What one turn does, in the terms of the loop's own step. */
  lemma TurnIsStep(s: State, i: nat, k: nat)
    requires Ready(s, i) && s.sales[i].remaining > 0.0
    requires k == OldestFrom(s.lots, s.disposals, s.sales[i].account, 0) < |s.lots|
    ensures var sale, opens := s.sales[i], OpensOf(s, i); var take := Min(opens[k], sale.remaining);
            var d, opens' := DisposalOf(s.lots[k], take, sale.price, sale.at), opens[k := opens[k] - take];
            && 0.0 < take <= sale.remaining && opens[k] > 0.0
            && ValidBook(s.lots, s.disposals + [d]) && Opens(s.lots, s.disposals + [d], sale.account) == opens'
            && Match(s.lots, opens, sale.remaining, sale.price, sale.at)
               == [d] + Match(s.lots, opens', sale.remaining - take, sale.price, sale.at)
            && Exhausted(opens') == Exhausted(opens) + if take == opens[k] then 1 else 0
  {
    assert forall j :: 0 <= j < |s.lots| ==> Open(s.lots[j], s.disposals) >= 0.0;
    SaleStep(s.lots, s.disposals, k, s.sales[i].remaining, s.sales[i].price, s.sales[i].at);
  }

  lemma TurnAdvances(s: State, i: nat, k: nat)
    requires Ready(s, i) && s.sales[i].remaining > 0.0
    requires k == OldestFrom(s.lots, s.disposals, s.sales[i].account, 0) < |s.lots|
    ensures var after := Step(Step(s, Select(i)), Insert(i));
            && Ready(after, i) && after.lots == s.lots
            && s.disposals + Whole(s, i) == after.disposals + Whole(after, i)
            && |Whole(s, i)| == 1 + |Whole(after, i)|
            && (Exhausted(OpensOf(after, i)) > Exhausted(OpensOf(s, i))
                || (Exhausted(OpensOf(after, i)) == Exhausted(OpensOf(s, i)) && after.sales[i].remaining == 0.0))
  {
    OneTurn(s, i, k);
    TurnIsStep(s, i, k);
    var after := Step(Step(s, Select(i)), Insert(i));
    var d := DisposalOf(s.lots[k], Min(OpenAt(s, k), s.sales[i].remaining), s.sales[i].price, s.sales[i].at);
    assert s.disposals + ([d] + Whole(after, i)) == s.disposals + [d] + Whole(after, i);
  }

  lemma NothingLeft(s: State, i: nat)
    requires Ready(s, i)
    requires s.sales[i].remaining == 0.0 || OldestFrom(s.lots, s.disposals, s.sales[i].account, 0) == |s.lots|
    ensures Whole(s, i) == []
  {
    var sale := s.sales[i];
    BookOpens(s.lots, s.disposals, sale.account);
    MatchDone(s.lots, OpensOf(s, i), sale.remaining, sale.price, sale.at);
  }

  /**
   * A sale that nobody disturbs does what the loop as a whole is specified to do: it makes
   * exactly the reference disposals, one per turn, and ends.
   */
  lemma {:induction false} LoneSaleMatches(s: State, i: nat)
    requires Ready(s, i)
    ensures var after := Run(s, Turns(i, |Whole(s, i)|) + [Select(i)]);
            after.disposals == s.disposals + Whole(s, i) && i < |after.sales| && after.sales[i].over
    decreases |s.lots| - Exhausted(OpensOf(s, i)), if s.sales[i].remaining > 0.0 then 1 else 0
  {
    var k := OldestFrom(s.lots, s.disposals, s.sales[i].account, 0);
    if s.sales[i].remaining == 0.0 || k == |s.lots| {
      NothingLeft(s, i);
      assert Turns(i, 0) + [Select(i)] == [Select(i)] + [];
      RunCons(s, Select(i), []);
    } else {
      var after := Step(Step(s, Select(i)), Insert(i));
      TurnAdvances(s, i, k);
      LoneSaleMatches(after, i);
      TurnsRun(s, i, |Whole(after, i)|, [Select(i)]);
    }
  }
}
