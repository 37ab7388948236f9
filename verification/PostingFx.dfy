/**
 * Foreign legs in the posting service: when the base amounts derived from them pass
 * the balance check (src/domain/posting_service.rs, src/domain/fx.rs).
 */
module PostingFx {
  import opened Prelude
  import opened Numbers
  import opened LedgerTables
  import opened PostingSpec
  import opened PostingRuns
  import Fx

  /** Every line is a foreign leg in the one currency. */
  ghost predicate AllForeign(lines: seq<Line>, currency: string) {
    forall i :: 0 <= i < |lines| ==> lines[i].foreign.Some? && lines[i].foreign.value.currency == currency
  }

  function ForeignAmounts(lines: seq<Line>, currency: string): seq<int>
    requires AllForeign(lines, currency)
  {
    seq(|lines|, i requires 0 <= i < |lines| => lines[i].foreign.value.amount)
  }

  lemma {:induction false} DerivedNet(lines: seq<Line>, rates: RateLookup, base: string, date: int, currency: string)
    requires AllForeign(lines, currency) && rates(currency, base, date).Some?
    ensures var d := Derived(lines, rates, base, date);
            && d.Ok? && |d.value| == |lines|
            && Sum(d.value) == Fx.DerivedTotal(ForeignAmounts(lines, currency), rates(currency, base, date).value)
  {
    if lines != [] {
      DerivedNet(lines[1..], rates, base, date, currency);
      assert ForeignAmounts(lines, currency)[1..] == ForeignAmounts(lines[1..], currency);
      var d := Derived(lines, rates, base, date).value;
      assert d[1..] == Derived(lines[1..], rates, base, date).value;
    }
  }

  lemma EffectiveOfForeign(db: Db, rates: RateLookup, req: Request, currency: string)
    requires req.ledger in db.ledgers && req.lines != [] && AllForeign(req.lines, currency)
    requires rates(currency, db.ledgers[req.ledger].currency, req.date).Some?
    ensures var rate := rates(currency, db.ledgers[req.ledger].currency, req.date).value;
            && Effective(db, rates, req).Ok?
            && Debits(Effective(db, rates, req).value) - Credits(Effective(db, rates, req).value)
               == Fx.DerivedTotal(ForeignAmounts(req.lines, currency), rate)
  {
    assert HasForeign(req.lines) by { assert req.lines[0].foreign.Some?; }
    DerivedNet(req.lines, rates, db.ledgers[req.ledger].currency, req.date, currency);
    DebitsMinusCredits(Effective(db, rates, req).value);
  }

  /** Foreign legs that pair up as (x, -x), in any order, always pass the balance check. */
  lemma PairedForeignLegsPass(db: Db, rates: RateLookup, req: Request, currency: string)
    requires req.ledger in db.ledgers && req.lines != [] && AllForeign(req.lines, currency)
    requires rates(currency, db.ledgers[req.ledger].currency, req.date).Some?
    requires multiset(ForeignAmounts(req.lines, currency)) == multiset(Fx.Negated(ForeignAmounts(req.lines, currency)))
    ensures Effective(db, rates, req).Ok?
    ensures Debits(Effective(db, rates, req).value) == Credits(Effective(db, rates, req).value)
  {
    var rate := rates(currency, db.ledgers[req.ledger].currency, req.date).value;
    EffectiveOfForeign(db, rates, req, currency);
    Fx.PairedLegsBalance(ForeignAmounts(req.lines, currency), rate);
  }

  /** n foreign legs that sum to zero are off balance by at most (n - 1)/2 cents in base currency. */
  lemma ForeignLegsNearlyBalance(db: Db, rates: RateLookup, req: Request, currency: string)
    requires req.ledger in db.ledgers && req.lines != [] && AllForeign(req.lines, currency)
    requires rates(currency, db.ledgers[req.ledger].currency, req.date).Some?
    requires Sum(ForeignAmounts(req.lines, currency)) == 0
    ensures Effective(db, rates, req).Ok?
    ensures var net := Debits(Effective(db, rates, req).value) - Credits(Effective(db, rates, req).value);
            2 * net <= (|req.lines| - 1) * Fx.CENT && -2 * net <= (|req.lines| - 1) * Fx.CENT
  {
    var rate := rates(currency, db.ledgers[req.ledger].currency, req.date).value;
    EffectiveOfForeign(db, rates, req, currency);
    Fx.NetRoundingError(ForeignAmounts(req.lines, currency), rate);
  }
}
