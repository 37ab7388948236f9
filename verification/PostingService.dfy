/**
 * The service calls themselves, working on the tables step by step; each is proved to
 * perform exactly the transition that PostingSpec and PostingClients describe.
 */
module PostingService {
  import opened Prelude
  import opened LedgerTables
  import opened CloseControls
  import opened PostingSpec
  import opened PostingClients
  import Fx

  function Prepend(xs: seq<int>, r: Result<seq<int>, Error>): Result<seq<int>, Error> {
    match r
    case Ok(ys) => Ok(xs + ys)
    case Err(e) => Err(e)
  }

  lemma PrependStep(xs: seq<int>, x: int, r: Result<seq<int>, Error>)
    ensures Prepend(xs + [x], r) == Prepend(xs, Prepend([x], r))
  {
    if r.Ok? { assert xs + [x] + r.value == xs + ([x] + r.value); }
  }

  method DeriveLines(lines: seq<Line>, rates: RateLookup, base: string, date: int)
    returns (r: Result<seq<int>, Error>)
    ensures r == Derived(lines, rates, base, date)
  {
    var derived: seq<int> := [];
    assert lines[0..] == lines;
    assert Derived(lines, rates, base, date).Ok? ==>
      [] + Derived(lines, rates, base, date).value == Derived(lines, rates, base, date).value;
    for i := 0 to |lines|
      invariant Prepend(derived, Derived(lines[i..], rates, base, date)) == Derived(lines, rates, base, date)
    {
      var l := lines[i];
      assert lines[i..][1..] == lines[i + 1..];
      var amount := l.amount;
      if l.foreign.Some? {
        var rate := rates(l.foreign.value.currency, base, date);
        if rate == None {
          return Err(MissingFxRate(l.foreign.value.currency));
        }
        amount := Fx.DeriveBaseAmount(l.foreign.value.amount, rate.value);
      }
      PrependStep(derived, amount, Derived(lines[i + 1..], rates, base, date));
      derived := derived + [amount];
    }
    assert derived + [] == derived;
    r := Ok(derived);
  }

  method SumDebitsCredits(amounts: seq<int>) returns (debits: int, credits: int)
    ensures debits == Debits(amounts) && credits == Credits(amounts)
  {
    debits, credits := 0, 0;
    for i := 0 to |amounts|
      invariant debits + Debits(amounts[i..]) == Debits(amounts)
      invariant credits + Credits(amounts[i..]) == Credits(amounts)
    {
      assert amounts[i..][1..] == amounts[i + 1..];
      if amounts[i] >= 0 {
        debits := debits + amounts[i];
      } else {
        credits := credits + -amounts[i];
      }
    }
  }

  method FindAccountError(accounts: seq<Account>, ledger: nat, lines: seq<Line>) returns (e: Option<Error>)
    ensures e == AccountError(accounts, ledger, lines)
  {
    for i := 0 to |lines|
      invariant AccountError(accounts, ledger, lines[i..]) == AccountError(accounts, ledger, lines)
    {
      assert lines[i..][1..] == lines[i + 1..];
      var a := AccountOf(accounts, lines[i].account);
      if a == None {
        return Some(UnknownAccount(lines[i].account));
      } else if a.value.ledger != ledger {
        return Some(WrongLedger(lines[i].account));
      }
    }
    e := None;
  }

  method FindDimensionError(db: Db, ledger: nat, lines: seq<Line>) returns (e: Option<Error>)
    ensures e == DimensionError(db, ledger, lines)
  {
    for i := 0 to |lines|
      invariant DimensionError(db, ledger, lines[i..]) == DimensionError(db, ledger, lines)
    {
      var l := lines[i];
      assert lines[i..][1..] == lines[i + 1..];
      if l.costCenter.Some? && (l.costCenter.value, ledger) !in db.costCenters {
        return Some(UnknownCostCenter(l.costCenter.value));
      }
      if l.project.Some? && (l.project.value, ledger) !in db.projects {
        return Some(UnknownProject(l.project.value));
      }
    }
    e := None;
  }

  lemma PostingsStep(lines: seq<Line>, amounts: seq<int>, i: nat)
    requires i < |lines| == |amounts|
    ensures PostingsFor(lines[i..], amounts[i..])
         == [PostingFor(lines[i], amounts[i])] + PostingsFor(lines[i + 1..], amounts[i + 1..])
  {
    assert lines[i..][1..] == lines[i + 1..] && amounts[i..][1..] == amounts[i + 1..];
  }

  lemma Reassociate<T>(a: seq<T>, b: seq<T>, c: seq<T>)
    ensures a + (b + c) == a + b + c
  {
  }

  /** The insert loop; None when the amount CHECK of the table refuses a zero leg. */
  method InsertPostings(lines: seq<Line>, amounts: seq<int>) returns (r: Option<seq<Posting>>)
    requires |lines| == |amounts|
    ensures r == if NonZero(amounts) then Some(PostingsFor(lines, amounts)) else None
  {
    var ps: seq<Posting> := [];
    for i := 0 to |lines|
      invariant forall j :: 0 <= j < i ==> amounts[j] != 0
      invariant ps + PostingsFor(lines[i..], amounts[i..]) == PostingsFor(lines, amounts)
    {
      if amounts[i] == 0 {
        return None;
      }
      PostingsStep(lines, amounts, i);
      Reassociate(ps, [PostingFor(lines[i], amounts[i])], PostingsFor(lines[i + 1..], amounts[i + 1..]));
      ps := ps + [Posting(lines[i].account, if amounts[i] >= 0 then amounts[i] else -amounts[i],
                          if amounts[i] >= 0 then Debit else Credit)];
    }
    assert ps + [] == ps;
    r := Some(ps);
  }

  lemma ReopenStep(rows: seq<ClosedRow>, i: nat, ledger: nat, from: Option<int>)
    requires i < |rows|
    ensures Reopen(rows[i..], ledger, from)
         == if Reopened(rows[i], ledger, from) then Reopen(rows[i + 1..], ledger, from)
            else [rows[i]] + Reopen(rows[i + 1..], ledger, from)
  {
    assert rows[i..][1..] == rows[i + 1..];
  }

  /** The rows a reopen leaves in the table. */
  method KeepClosed(rows: seq<ClosedRow>, ledger: nat, from: Option<int>) returns (kept: seq<ClosedRow>)
    ensures kept == Reopen(rows, ledger, from)
  {
    kept := [];
    for i := 0 to |rows|
      invariant kept + Reopen(rows[i..], ledger, from) == Reopen(rows, ledger, from)
    {
      ReopenStep(rows, i, ledger, from);
      if !Reopened(rows[i], ledger, from) {
        Reassociate(kept, [rows[i]], Reopen(rows[i + 1..], ledger, from));
        kept := kept + [rows[i]];
      }
    }
    assert kept + [] == kept;
  }

  lemma OpeningStep(accounts: seq<Account>, txns: seq<Txn>, ledger: nat, targets: map<nat, int>, i: nat)
    requires i < |accounts|
    ensures var a, rest := accounts[i], OpeningLines(accounts[i + 1..], txns, ledger, targets);
            OpeningLines(accounts[i..], txns, ledger, targets)
            == if OnBalanceSheet(a, ledger) && OpeningAmount(txns, a, targets) != 0
               then [PlainLine(a.id, OpeningAmount(txns, a, targets))] + rest else rest
  {
    assert accounts[i..][1..] == accounts[i + 1..];
  }

  /** The loop over the balance-sheet accounts that builds the opening lines. */
  method LinesForTargets(accounts: seq<Account>, txns: seq<Txn>, ledger: nat, targets: map<nat, int>)
    returns (lines: seq<Line>)
    ensures lines == OpeningLines(accounts, txns, ledger, targets)
  {
    lines := [];
    for i := 0 to |accounts|
      invariant lines + OpeningLines(accounts[i..], txns, ledger, targets)
             == OpeningLines(accounts, txns, ledger, targets)
    {
      var a := accounts[i];
      OpeningStep(accounts, txns, ledger, targets, i);
      if OnBalanceSheet(a, ledger) && a.id in targets {
        var delta := targets[a.id] - BalanceOf(txns, a);
        if delta != 0 {
          var line := PlainLine(a.id, if a.kind.Asset? then delta else -delta);
          Reassociate(lines, [line], OpeningLines(accounts[i + 1..], txns, ledger, targets));
          lines := lines + [line];
        }
      }
    }
    assert lines + [] == lines;
  }

  class Books {
    var db: Db

    constructor (db: Db)
      ensures this.db == db
    {
      this.db := db;
    }

    method EffectiveAmounts(rates: RateLookup, req: Request) returns (r: Result<seq<int>, Error>)
      ensures r == Effective(db, rates, req)
    {
      if !HasForeign(req.lines) {
        return Ok(Amounts(req.lines));
      }
      if req.ledger !in db.ledgers {
        return Err(LedgerNotFound);
      }
      r := DeriveLines(req.lines, rates, db.ledgers[req.ledger].currency, req.date);
    }

    method Validate(rates: RateLookup, req: Request, isDraft: bool)
      returns (r: Result<(seq<int>, seq<Posting>), Error>)
      ensures Validated(db, rates, req, isDraft) == (match r case Ok(v) => Ok(v.0) case Err(e) => Err(e))
      ensures r.Ok? ==> |r.value.0| == |req.lines| && r.value.1 == PostingsFor(req.lines, r.value.0)
    {
      ValidatedLength(db, rates, req, isDraft);
      if |req.lines| < 2 {
        return Err(Unbalanced(0, 0));
      }
      var effective := EffectiveAmounts(rates, req);
      if effective.Err? {
        return Err(effective.error);
      }
      var amounts := effective.value;
      var debits, credits := SumDebitsCredits(amounts);
      if debits != credits {
        return Err(Unbalanced(debits, credits));
      }
      if req.ledger !in db.ledgers {
        return Err(LedgerNotFound);
      }
      if !isDraft {
        var w := Watermark(db.closed, req.ledger);
        if IsClosed(w, req.date) {
          return Err(HardClosed(req.ledger, w.value));
        }
      }
      var ae := FindAccountError(db.accounts, req.ledger, req.lines);
      if ae.Some? {
        return Err(ae.value);
      }
      var de := FindDimensionError(db, req.ledger, req.lines);
      if de.Some? {
        return Err(de.value);
      }
      DerivedLength(req.lines, rates, db.ledgers[req.ledger].currency, req.date);
      var ps := InsertPostings(req.lines, amounts);
      if ps == None {
        return Err(CheckViolation);
      }
      r := Ok((amounts, ps.value));
    }

    method CreateWithKind(rates: RateLookup, req: Request, isDraft: bool) returns (r: Result<Created, Error>)
      modifies this
      ensures (db, r) == PostingSpec.CreateWithKind(old(db), rates, req, isDraft)
    {
      var checked := Validate(rates, req, isDraft);
      if checked.Err? {
        return Err(checked.error);
      }
      var (amounts, ps) := checked.value;
      ValidatedLength(db, rates, req, isDraft);
      var total, _ := SumDebitsCredits(amounts);
      var pending := NeedsApproval(db, req, isDraft, total);
      var kind := if pending then Pending else if req.kind.Some? then req.kind.value else Standard;
      var t := Txn(db.nextId, req.ledger, req.date, req.description, kind, req.createdBy, req.reversesId, ps);
      var due: map<nat, Approval> :=
        if pending then map[t.id := Approval(req.ledger, req.createdBy, Awaiting, None, total)] else map[];
      db := db.(txns := db.txns + [t], nextId := db.nextId + 1, inFlight := db.inFlight + due);
      r := Ok(Created(t.id, kind));
    }

    method PostDraft(ledger: nat, id: nat) returns (r: Result<Created, Error>)
      modifies this
      ensures (db, r) == PostingSpec.PostDraft(old(db), ledger, id)
    {
      var t := Lookup(db.txns, id);
      if ledger !in db.ledgers || t == None || t.value.ledger != ledger {
        return Err(LedgerNotFound);
      }
      if t.value.kind != Draft {
        return Err(Unbalanced(0, 0));
      }
      var w := Watermark(db.closed, ledger);
      if IsClosed(w, t.value.date) {
        return Err(HardClosed(ledger, w.value));
      }
      if Sealed(db, id) {
        return Err(AppendOnlyLedger);
      }
      db := db.(txns := SetKind(db.txns, id, Standard));
      r := Ok(Created(id, Standard));
    }

    method DeleteDraft(ledger: nat, id: nat) returns (r: Result<(), Error>)
      modifies this
      ensures (db, r) == PostingSpec.DeleteDraft(old(db), ledger, id)
    {
      var t := Lookup(db.txns, id);
      if t == None || t.value.ledger != ledger {
        return Err(LedgerNotFound);
      }
      if t.value.kind != Draft {
        return Err(Unbalanced(0, 0));
      }
      if Sealed(db, id) {
        return Err(AppendOnlyLedger);
      }
      db := db.(txns := Without(db.txns, id), approvals := db.approvals - {id});
      r := Ok(());
    }

    method ApproveJournal(ledger: nat, id: nat, checker: nat) returns (r: Result<(), Error>)
      modifies this
      ensures (db, r) == PostingSpec.ApproveJournal(old(db), ledger, id, checker)
    {
      var e := DecisionError(db, ledger, id, checker);
      if e.Some? {
        return Err(e.value);
      }
      var t := Lookup(db.txns, id);
      if t.Some? && t.value.ledger == ledger {
        if Sealed(db, id) {
          return Err(AppendOnlyLedger);
        }
        db := db.(txns := SetKind(db.txns, id, Standard));
      }
      db := db.(approvals := db.approvals[id := db.approvals[id].(status := Approved, checker := Some(checker))]);
      r := Ok(());
    }

    method RejectJournal(ledger: nat, id: nat, checker: nat) returns (r: Result<(), Error>)
      modifies this
      ensures (db, r) == PostingSpec.RejectJournal(old(db), ledger, id, checker)
    {
      var e := DecisionError(db, ledger, id, checker);
      if e.Some? {
        return Err(e.value);
      }
      if Sealed(db, id) {
        return Err(AppendOnlyLedger);
      }
      db := db.(txns := SetKind(db.txns, id, Draft));
      db := db.(approvals := db.approvals[id := db.approvals[id].(status := Rejected, checker := Some(checker))]);
      r := Ok(());
    }

    method ClosePeriod(ledger: nat, through: int) returns (r: Result<(), CloseError>)
      modifies this
      ensures (db.closed, r) == CloseControls.ClosePeriod(old(db).closed, ledger, through)
      ensures db == old(db).(closed := db.closed)
    {
      var w := Watermark(db.closed, ledger);
      if w.Some? && through <= w.value {
        return Err(AlreadyClosed(w.value));
      }
      if HasYear(db.closed, ledger, Year(through)) {
        return Err(DuplicateYear);
      }
      db := db.(closed := db.closed + [ClosedRow(ledger, Year(through), Some(through))]);
      r := Ok(());
    }

    /** The insert that follows the commit of a create which needs approval. */
    method RecordApproval(id: nat)
      modifies this
      ensures db == InsertApproval(old(db), id)
    {
      if id in db.inFlight {
        if id !in db.approvals {
          db := db.(approvals := db.approvals[id := db.inFlight[id]]);
        }
        db := db.(inFlight := db.inFlight - {id});
      }
    }

    /** Two deletes: date-level rows at or after the date, then legacy year rows from its year on. */
    method ReopenPeriod(ledger: nat, from: Option<int>)
      modifies this
      ensures db == old(db).(closed := Reopen(old(db).closed, ledger, from))
    {
      var kept := KeepClosed(db.closed, ledger, from);
      db := db.(closed := kept);
    }

    method ToggleAppendOnly(ledger: nat, enabled: bool)
      modifies this
      ensures db == SetAppendOnly(old(db), ledger, enabled)
    {
      if ledger in db.ledgers && db.ledgers[ledger].appendOnly != enabled {
        db := db.(ledgers := db.ledgers[ledger := db.ledgers[ledger].(appendOnly := enabled)]);
      }
    }

    method BuildOpeningLines(ledger: nat, targets: map<nat, int>) returns (lines: seq<Line>)
      ensures lines == OpeningLines(db.accounts, db.txns, ledger, targets)
    {
      lines := LinesForTargets(db.accounts, db.txns, ledger, targets);
    }

    method OpeningBalancesCreate(rates: RateLookup, f: OpeningForm) returns (r: Result<Created, OpeningError>)
      modifies this
      ensures (db, r) == OpeningBalances(old(db), rates, f)
    {
      if OpeningExists(db.txns, f.ledger) {
        return Err(AlreadyRecorded);
      }
      var lines := BuildOpeningLines(f.ledger, f.targets);
      var net := LineTotal(lines);
      if lines == [] || net == 0 {
        return Err(NothingToRecord);
      }
      var contra := NamedAccount(db.accounts, f.ledger, OPENING_ACCOUNT);
      if contra == None {
        db := AddAccount(db, Account(f.spareId, f.ledger, Equity, OPENING_ACCOUNT));
        contra := Some(f.spareId);
      }
      lines := lines + [PlainLine(contra.value, -net)];
      var req := Request(f.ledger, f.date, OPENING_DESCRIPTION, Some(Standard), f.user, lines, None);
      var c := CreateWithKind(rates, req, false);
      r := match c case Ok(v) => Ok(v) case Err(e) => Err(Refused(e));
    }

    method Reverse(rates: RateLookup, ledger: nat, id: nat, today: int, user: nat)
      returns (r: Result<Created, ReverseError>)
      modifies this
      ensures (db, r) == PostingClients.Reverse(old(db), rates, ledger, id, today, user)
    {
      var t := Lookup(db.txns, id);
      if ledger !in db.ledgers || t == None || t.value.ledger != ledger {
        return Err(NotFound);
      }
      if t.value.kind == Reversing {
        return Err(CannotReverseReversal);
      }
      if t.value.postings == [] {
        return Err(NoPostings);
      }
      var c := CreateWithKind(rates, ReverseRequest(t.value, today, user), false);
      r := match c case Ok(v) => Ok(v) case Err(e) => Err(Declined(e));
    }
  }
}
