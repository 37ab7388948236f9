/**
 * What the calls of the posting service promise their users, stated on requests and stored
 * rows (src/domain/posting_service.rs): which requests are accepted, what is stored for
 * them and under whose name, and when the other calls succeed.
 */
module PostingLaws {
  import opened Prelude
  import opened Numbers
  import opened LedgerTables
  import opened CloseControls
  import opened PostingSpec
  import opened PostingRuns
  import Fx

  /* ---------- which requests are accepted ---------- */

  predicate HasRate(line: Line, rates: RateLookup, base: string, date: int) {
    line.foreign.Some? ==> rates(line.foreign.value.currency, base, date).Some?
  }

  /** The amounts a request is posted with: a plain line's own, a foreign line's converted at its rate. */
  ghost predicate PostedAs(lines: seq<Line>, rates: RateLookup, base: string, date: int, amounts: seq<int>) {
    && |amounts| == |lines|
    && forall i :: 0 <= i < |lines| ==>
         && HasRate(lines[i], rates, base, date)
         && amounts[i] == match lines[i].foreign
                          case None => lines[i].amount
                          case Some(f) => Fx.DeriveBaseAmount(f.amount, rates(f.currency, base, date).value)
  }

  /** A foreign line without a rate; all lines before it have theirs. */
  ghost predicate FirstWithoutRate(lines: seq<Line>, rates: RateLookup, base: string, date: int, currency: string) {
    exists i :: && 0 <= i < |lines| && !HasRate(lines[i], rates, base, date)
                && lines[i].foreign.value.currency == currency
                && forall j :: 0 <= j < i ==> HasRate(lines[j], rates, base, date)
  }

  lemma {:induction false} DerivedExactly(lines: seq<Line>, rates: RateLookup, base: string, date: int)
    ensures var d := Derived(lines, rates, base, date);
            && (d.Ok? ==> PostedAs(lines, rates, base, date, d.value))
            && (d.Err? ==> d.error.MissingFxRate? && FirstWithoutRate(lines, rates, base, date, d.error.currency))
  {
    if lines != [] {
      DerivedExactly(lines[1..], rates, base, date);
      var rest := Derived(lines[1..], rates, base, date);
      if HasRate(lines[0], rates, base, date) && rest.Err? {
        var i :| && 0 <= i < |lines[1..]| && !HasRate(lines[1..][i], rates, base, date)
                 && lines[1..][i].foreign.value.currency == rest.error.currency
                 && forall j :: 0 <= j < i ==> HasRate(lines[1..][j], rates, base, date);
        assert lines[i + 1] == lines[1..][i];
        forall j | 0 <= j < i + 1 ensures HasRate(lines[j], rates, base, date) {
          if j > 0 { assert lines[j] == lines[1..][j - 1]; }
        }
      }
    }
  }

  function Base(db: Db, req: Request): string
    requires req.ledger in db.ledgers
  {
    db.ledgers[req.ledger].currency
  }

  lemma EffectiveExactly(db: Db, rates: RateLookup, req: Request)
    requires req.ledger in db.ledgers
    ensures var e := Effective(db, rates, req);
            && (e.Ok? ==> PostedAs(req.lines, rates, Base(db, req), req.date, e.value))
            && (e.Err? ==> e.error.MissingFxRate?
                           && FirstWithoutRate(req.lines, rates, Base(db, req), req.date, e.error.currency))
  {
    if HasForeign(req.lines) {
      DerivedExactly(req.lines, rates, Base(db, req), req.date);
    }
  }

  lemma SamePosting(lines: seq<Line>, rates: RateLookup, base: string, date: int, a: seq<int>, b: seq<int>)
    requires PostedAs(lines, rates, base, date, a) && PostedAs(lines, rates, base, date, b)
    ensures a == b
  {
  }

  predicate KnownDimensions(db: Db, ledger: nat, line: Line) {
    && (line.costCenter.Some? ==> (line.costCenter.value, ledger) in db.costCenters)
    && (line.project.Some? ==> (line.project.value, ledger) in db.projects)
  }

  lemma {:induction false} AccountsExactly(accounts: seq<Account>, ledger: nat, lines: seq<Line>)
    ensures AccountError(accounts, ledger, lines) == None
            <==> forall i :: 0 <= i < |lines| ==> InLedger(accounts, lines[i].account, ledger)
  {
    if lines != [] {
      AccountsExactly(accounts, ledger, lines[1..]);
      assert forall i :: 1 <= i < |lines| ==> lines[i] == lines[1..][i - 1];
      assert forall i :: 0 <= i < |lines| - 1 ==> lines[1..][i] == lines[i + 1];
    }
  }

  lemma {:induction false} DimensionsExactly(db: Db, ledger: nat, lines: seq<Line>)
    ensures DimensionError(db, ledger, lines) == None
            <==> forall i :: 0 <= i < |lines| ==> KnownDimensions(db, ledger, lines[i])
  {
    if lines != [] {
      DimensionsExactly(db, ledger, lines[1..]);
      assert forall i :: 1 <= i < |lines| ==> lines[i] == lines[1..][i - 1];
      assert forall i :: 0 <= i < |lines| - 1 ==> lines[1..][i] == lines[i + 1];
    }
  }

  /** Two or more lines in accounts and dimensions of a known ledger, on an open date unless it is a draft. */
  ghost predicate Placeable(db: Db, req: Request, isDraft: bool) {
    && |req.lines| >= 2 && req.ledger in db.ledgers
    && (isDraft || !IsClosed(Watermark(db.closed, req.ledger), req.date))
    && (forall i :: 0 <= i < |req.lines| ==> InLedger(db.accounts, req.lines[i].account, req.ledger))
    && (forall i :: 0 <= i < |req.lines| ==> KnownDimensions(db, req.ledger, req.lines[i]))
  }

  ghost predicate Postable(lines: seq<Line>, rates: RateLookup, base: string, date: int, amounts: seq<int>) {
    PostedAs(lines, rates, base, date, amounts) && Sum(amounts) == 0 && NonZero(amounts)
  }

  lemma AcceptedIsPostable(db: Db, rates: RateLookup, req: Request, isDraft: bool)
    requires Validated(db, rates, req, isDraft).Ok?
    ensures Placeable(db, req, isDraft)
    ensures Postable(req.lines, rates, Base(db, req), req.date, Validated(db, rates, req, isDraft).value)
  {
    AccountsExactly(db.accounts, req.ledger, req.lines);
    DimensionsExactly(db, req.ledger, req.lines);
    EffectiveExactly(db, rates, req);
    DebitsMinusCredits(Effective(db, rates, req).value);
  }

  lemma PostableIsEffective(db: Db, rates: RateLookup, req: Request, amounts: seq<int>)
    requires req.ledger in db.ledgers && Postable(req.lines, rates, Base(db, req), req.date, amounts)
    ensures Effective(db, rates, req) == Ok(amounts)
  {
    EffectiveExactly(db, rates, req);
    var e := Effective(db, rates, req);
    assert forall j :: 0 <= j < |req.lines| ==> HasRate(req.lines[j], rates, Base(db, req), req.date);
    if e.Ok? {
      SamePosting(req.lines, rates, Base(db, req), req.date, amounts, e.value);
    }
  }

  lemma PostableIsAccepted(db: Db, rates: RateLookup, req: Request, isDraft: bool, amounts: seq<int>)
    requires Placeable(db, req, isDraft) && Postable(req.lines, rates, Base(db, req), req.date, amounts)
    ensures Validated(db, rates, req, isDraft) == Ok(amounts)
  {
    AccountsExactly(db.accounts, req.ledger, req.lines);
    DimensionsExactly(db, req.ledger, req.lines);
    PostableIsEffective(db, rates, req, amounts);
    DebitsMinusCredits(amounts);
  }

  /**
   * A request is accepted exactly when it can be placed and its amounts, with every
   * foreign line converted, are non-zero and sum to zero; those are the amounts posted.
   */
  lemma AcceptedExactly(db: Db, rates: RateLookup, req: Request, isDraft: bool)
    ensures Validated(db, rates, req, isDraft).Ok?
            <==> && Placeable(db, req, isDraft)
                 && exists amounts :: Postable(req.lines, rates, Base(db, req), req.date, amounts)
    ensures Validated(db, rates, req, isDraft).Ok? ==>
              && req.ledger in db.ledgers
              && Postable(req.lines, rates, Base(db, req), req.date, Validated(db, rates, req, isDraft).value)
  {
    if Validated(db, rates, req, isDraft).Ok? {
      AcceptedIsPostable(db, rates, req, isDraft);
    }
    if Placeable(db, req, isDraft) {
      if amounts :| Postable(req.lines, rates, Base(db, req), req.date, amounts) {
        PostableIsAccepted(db, rates, req, isDraft, amounts);
      }
    }
  }

  /** An account or dimension error names an offending line. */
  lemma {:induction false} AccountErrorNames(accounts: seq<Account>, ledger: nat, lines: seq<Line>)
    ensures var e := AccountError(accounts, ledger, lines);
            e.Some? ==> exists i :: && 0 <= i < |lines|
                                    && e.value == (if AccountOf(accounts, lines[i].account) == None
                                                   then UnknownAccount(lines[i].account)
                                                   else WrongLedger(lines[i].account))
                                    && !InLedger(accounts, lines[i].account, ledger)
  {
    if lines != [] {
      AccountErrorNames(accounts, ledger, lines[1..]);
      assert forall i :: 0 <= i < |lines| - 1 ==> lines[1..][i] == lines[i + 1];
    }
  }

  lemma {:induction false} DimensionErrorNames(db: Db, ledger: nat, lines: seq<Line>)
    ensures var e := DimensionError(db, ledger, lines);
            e.Some? ==> exists i :: && 0 <= i < |lines| && !KnownDimensions(db, ledger, lines[i])
                                    && match e.value
                                       case UnknownCostCenter(c) =>
                                         lines[i].costCenter == Some(c) && (c, ledger) !in db.costCenters
                                       case UnknownProject(p) =>
                                         lines[i].project == Some(p) && (p, ledger) !in db.projects
                                       case _ => false
  {
    if lines != [] {
      DimensionErrorNames(db, ledger, lines[1..]);
      assert forall i :: 0 <= i < |lines| - 1 ==> lines[1..][i] == lines[i + 1];
    }
  }

  /** What a refusal says is so. */
  ghost predicate Explains(db: Db, rates: RateLookup, req: Request, isDraft: bool, e: Error) {
    match e
    case Unbalanced(debits, credits) =>
      if |req.lines| < 2 then debits == credits == 0
      else debits != credits && debits >= 0 && credits >= 0
           && (req.ledger in db.ledgers ==>
                 exists amounts :: && PostedAs(req.lines, rates, Base(db, req), req.date, amounts)
                                   && debits - credits == Sum(amounts))
    case HardClosed(ledger, through) =>
      ledger == req.ledger && !isDraft && Watermark(db.closed, ledger) == Some(through) && req.date <= through
    case LedgerNotFound => req.ledger !in db.ledgers
    case UnknownAccount(a) =>
      AccountOf(db.accounts, a) == None && exists i :: 0 <= i < |req.lines| && req.lines[i].account == a
    case WrongLedger(a) =>
      && AccountOf(db.accounts, a).Some? && !InLedger(db.accounts, a, req.ledger)
      && exists i :: 0 <= i < |req.lines| && req.lines[i].account == a
    case UnknownCostCenter(c) =>
      (c, req.ledger) !in db.costCenters && exists i :: 0 <= i < |req.lines| && req.lines[i].costCenter == Some(c)
    case UnknownProject(p) =>
      (p, req.ledger) !in db.projects && exists i :: 0 <= i < |req.lines| && req.lines[i].project == Some(p)
    case MissingFxRate(currency) =>
      req.ledger in db.ledgers && FirstWithoutRate(req.lines, rates, Base(db, req), req.date, currency)
    case CheckViolation =>
      && req.ledger in db.ledgers
      && exists amounts :: PostedAs(req.lines, rates, Base(db, req), req.date, amounts) && !NonZero(amounts)
    case _ => false
  }

  /** Every refusal of a create is for the reason it gives. */
  lemma RefusalExplained(db: Db, rates: RateLookup, req: Request, isDraft: bool)
    requires Validated(db, rates, req, isDraft).Err?
    ensures Explains(db, rates, req, isDraft, Validated(db, rates, req, isDraft).error)
  {
    AccountErrorNames(db.accounts, req.ledger, req.lines);
    DimensionErrorNames(db, req.ledger, req.lines);
    if req.ledger in db.ledgers {
      EffectiveExactly(db, rates, req);
    }
    var e := Effective(db, rates, req);
    if e.Ok? {
      DebitsMinusCredits(e.value);
    }
  }

  /* ---------- what is stored, and under whose name ---------- */

  lemma {:induction false} PostingsAt(lines: seq<Line>, amounts: seq<int>, i: nat)
    requires |lines| == |amounts| && i < |lines|
    ensures var ps := PostingsFor(lines, amounts);
            && |ps| == |lines|
            && ps[i] == (if amounts[i] >= 0 then Posting(lines[i].account, amounts[i], Debit)
                         else Posting(lines[i].account, -amounts[i], Credit))
  {
    PostingsTotal(lines, amounts);
    if i > 0 {
      PostingsAt(lines[1..], amounts[1..], i - 1);
    }
  }

  /** The row carries what was asked for: its ledger, date, text, maker and link, and one posting per line. */
  ghost predicate Stores(t: Txn, req: Request, amounts: seq<int>) {
    && t.ledger == req.ledger && t.date == req.date && t.description == req.description
    && t.createdBy == req.createdBy && t.reversesId == req.reversesId
    && |t.postings| == |req.lines| == |amounts|
    && forall i :: 0 <= i < |req.lines| ==>
         t.postings[i] == (if amounts[i] >= 0 then Posting(req.lines[i].account, amounts[i], Debit)
                           else Posting(req.lines[i].account, -amounts[i], Credit))
  }

  /** The approval due for a held journal: its ledger and maker, undecided, for what it debits. */
  predicate DueFor(a: Approval, t: Txn, req: Request) {
    a == Approval(req.ledger, req.createdBy, Awaiting, None, DebitTotal(t.postings))
  }

  /** Apart from the new row and the approval that is due for it, a create changes nothing. */
  ghost predicate AddsOnly(db: Db, db': Db, t: Txn) {
    && db'.txns == db.txns + [t] && db'.nextId == db.nextId + 1
    && db' == db.(txns := db'.txns, nextId := db'.nextId, inFlight := db'.inFlight)
    && (forall id :: id in db.inFlight && id != t.id ==> id in db'.inFlight && db'.inFlight[id] == db.inFlight[id])
    && (forall id :: id in db'.inFlight && id != t.id ==> id in db.inFlight)
  }

  lemma RowStores(db: Db, req: Request, isDraft: bool, amounts: seq<int>)
    requires req.ledger in db.ledgers && |amounts| == |req.lines|
    ensures Stores(StoredTxn(db, req, isDraft, amounts), req, amounts)
  {
    PostingsTotal(req.lines, amounts);
    forall i | 0 <= i < |req.lines|
      ensures PostingsFor(req.lines, amounts)[i]
           == (if amounts[i] >= 0 then Posting(req.lines[i].account, amounts[i], Debit)
               else Posting(req.lines[i].account, -amounts[i], Credit))
    {
      PostingsAt(req.lines, amounts, i);
    }
  }

  /**
   * What a successful create stores, drafts and foreign requests included: one row with the
   * returned id and kind that carries the request line by line, and, when it is held, a due
   * approval whose maker is the user who made the request. A refused create stores nothing.
   */
  lemma CreateStores(db: Db, rates: RateLookup, req: Request, isDraft: bool) returns (t: Txn)
    ensures var (db', r) := CreateWithKind(db, rates, req, isDraft);
            && (r.Err? ==> db' == db)
            && (r.Ok? ==>
                 && AddsOnly(db, db', t) && r.value == Created(t.id, t.kind) && t.id == db.nextId
                 && req.ledger in db.ledgers
                 && (exists amounts :: && Postable(req.lines, rates, Base(db, req), req.date, amounts)
                                       && Stores(t, req, amounts))
                 && (t.id in db'.inFlight && t.id !in db.inFlight ==>
                       DueFor(db'.inFlight[t.id], t, req) && t.kind == Pending)
                 && (t.kind == Pending && req.kind != Some(Pending) ==> t.id in db'.inFlight)
                 && (t.kind != Pending ==> t.kind == if req.kind.Some? then req.kind.value else Standard)
                 && (isDraft ==> db'.inFlight == db.inFlight))
  {
    AcceptedExactly(db, rates, req, isDraft);
    var v := Validated(db, rates, req, isDraft);
    if v.Ok? {
      ValidatedLength(db, rates, req, isDraft);
      t := StoredTxn(db, req, isDraft, v.value);
      RowStores(db, req, isDraft, v.value);
      DebitTotalOf(req.lines, v.value);
    } else {
      t := Txn(0, 0, 0, "", Draft, 0, None, []);
    }
  }

  /** A saved draft is stored as one, whatever kind was asked for, and no approval is due for it. */
  lemma DraftStays(db: Db, rates: RateLookup, req: Request)
    ensures var (db', r) := CreateDraft(db, rates, req);
            r.Ok? ==> r.value.kind == Draft && db'.inFlight == db.inFlight
                      && Lookup(db'.txns, r.value.id).Some? && Lookup(db'.txns, r.value.id).value.kind == Draft
  {
    var t := CreateStores(db, rates, req.(kind := Some(Draft)), true);
    LookupAppend(db.txns, t, t.id);
  }

  /* ---------- the maker never decides ---------- */

  /** Decisions about a journal by one user. */
  function DecisionsBy(db: Db, events: seq<Event>, id: nat, user: nat): nat
    decreases |events|
  {
    if events == [] then 0
    else (if Decides(db, events[0], id) && events[0].checker == user then 1 else 0)
         + DecisionsBy(Step(db, events[0]), events[1..], id, user)
  }

  /** The id is taken, and its row, while there is one, was made by the user. */
  predicate MadeBy(db: Db, id: nat, user: nat) {
    id < db.nextId && (Lookup(db.txns, id).Some? ==> Lookup(db.txns, id).value.createdBy == user)
  }

  lemma IdsGrow(db: Db, e: Event)
    ensures Step(db, e).nextId >= db.nextId
  {
  }

  lemma MadeByStays(db: Db, e: Event, id: nat, user: nat)
    requires Inv(db) && MadeBy(db, id, user)
    ensures MadeBy(Step(db, e), id, user)
    ensures Decides(db, e, id) ==> e.checker != user
  {
    StepRow(db, e, id);
    IdsGrow(db, e);
    if Decides(db, e, id) {
      DecisionRecorded(db, e, id);
    }
  }

  lemma {:induction false} MakerNeverDecides(db: Db, events: seq<Event>, id: nat, user: nat)
    requires Inv(db) && MadeBy(db, id, user)
    ensures DecisionsBy(db, events, id, user) == 0
    decreases |events|
  {
    if events != [] {
      MadeByStays(db, events[0], id, user);
      StepKeepsInv(db, events[0]);
      MakerNeverDecides(Step(db, events[0]), events[1..], id, user);
    }
  }

  /** Whoever made the request never decides about its journal, whatever happens afterwards. */
  lemma RequesterNeverDecides(db: Db, rates: RateLookup, req: Request, isDraft: bool, events: seq<Event>)
    requires Inv(db) && CreateWithKind(db, rates, req, isDraft).1.Ok?
    ensures var (db', r) := CreateWithKind(db, rates, req, isDraft);
            DecisionsBy(db', events, r.value.id, req.createdBy) == 0
  {
    var db' := CreateWithKind(db, rates, req, isDraft).0;
    var t := CreateStores(db, rates, req, isDraft);
    CreateKeepsInv(db, rates, req, isDraft);
    LookupAppend(db.txns, t, t.id);
    MakerNeverDecides(db', events, t.id, req.createdBy);
  }

  lemma IdIsNew(db: Db, id: nat)
    requires Inv(db) && id >= db.nextId
    ensures id !in db.inFlight && id !in db.approvals
  {
    if id in db.inFlight {
      assert Agrees(db.inFlight[id], Lookup(db.txns, id));
      LookupFacts(db.txns, id, db.nextId);
    }
    if id in db.approvals {
      assert Agrees(db.approvals[id], Lookup(db.txns, id));
      LookupFacts(db.txns, id, db.nextId);
    }
  }

  /** And everybody else may, once the approval row has been inserted, unless the ledger is append-only. */
  lemma HeldDecidedByOthers(db: Db, rates: RateLookup, req: Request, checker: nat)
    requires Inv(db) && Create(db, rates, req).1.Ok? && Create(db, rates, req).1.value.kind == Pending
    requires req.kind != Some(Pending)
    ensures var (db', r) := Create(db, rates, req);
            var held := InsertApproval(db', r.value.id);
            && (ApproveJournal(held, req.ledger, r.value.id, checker).1.Ok?
                <==> checker != req.createdBy && !AppendOnly(db, req.ledger))
            && (RejectJournal(held, req.ledger, r.value.id, checker).1.Ok?
                <==> checker != req.createdBy && !AppendOnly(db, req.ledger))
  {
    var db' := Create(db, rates, req).0;
    var t := CreateStores(db, rates, req, false);
    LookupAppend(db.txns, t, t.id);
    IdIsNew(db, t.id);
  }

  /* ---------- when the other calls succeed ---------- */

  /** A stored draft of the ledger that the triggers leave alone. */
  predicate FreeDraft(db: Db, ledger: nat, id: nat) {
    && Lookup(db.txns, id).Some? && Lookup(db.txns, id).value.ledger == ledger
    && Lookup(db.txns, id).value.kind == Draft && !AppendOnly(db, ledger)
  }

  /**
   * Promotion needs a free draft of a known ledger on an open date, deletion only a free
   * draft; a deleted draft takes its approval row along, and either call that is refused
   * changes nothing.
   */
  lemma DraftCallsExactly(db: Db, ledger: nat, id: nat)
    ensures var (db', r) := PostDraft(db, ledger, id);
            && (r.Ok? <==> && FreeDraft(db, ledger, id) && ledger in db.ledgers
                           && !IsClosed(Watermark(db.closed, ledger), Lookup(db.txns, id).value.date))
            && (r.Err? ==> db' == db) && (r.Ok? ==> r.value == Created(id, Standard) && db'.approvals == db.approvals)
    ensures var (db', r) := DeleteDraft(db, ledger, id);
            && (r.Ok? <==> FreeDraft(db, ledger, id))
            && (r.Err? ==> db' == db)
            && (r.Ok? ==> id !in db'.approvals && forall other :: other != id ==>
                            (other in db'.approvals <==> other in db.approvals)
                            && (other in db.approvals ==> db'.approvals[other] == db.approvals[other]))
  {
  }

  /** An approval row that awaits the decision of somebody else, for a row the triggers leave alone. */
  predicate Decidable(db: Db, ledger: nat, id: nat, checker: nat) {
    && id in db.approvals && db.approvals[id].ledger == ledger && db.approvals[id].status == Awaiting
    && db.approvals[id].maker != checker && !AppendOnly(db, ledger)
  }

  /**
   * Approval and rejection alike: when they succeed, what a refusal means, and that a
   * decision records status and checker, keeps everything else in the approval row and
   * touches no other.
   */
  lemma DecisionExactly(db: Db, ledger: nat, id: nat, checker: nat, approve: bool)
    requires Inv(db)
    ensures var (db', r) := if approve then ApproveJournal(db, ledger, id, checker)
                            else RejectJournal(db, ledger, id, checker);
            && (r.Ok? <==> Decidable(db, ledger, id, checker))
            && (r.Err? ==> db' == db)
            && (r == Err(SelfApproval) ==> id in db.approvals && db.approvals[id].maker == checker)
            && (r == Err(AppendOnlyLedger) ==> AppendOnly(db, ledger))
            && (r.Err? ==> r.error in {NotPending, SelfApproval, AppendOnlyLedger})
            && (r.Ok? ==>
                 && db'.approvals
                    == db.approvals[id := db.approvals[id].(status := if approve then Approved else Rejected,
                                                            checker := Some(checker))]
                 && db' == db.(txns := db'.txns, approvals := db'.approvals))
  {
    if DecisionError(db, ledger, id, checker) == None {
      AwaitingRow(db, ledger, id, checker);
    }
  }

  /** The late insert of an approval: once, for the journal it is due for, as it was due. */
  lemma InsertApprovalExactly(db: Db, id: nat, other: nat)
    requires Inv(db)
    ensures var db' := InsertApproval(db, id);
            && id !in db'.inFlight
            && (id in db.inFlight ==> id in db'.approvals && db'.approvals[id] == db.inFlight[id])
            && (other != id || id !in db.inFlight ==>
                  && (other in db'.approvals <==> other in db.approvals)
                  && (other in db.approvals ==> db'.approvals[other] == db.approvals[other]))
            && db'.txns == db.txns
  {
  }
}
