/**
 * What every run of the posting service keeps: balanced books, the accounting
 * equation, one decision per journal, and frozen history below the watermark.
 */
module PostingRuns {
  import opened Prelude
  import opened Numbers
  import opened LedgerTables
  import opened CloseControls
  import opened PostingSpec

  predicate GoodTxn(accounts: seq<Account>, ledgers: map<nat, Ledger>, t: Txn) {
    Balanced(accounts, t) && t.ledger in ledgers
  }

  ghost predicate GoodTxns(db: Db) {
    && IdsBelow(db.txns, db.nextId)
    && forall t :: t in db.txns ==> GoodTxn(db.accounts, db.ledgers, t)
  }

  /** How an approval row and its journal agree. */
  predicate Agrees(a: Approval, t: Option<Txn>) {
    && t.Some? && t.value.ledger == a.ledger && t.value.createdBy == a.maker
    && match a.status
       case Awaiting => t.value.kind == Pending && a.checker == None
       case Approved => t.value.kind == Standard && a.checker.Some? && a.checker.value != a.maker
       case Rejected => (t.value.kind == Draft || t.value.kind == Standard)
                        && a.checker.Some? && a.checker.value != a.maker
  }

  ghost predicate GoodApprovals(db: Db) {
    && (forall id :: id in db.approvals ==> Agrees(db.approvals[id], Lookup(db.txns, id)))
    && (forall id :: id in db.inFlight ==>
          && id !in db.approvals && db.inFlight[id].status == Awaiting
          && Agrees(db.inFlight[id], Lookup(db.txns, id)))
  }

  /** The invariant of every reachable database. */
  ghost predicate Inv(db: Db) {
    DistinctAccounts(db.accounts) && GoodTxns(db) && GoodApprovals(db)
  }

  /** A database with no transactions and no approvals satisfies it. */
  lemma EmptyBooks(db: Db)
    requires DistinctAccounts(db.accounts) && db.txns == [] && db.approvals == map[] && db.inFlight == map[]
    ensures Inv(db)
  {
  }

  /* ---------- create ---------- */

  lemma {:induction false} DebitsMinusCredits(amounts: seq<int>)
    ensures Debits(amounts) - Credits(amounts) == Sum(amounts)
    ensures Debits(amounts) >= 0 && Credits(amounts) >= 0
  {
    if amounts != [] { DebitsMinusCredits(amounts[1..]); }
  }

  lemma {:induction false} PostingsTotal(lines: seq<Line>, amounts: seq<int>)
    requires |lines| == |amounts|
    ensures Total(PostingsFor(lines, amounts)) == Sum(amounts) && |PostingsFor(lines, amounts)| == |lines|
  {
    if lines != [] {
      PostingsTotal(lines[1..], amounts[1..]);
      assert PostingsFor(lines, amounts)[1..] == PostingsFor(lines[1..], amounts[1..]);
    }
  }

  lemma {:induction false} PostingsPlaced(accounts: seq<Account>, ledger: nat, lines: seq<Line>, amounts: seq<int>)
    requires |lines| == |amounts| && NonZero(amounts) && AccountError(accounts, ledger, lines) == None
    ensures forall p :: p in PostingsFor(lines, amounts) ==> p.amount > 0 && InLedger(accounts, p.account, ledger)
  {
    if lines != [] {
      PostingsPlaced(accounts, ledger, lines[1..], amounts[1..]);
      assert PostingsFor(lines, amounts) == [PostingFor(lines[0], amounts[0])] + PostingsFor(lines[1..], amounts[1..]);
    }
  }

  /** Whatever passes the checks is stored as a balanced transaction. */
  lemma StoredIsGood(db: Db, rates: RateLookup, req: Request, isDraft: bool)
    requires Validated(db, rates, req, isDraft).Ok?
    ensures var amounts := Validated(db, rates, req, isDraft).value;
            && |amounts| == |req.lines| && req.ledger in db.ledgers
            && GoodTxn(db.accounts, db.ledgers, StoredTxn(db, req, isDraft, amounts))
  {
    ValidatedLength(db, rates, req, isDraft);
    var amounts := Validated(db, rates, req, isDraft).value;
    DebitsMinusCredits(amounts);
    PostingsTotal(req.lines, amounts);
    PostingsPlaced(db.accounts, req.ledger, req.lines, amounts);
  }

  lemma LookupAppend(txns: seq<Txn>, t: Txn, id: nat)
    ensures Lookup(txns + [t], id) == if t.id == id then Some(t) else Lookup(txns, id)
    ensures IdsBelow(txns, t.id) ==> IdsBelow(txns + [t], t.id + 1)
  {
    assert (txns + [t])[..|txns|] == txns;
  }

  lemma AppendKeepsAgreement(db: Db, t: Txn, id: nat, a: Approval)
    requires IdsBelow(db.txns, db.nextId) && t.id == db.nextId && Agrees(a, Lookup(db.txns, id))
    ensures id < t.id && Agrees(a, Lookup(db.txns + [t], id))
  {
    LookupFacts(db.txns, id, db.nextId);
    LookupAppend(db.txns, t, id);
  }

  /** A new row with a new id leaves every existing approval in agreement. */
  lemma AppendKeepsApprovals(db: Db, t: Txn, due: Option<Approval>)
    requires Inv(db) && t.id == db.nextId
    requires due.Some? ==> due.value.status == Awaiting && Agrees(due.value, Some(t))
    ensures GoodApprovals(db.(txns := db.txns + [t], nextId := db.nextId + 1,
                              inFlight := db.inFlight + if due.Some? then map[t.id := due.value] else map[]))
  {
    forall id | id in db.approvals ensures id < t.id && Agrees(db.approvals[id], Lookup(db.txns + [t], id)) {
      AppendKeepsAgreement(db, t, id, db.approvals[id]);
    }
    forall id | id in db.inFlight ensures id < t.id && Agrees(db.inFlight[id], Lookup(db.txns + [t], id)) {
      AppendKeepsAgreement(db, t, id, db.inFlight[id]);
    }
    LookupAppend(db.txns, t, t.id);
  }

  lemma CreateKeepsInv(db: Db, rates: RateLookup, req: Request, isDraft: bool)
    requires Inv(db)
    ensures Inv(CreateWithKind(db, rates, req, isDraft).0)
  {
    if Validated(db, rates, req, isDraft).Ok? {
      var amounts := Validated(db, rates, req, isDraft).value;
      StoredIsGood(db, rates, req, isDraft);
      var t := StoredTxn(db, req, isDraft, amounts);
      LookupAppend(db.txns, t, t.id);
      AppendKeepsApprovals(db, t,
        if NeedsApproval(db, req, isDraft, Debits(amounts))
        then Some(Approval(req.ledger, req.createdBy, Awaiting, None, Debits(amounts))) else None);
    }
  }

  /* ---------- changes of kind, deletion, approvals ---------- */

  lemma GoodAfterSetKind(db: Db, id: nat, kind: Kind)
    requires GoodTxns(db)
    ensures GoodTxns(db.(txns := SetKind(db.txns, id, kind)))
  {
    SetKindFacts(db.txns, id, kind, db.nextId, id);
    SetKindMembers(db.txns, id, kind);
    forall t | t in SetKind(db.txns, id, kind) ensures GoodTxn(db.accounts, db.ledgers, t) {
      var u :| u in db.txns && (t == u || t == u.(kind := kind));
      assert GoodTxn(db.accounts, db.ledgers, u);
    }
  }

  lemma PostDraftKeepsInv(db: Db, ledger: nat, id: nat)
    requires Inv(db)
    ensures Inv(PostDraft(db, ledger, id).0)
  {
    var db' := PostDraft(db, ledger, id).0;
    if PostDraft(db, ledger, id).1.Ok? {
      GoodAfterSetKind(db, id, Standard);
      forall other ensures Lookup(db'.txns, other)
        == if other == id then Some(Lookup(db.txns, id).value.(kind := Standard)) else Lookup(db.txns, other)
      {
        SetKindFacts(db.txns, id, Standard, db.nextId, other);
      }
      assert GoodApprovals(db');
    }
  }

  /** Removing a draft and its approval row leaves every other approval in agreement. */
  lemma RemovalKeepsApprovals(db: Db, id: nat)
    requires Inv(db) && Lookup(db.txns, id).Some? && Lookup(db.txns, id).value.kind == Draft
    ensures GoodApprovals(db.(txns := Without(db.txns, id), approvals := db.approvals - {id}))
  {
    forall other | other in db.approvals && other != id
      ensures Agrees(db.approvals[other], Lookup(Without(db.txns, id), other))
    {
      WithoutFacts(db.txns, id, db.nextId, other);
    }
    forall other | other in db.inFlight
      ensures other != id && Agrees(db.inFlight[other], Lookup(Without(db.txns, id), other))
    {
      assert Agrees(db.inFlight[other], Lookup(db.txns, other));
      WithoutFacts(db.txns, id, db.nextId, other);
    }
  }

  lemma DeleteDraftKeepsInv(db: Db, ledger: nat, id: nat)
    requires Inv(db)
    ensures Inv(DeleteDraft(db, ledger, id).0)
  {
    if DeleteDraft(db, ledger, id).1.Ok? {
      WithoutFacts(db.txns, id, db.nextId, id);
      RemovalKeepsApprovals(db, id);
    }
  }

  lemma DecideKeepsInv(db: Db, ledger: nat, id: nat, checker: nat, status: Status, kind: Kind)
    requires Inv(db) && DecisionError(db, ledger, id, checker) == None
    requires (status == Approved && kind == Standard) || (status == Rejected && kind == Draft)
    ensures Inv(Decide(db, id, checker, status, kind))
    ensures Lookup(db.txns, id).Some? && Lookup(db.txns, id).value.ledger == ledger
    ensures Lookup(db.txns, id).value.kind == Pending && id !in db.inFlight
  {
    assert Agrees(db.approvals[id], Lookup(db.txns, id));
    var db' := Decide(db, id, checker, status, kind);
    GoodAfterSetKind(db, id, kind);
    forall other ensures Lookup(db'.txns, other)
      == if other == id then Some(Lookup(db.txns, id).value.(kind := kind)) else Lookup(db.txns, other)
    {
      SetKindFacts(db.txns, id, kind, db.nextId, other);
    }
    assert GoodApprovals(db');
  }

  lemma ApproveKeepsInv(db: Db, ledger: nat, id: nat, checker: nat)
    requires Inv(db)
    ensures Inv(ApproveJournal(db, ledger, id, checker).0)
  {
    if DecisionError(db, ledger, id, checker) == None {
      DecideKeepsInv(db, ledger, id, checker, Approved, Standard);
    }
  }

  lemma RejectKeepsInv(db: Db, ledger: nat, id: nat, checker: nat)
    requires Inv(db)
    ensures Inv(RejectJournal(db, ledger, id, checker).0)
  {
    if DecisionError(db, ledger, id, checker) == None {
      DecideKeepsInv(db, ledger, id, checker, Rejected, Draft);
    }
  }

  lemma InsertApprovalKeepsInv(db: Db, id: nat)
    requires Inv(db)
    ensures Inv(InsertApproval(db, id))
  {
  }

  lemma AddAccountKeepsInv(db: Db, a: Account)
    requires Inv(db)
    ensures Inv(AddAccount(db, a))
  {
    if AccountOf(db.accounts, a.id) == None {
      assert ([a] + db.accounts)[1..] == db.accounts;
      forall t | t in db.txns ensures GoodTxn([a] + db.accounts, db.ledgers, t) {
        assert GoodTxn(db.accounts, db.ledgers, t);
        forall p | p in t.postings ensures InLedger([a] + db.accounts, p.account, t.ledger) {
          assert InLedger(db.accounts, p.account, t.ledger);
        }
      }
    }
  }

  lemma SetAppendOnlyKeepsInv(db: Db, ledger: nat, enabled: bool)
    requires Inv(db)
    ensures Inv(SetAppendOnly(db, ledger, enabled))
  {
    var db' := SetAppendOnly(db, ledger, enabled);
    forall t | t in db'.txns ensures GoodTxn(db'.accounts, db'.ledgers, t) {
      assert GoodTxn(db.accounts, db.ledgers, t);
    }
  }

  lemma StepKeepsInv(db: Db, e: Event)
    requires Inv(db)
    ensures Inv(Step(db, e))
  {
    match e
    case DoCreate(rates, req) => CreateKeepsInv(db, rates, req, false);
    case DoCreateDraft(rates, req) => CreateKeepsInv(db, rates, req.(kind := Some(Draft)), true);
    case DoInsertApproval(id) => InsertApprovalKeepsInv(db, id);
    case DoPostDraft(ledger, id) => PostDraftKeepsInv(db, ledger, id);
    case DoDeleteDraft(ledger, id) => DeleteDraftKeepsInv(db, ledger, id);
    case DoApprove(ledger, id, checker) => ApproveKeepsInv(db, ledger, id, checker);
    case DoReject(ledger, id, checker) => RejectKeepsInv(db, ledger, id, checker);
    case DoClose(_, _) =>
    case DoReopen(_, _) =>
    case DoAddAccount(a) => AddAccountKeepsInv(db, a);
    case DoSetAppendOnly(ledger, enabled) => SetAppendOnlyKeepsInv(db, ledger, enabled);
  }

  /** Every run of every mix of calls keeps the invariant. */
  lemma {:induction false} RunKeepsInv(db: Db, events: seq<Event>)
    requires Inv(db)
    ensures Inv(Run(db, events))
    decreases |events|
  {
    if events != [] {
      StepKeepsInv(db, events[0]);
      RunKeepsInv(Step(db, events[0]), events[1..]);
    }
  }

  /**
   * Double entry over every run: each stored transaction has at least two positive
   * postings in its own ledger with equal debits and credits, and the account
   * balances satisfy assets + expenses = liabilities + equity + income.
   */
  lemma BooksAlwaysBalance(db: Db, events: seq<Event>, l: nat)
    requires Inv(db)
    ensures var final := Run(db, events);
            && (forall t :: t in final.txns ==> Balanced(final.accounts, t))
            && TypeTotal(final.accounts, final.txns, l, Asset) + TypeTotal(final.accounts, final.txns, l, Expense)
               == TypeTotal(final.accounts, final.txns, l, Liability) + TypeTotal(final.accounts, final.txns, l, Equity)
                  + TypeTotal(final.accounts, final.txns, l, Income)
  {
    RunKeepsInv(db, events);
    var final := Run(db, events);
    forall t | t in final.txns ensures Balanced(final.accounts, t) {
      assert GoodTxn(final.accounts, final.ledgers, t);
    }
    AccountingEquation(final.accounts, final.txns, l);
  }

  /* ---------- maker and checker ---------- */

  predicate IsPendingIn(db: Db, id: nat) {
    Lookup(db.txns, id).Some? && Lookup(db.txns, id).value.kind == Pending
  }

  /** The step is a successful decision about the journal. */
  predicate Decides(db: Db, e: Event, id: nat) {
    && (e.DoApprove? || e.DoReject?) && e.id == id
    && DecisionError(db, e.ledger, id, e.checker) == None && !Sealed(db, id)
  }

  predicate IsDecided(db: Db, id: nat, checker: nat) {
    id in db.approvals && db.approvals[id].status != Awaiting && db.approvals[id].checker == Some(checker)
  }

  /** What a step leaves of a stored row: promoted, deleted, decided, or as it was. */
  function RowAfter(db: Db, e: Event, id: nat): Option<Txn> {
    var t := Lookup(db.txns, id);
    match e
    case DoPostDraft(ledger, other) =>
      if other == id && PostDraft(db, ledger, id).1.Ok? then Some(t.value.(kind := Standard)) else t
    case DoDeleteDraft(ledger, other) => if other == id && DeleteDraft(db, ledger, id).1.Ok? then None else t
    case DoApprove(_, _, _) => if Decides(db, e, id) && t.Some? then Some(t.value.(kind := Standard)) else t
    case DoReject(_, _, _) => if Decides(db, e, id) && t.Some? then Some(t.value.(kind := Draft)) else t
    case _ => t
  }

  lemma PostDraftRow(db: Db, ledger: nat, other: nat, id: nat)
    requires Inv(db)
    ensures Lookup(PostDraft(db, ledger, other).0.txns, id) == RowAfter(db, DoPostDraft(ledger, other), id)
  {
    SetKindFacts(db.txns, other, Standard, db.nextId, id);
  }

  lemma DeleteDraftRow(db: Db, ledger: nat, other: nat, id: nat)
    requires Inv(db)
    ensures Lookup(DeleteDraft(db, ledger, other).0.txns, id) == RowAfter(db, DoDeleteDraft(ledger, other), id)
  {
    WithoutFacts(db.txns, other, db.nextId, id);
  }

  /** The journal of an awaiting approval is a pending row of the same ledger. */
  lemma AwaitingRow(db: Db, ledger: nat, id: nat, checker: nat)
    requires Inv(db) && DecisionError(db, ledger, id, checker) == None
    ensures IsPendingIn(db, id) && Lookup(db.txns, id).value.ledger == ledger && id !in db.inFlight
    ensures Lookup(db.txns, id).value.createdBy == db.approvals[id].maker
  {
    assert Agrees(db.approvals[id], Lookup(db.txns, id));
  }

  lemma DecideRow(db: Db, other: nat, checker: nat, status: Status, kind: Kind, id: nat)
    requires Inv(db) && other in db.approvals && Lookup(db.txns, other).Some?
    ensures Lookup(Decide(db, other, checker, status, kind).txns, id)
         == if other == id then Some(Lookup(db.txns, id).value.(kind := kind)) else Lookup(db.txns, id)
  {
    SetKindFacts(db.txns, other, kind, db.nextId, id);
  }

  lemma ApproveRow(db: Db, ledger: nat, other: nat, checker: nat, id: nat)
    requires Inv(db)
    ensures Lookup(ApproveJournal(db, ledger, other, checker).0.txns, id)
         == RowAfter(db, DoApprove(ledger, other, checker), id)
  {
    if DecisionError(db, ledger, other, checker) == None {
      AwaitingRow(db, ledger, other, checker);
      DecideRow(db, other, checker, Approved, Standard, id);
    }
  }

  lemma RejectRow(db: Db, ledger: nat, other: nat, checker: nat, id: nat)
    requires Inv(db)
    ensures Lookup(RejectJournal(db, ledger, other, checker).0.txns, id)
         == RowAfter(db, DoReject(ledger, other, checker), id)
  {
    if DecisionError(db, ledger, other, checker) == None {
      AwaitingRow(db, ledger, other, checker);
      DecideRow(db, other, checker, Rejected, Draft, id);
    }
  }

  /** A successful create adds one row with a new id and touches no other journal. */
  lemma Appends(db: Db, rates: RateLookup, req: Request, isDraft: bool) returns (t: Txn)
    requires Validated(db, rates, req, isDraft).Ok?
    ensures t.id == db.nextId
    ensures var db' := CreateWithKind(db, rates, req, isDraft).0;
            && db'.txns == db.txns + [t] && db'.approvals == db.approvals
            && forall id: nat :: id < db.nextId ==> (id in db'.inFlight <==> id in db.inFlight)
  {
    ValidatedLength(db, rates, req, isDraft);
    t := StoredTxn(db, req, isDraft, Validated(db, rates, req, isDraft).value);
  }

  lemma CreateKeepsLookup(db: Db, rates: RateLookup, req: Request, isDraft: bool, id: nat)
    requires Inv(db) && id < db.nextId
    ensures Lookup(CreateWithKind(db, rates, req, isDraft).0.txns, id) == Lookup(db.txns, id)
    ensures CreateWithKind(db, rates, req, isDraft).0.approvals == db.approvals
    ensures id in CreateWithKind(db, rates, req, isDraft).0.inFlight <==> id in db.inFlight
  {
    if Validated(db, rates, req, isDraft).Ok? {
      var t := Appends(db, rates, req, isDraft);
      LookupAppend(db.txns, t, id);
    }
  }

  /** One step, seen from one stored row. */
  lemma StepRow(db: Db, e: Event, id: nat)
    requires Inv(db) && id < db.nextId
    ensures Lookup(Step(db, e).txns, id) == RowAfter(db, e, id)
  {
    match e
    case DoCreate(rates, req) => CreateKeepsLookup(db, rates, req, false, id);
    case DoCreateDraft(rates, req) => CreateKeepsLookup(db, rates, req.(kind := Some(Draft)), true, id);
    case DoPostDraft(ledger, other) => PostDraftRow(db, ledger, other, id);
    case DoDeleteDraft(ledger, other) => DeleteDraftRow(db, ledger, other, id);
    case DoApprove(ledger, other, checker) => ApproveRow(db, ledger, other, checker, id);
    case DoReject(ledger, other, checker) => RejectRow(db, ledger, other, checker, id);
    case _ =>
  }

  lemma DecisionRecorded(db: Db, e: Event, id: nat)
    requires Inv(db) && Decides(db, e, id)
    ensures IsPendingIn(db, id) && e.checker != Lookup(db.txns, id).value.createdBy
    ensures db.approvals[id].status == Awaiting && IsDecided(Step(db, e), id, e.checker)
  {
    AwaitingRow(db, e.ledger, id, e.checker);
  }

  /** A journal leaves `pending` only by a decision, and only of somebody other than its maker. */
  lemma LeavesPendingByDecision(db: Db, e: Event, id: nat)
    requires Inv(db) && IsPendingIn(db, id) && !IsPendingIn(Step(db, e), id)
    ensures Decides(db, e, id) && e.checker != Lookup(db.txns, id).value.createdBy
    ensures db.approvals[id].status == Awaiting && IsDecided(Step(db, e), id, e.checker)
    ensures Lookup(Step(db, e).txns, id)
         == Some(Lookup(db.txns, id).value.(kind := if e.DoApprove? then Standard else Draft))
  {
    LookupFacts(db.txns, id, db.nextId);
    StepRow(db, e, id);
    assert Decides(db, e, id);
    DecisionRecorded(db, e, id);
  }

  function Decisions(db: Db, events: seq<Event>, id: nat): nat
    decreases |events|
  {
    if events == [] then 0
    else (if Decides(db, events[0], id) then 1 else 0) + Decisions(Step(db, events[0]), events[1..], id)
  }

  /** Without a decision a pending journal stays pending, through any run. */
  lemma {:induction false} HeldUntilDecided(db: Db, events: seq<Event>, id: nat)
    requires Inv(db) && IsPendingIn(db, id) && Decisions(db, events, id) == 0
    ensures IsPendingIn(Run(db, events), id)
    decreases |events|
  {
    if events != [] {
      if !IsPendingIn(Step(db, events[0]), id) {
        LeavesPendingByDecision(db, events[0], id);
      }
      StepKeepsInv(db, events[0]);
      HeldUntilDecided(Step(db, events[0]), events[1..], id);
    }
  }

  /** The total a journal is gated on: what it debits. */
  function DebitTotal(ps: seq<Posting>): int {
    if ps == [] then 0 else (if ps[0].direction.Debit? then ps[0].amount else 0) + DebitTotal(ps[1..])
  }

  lemma {:induction false} DebitTotalOf(lines: seq<Line>, amounts: seq<int>)
    requires |lines| == |amounts|
    ensures DebitTotal(PostingsFor(lines, amounts)) == Debits(amounts)
  {
    if lines != [] {
      DebitTotalOf(lines[1..], amounts[1..]);
      assert PostingsFor(lines, amounts)[1..] == PostingsFor(lines[1..], amounts[1..]);
    }
  }

  /** The ledger asks for a second pair of eyes on a posted journal of this kind and size. */
  predicate OverThreshold(db: Db, ledger: nat, kind: Option<Kind>, total: int) {
    && ledger in db.ledgers && db.ledgers[ledger].threshold.Some?
    && 0 <= db.ledgers[ledger].threshold.value <= total
    && (kind == None || kind == Some(Standard) || kind == Some(Adjusting))
  }

  /**
   * The gate, stated on what is stored: a standard or adjusting journal that debits the
   * threshold or more is held with an approval row due, and no other journal is.
   */
  lemma CreateHoldsExactly(db: Db, rates: RateLookup, req: Request)
    requires Inv(db) && Create(db, rates, req).1.Ok? && req.kind != Some(Pending)
    ensures var (db', r) := Create(db, rates, req); var t := Lookup(db'.txns, r.value.id);
            && t.Some? && r.value.id == db.nextId
            && (t.value.kind == Pending <==> OverThreshold(db, req.ledger, req.kind, DebitTotal(t.value.postings)))
            && (r.value.id in db'.inFlight <==> t.value.kind == Pending)
  {
    var amounts := Validated(db, rates, req, false).value;
    StoredIsGood(db, rates, req, false);
    var t := StoredTxn(db, req, false, amounts);
    LookupAppend(db.txns, t, t.id);
    DebitTotalOf(req.lines, amounts);
    if t.id in db.inFlight {
      AppendKeepsAgreement(db, t, t.id, db.inFlight[t.id]);
    }
  }

  /**
   * Maker-checker end to end: a journal over the threshold is in no report until
   * somebody decides about it, whatever else happens to the books meanwhile.
   */
  lemma LargeJournalUnreported(db: Db, rates: RateLookup, req: Request, events: seq<Event>, account: nat, d: int)
    requires Inv(db) && Create(db, rates, req).1.Ok?
    requires IsPendingIn(Create(db, rates, req).0, db.nextId)
    requires Decisions(Create(db, rates, req).0, events, db.nextId) == 0
    ensures var t := Lookup(Run(Create(db, rates, req).0, events).txns, db.nextId);
            t.Some? && Share(t.value, account, d) == 0
  {
    CreateKeepsInv(db, rates, req, false);
    HeldUntilDecided(Create(db, rates, req).0, events, db.nextId);
  }

  /** No decision about this journal can happen any more. */
  predicate Settled(db: Db, id: nat) {
    id < db.nextId && id !in db.inFlight && (id in db.approvals ==> db.approvals[id].status != Awaiting)
  }

  lemma DecisionLeavesSettled(db: Db, ledger: nat, other: nat, checker: nat, id: nat)
    requires Settled(db, id)
    ensures Settled(ApproveJournal(db, ledger, other, checker).0, id)
    ensures Settled(RejectJournal(db, ledger, other, checker).0, id)
    ensures other == id ==> DecisionError(db, ledger, other, checker) != None
  {
  }

  lemma SettledStays(db: Db, e: Event, id: nat)
    requires Inv(db) && Settled(db, id)
    ensures Settled(Step(db, e), id) && !Decides(db, e, id)
  {
    match e
    case DoCreate(rates, req) => CreateKeepsLookup(db, rates, req, false, id);
    case DoCreateDraft(rates, req) => CreateKeepsLookup(db, rates, req.(kind := Some(Draft)), true, id);
    case DoApprove(ledger, other, checker) => DecisionLeavesSettled(db, ledger, other, checker, id);
    case DoReject(ledger, other, checker) => DecisionLeavesSettled(db, ledger, other, checker, id);
    case _ =>
  }

  lemma {:induction false} SettledMeansNoDecision(db: Db, events: seq<Event>, id: nat)
    requires Inv(db) && Settled(db, id)
    ensures Decisions(db, events, id) == 0
    decreases |events|
  {
    if events != [] {
      SettledStays(db, events[0], id);
      StepKeepsInv(db, events[0]);
      SettledMeansNoDecision(Step(db, events[0]), events[1..], id);
    }
  }

  lemma DecisionSettles(db: Db, e: Event, id: nat)
    requires Inv(db) && Decides(db, e, id)
    ensures Settled(Step(db, e), id)
  {
    assert Agrees(db.approvals[id], Lookup(db.txns, id));
    LookupFacts(db.txns, id, db.nextId);
  }

  /** At most one decision per journal in any run, interleaved approval inserts included. */
  lemma {:induction false} DecidedAtMostOnce(db: Db, events: seq<Event>, id: nat)
    requires Inv(db)
    ensures Decisions(db, events, id) <= 1
    decreases |events|
  {
    if events != [] {
      StepKeepsInv(db, events[0]);
      if Decides(db, events[0], id) {
        DecisionSettles(db, events[0], id);
        SettledMeansNoDecision(Step(db, events[0]), events[1..], id);
      } else {
        DecidedAtMostOnce(Step(db, events[0]), events[1..], id);
      }
    }
  }

  predicate IsApproved(db: Db, id: nat) {
    id in db.approvals && db.approvals[id].status == Approved
  }

  lemma DeleteKeepsApproval(db: Db, ledger: nat, other: nat, id: nat)
    requires id in db.approvals && Lookup(db.txns, id).Some? && Lookup(db.txns, id).value.kind != Draft
    ensures id in DeleteDraft(db, ledger, other).0.approvals
    ensures DeleteDraft(db, ledger, other).0.approvals[id] == db.approvals[id]
  {
  }

  lemma CreateKeepsApprovals(db: Db, rates: RateLookup, req: Request, isDraft: bool)
    ensures CreateWithKind(db, rates, req, isDraft).0.approvals == db.approvals
  {
  }

  lemma ApproveKeepsOthers(db: Db, ledger: nat, other: nat, checker: nat, id: nat)
    requires id in db.approvals && db.approvals[id].status != Awaiting
    ensures id in ApproveJournal(db, ledger, other, checker).0.approvals
    ensures ApproveJournal(db, ledger, other, checker).0.approvals[id] == db.approvals[id]
  {
  }

  lemma RejectKeepsOthers(db: Db, ledger: nat, other: nat, checker: nat, id: nat)
    requires id in db.approvals && db.approvals[id].status != Awaiting
    ensures id in RejectJournal(db, ledger, other, checker).0.approvals
    ensures RejectJournal(db, ledger, other, checker).0.approvals[id] == db.approvals[id]
  {
  }

  /** The approval row of an approved journal is neither deleted nor decided again. */
  lemma ApprovedStays(db: Db, e: Event, id: nat)
    requires Inv(db) && IsApproved(db, id)
    ensures IsApproved(Step(db, e), id) && Step(db, e).approvals[id] == db.approvals[id]
  {
    assert Agrees(db.approvals[id], Lookup(db.txns, id));
    match e
    case DoCreate(rates, req) => CreateKeepsApprovals(db, rates, req, false);
    case DoCreateDraft(rates, req) => CreateKeepsApprovals(db, rates, req.(kind := Some(Draft)), true);
    case DoDeleteDraft(ledger, other) => DeleteKeepsApproval(db, ledger, other, id);
    case DoApprove(ledger, other, checker) => ApproveKeepsOthers(db, ledger, other, checker, id);
    case DoReject(ledger, other, checker) => RejectKeepsOthers(db, ledger, other, checker, id);
    case _ =>
  }

  /** Once approved, a journal keeps its approval and stays `standard` for the rest of the run. */
  lemma {:induction false} ApprovalIsFinal(db: Db, events: seq<Event>, id: nat)
    requires Inv(db) && IsApproved(db, id)
    ensures var final := Run(db, events);
            && IsApproved(final, id) && final.approvals[id] == db.approvals[id]
            && Lookup(final.txns, id).Some? && Lookup(final.txns, id).value.kind == Standard
            && final.approvals[id].checker.Some? && final.approvals[id].checker.value != final.approvals[id].maker
    decreases |events|
  {
    if events == [] {
      assert Agrees(db.approvals[id], Lookup(db.txns, id));
    } else {
      StepKeepsInv(db, events[0]);
      ApprovedStays(db, events[0], id);
      ApprovalIsFinal(Step(db, events[0]), events[1..], id);
    }
  }

  /* ---------- frozen history ---------- */

  predicate AtLeast(w': Option<int>, w: int) {
    w'.Some? && w'.value >= w
  }

  /** The account belongs to the ledger that is closed through w. */
  predicate ClosedAccount(db: Db, l: nat, w: int, account: nat) {
    InLedger(db.accounts, account, l) && AtLeast(Watermark(db.closed, l), w)
  }

  lemma CreateFrozen(db: Db, rates: RateLookup, req: Request, isDraft: bool, l: nat, w: int, account: nat, d: int)
    requires Inv(db) && ClosedAccount(db, l, w, account) && d <= w
    requires isDraft ==> req.kind == Some(Draft)
    ensures RawAsOf(CreateWithKind(db, rates, req, isDraft).0.txns, account, d) == RawAsOf(db.txns, account, d)
  {
    if Validated(db, rates, req, isDraft).Ok? {
      StoredIsGood(db, rates, req, isDraft);
      var t := StoredTxn(db, req, isDraft, Validated(db, rates, req, isDraft).value);
      assert (db.txns + [t])[..|db.txns|] == db.txns;
      if t.ledger != l {
        NetElsewhere(db.accounts, t.postings, t.ledger, account);
      }
    }
  }

  lemma DraftChangeFrozen(db: Db, ledger: nat, id: nat, kind: Kind, l: nat, account: nat, d: int)
    requires Inv(db) && Lookup(db.txns, id).Some? && !InReports(Lookup(db.txns, id).value.kind)
    requires Lookup(db.txns, id).value.ledger == ledger && InLedger(db.accounts, account, l)
    requires InReports(kind) && ledger == l ==> Lookup(db.txns, id).value.date > d
    ensures RawAsOf(SetKind(db.txns, id, kind), account, d) == RawAsOf(db.txns, account, d)
  {
    var t := Lookup(db.txns, id).value;
    SetKindRawAsOf(db.txns, id, kind, db.nextId, account, d);
    LookupFacts(db.txns, id, db.nextId);
    assert GoodTxn(db.accounts, db.ledgers, t);
    if ledger != l {
      NetElsewhere(db.accounts, t.postings, t.ledger, account);
    }
  }

  /** Reported balances of every account, as of every date up to w, are the same in both databases. */
  ghost predicate SameHistory(a: Db, b: Db, w: int) {
    forall account: nat, d: int :: d <= w ==> RawAsOf(a.txns, account, d) == RawAsOf(b.txns, account, d)
  }

  ghost predicate MovesNothing(ps: seq<Posting>) {
    forall account: nat :: Net(ps, account) == 0
  }

  lemma ApprovalMoves(db: Db, ledger: nat, id: nat, checker: nat, account: nat, d: int)
    requires Inv(db) && DecisionError(db, ledger, id, checker) == None && !Sealed(db, id)
    requires Lookup(db.txns, id).Some? && Lookup(db.txns, id).value.ledger == ledger
    requires Lookup(db.txns, id).value.kind == Pending
    ensures var t := Lookup(db.txns, id).value;
            RawAsOf(ApproveJournal(db, ledger, id, checker).0.txns, account, d)
            == RawAsOf(db.txns, account, d) + if t.date <= d then Net(t.postings, account) else 0
  {
    SetKindRawAsOf(db.txns, id, Standard, db.nextId, account, d);
  }

  /** Shifting the balances up to w by a transaction's effect leaves them alone exactly in the two cases. */
  lemma ShiftKeepsHistory(a: Db, b: Db, t: Txn, w: int)
    requires forall account: nat, d: int ::
      RawAsOf(b.txns, account, d) == RawAsOf(a.txns, account, d) + if t.date <= d then Net(t.postings, account) else 0
    ensures SameHistory(a, b, w) <==> t.date > w || MovesNothing(t.postings)
  {
    if t.date <= w && !MovesNothing(t.postings) {
      var account: nat :| Net(t.postings, account) != 0;
      assert RawAsOf(b.txns, account, w) != RawAsOf(a.txns, account, w);
    }
  }

  /**
   * Exactly when an approval is harmless, since it does not read the watermark: it leaves
   * the history up to w alone if and only if the ledger's triggers refuse it, the journal
   * is dated after w, or it moves no account.
   */
  lemma ApprovalFrozenExactly(db: Db, ledger: nat, id: nat, checker: nat, w: int)
    requires Inv(db) && DecisionError(db, ledger, id, checker) == None
    ensures Lookup(db.txns, id).Some?
    ensures var t := Lookup(db.txns, id).value;
            SameHistory(db, ApproveJournal(db, ledger, id, checker).0, w)
            <==> Sealed(db, id) || t.date > w || MovesNothing(t.postings)
  {
    AwaitingRow(db, ledger, id, checker);
    var t := Lookup(db.txns, id).value;
    var after := ApproveJournal(db, ledger, id, checker).0;
    if !Sealed(db, id) {
      forall account: nat, d: int
        ensures RawAsOf(after.txns, account, d)
             == RawAsOf(db.txns, account, d) + if t.date <= d then Net(t.postings, account) else 0
      {
        ApprovalMoves(db, ledger, id, checker, account, d);
      }
      ShiftKeepsHistory(db, after, t, w);
    }
  }

  /**
   * The gap is reachable: closing the books over a journal that still awaits its
   * approval and approving it afterwards rewrites a closed balance.
   */
  lemma LateApprovalRewritesHistory(db: Db, ledger: nat, id: nat, checker: nat, through: int)
    requires Inv(db) && DecisionError(db, ledger, id, checker) == None && !AppendOnly(db, ledger)
    requires ClosePeriod(db.closed, ledger, through).1.Ok?
    requires Lookup(db.txns, id).Some? && Lookup(db.txns, id).value.date <= through
    requires !MovesNothing(Lookup(db.txns, id).value.postings)
    ensures var closed := Step(db, DoClose(ledger, through));
            && Watermark(closed.closed, ledger) == Some(through)
            && !SameHistory(closed, Step(closed, DoApprove(ledger, id, checker)), through)
  {
    var closed := Step(db, DoClose(ledger, through));
    AwaitingRow(db, ledger, id, checker);
    CloseRaisesWatermark(db.closed, ledger, through, ledger);
    StepKeepsInv(db, DoClose(ledger, through));
    ApprovalFrozenExactly(closed, ledger, id, checker, through);
  }

  /**
   * The steps that leave the history of ledger l up to w alone: all but an approval there
   * of a journal dated up to w that moves something, and a reopening there that leaves no
   * earlier close over w.
   */
  ghost predicate Harmless(db: Db, e: Event, l: nat, w: int) {
    match e
    case DoApprove(ledger, id, checker) =>
      ledger == l && Decides(db, e, id) && Lookup(db.txns, id).Some? ==>
        Lookup(db.txns, id).value.date > w || MovesNothing(Lookup(db.txns, id).value.postings)
    case DoReopen(ledger, from) => ledger == l ==> StaysClosed(db.closed, l, from, w)
    case _ => true
  }

  /** One account of ledger l keeps its balance as of d, and the ledger stays closed through w. */
  predicate Unmoved(db: Db, db': Db, l: nat, w: int, account: nat, d: int) {
    RawAsOf(db'.txns, account, d) == RawAsOf(db.txns, account, d) && ClosedAccount(db', l, w, account)
  }

  lemma PostDraftFrozen(db: Db, ledger: nat, id: nat, l: nat, w: int, account: nat, d: int)
    requires Inv(db) && ClosedAccount(db, l, w, account) && d <= w
    ensures Unmoved(db, PostDraft(db, ledger, id).0, l, w, account, d)
  {
    if PostDraft(db, ledger, id).1.Ok? {
      DraftChangeFrozen(db, ledger, id, Standard, l, account, d);
    }
  }

  lemma DeleteDraftFrozen(db: Db, ledger: nat, id: nat, l: nat, w: int, account: nat, d: int)
    requires Inv(db) && ClosedAccount(db, l, w, account)
    ensures Unmoved(db, DeleteDraft(db, ledger, id).0, l, w, account, d)
  {
    if DeleteDraft(db, ledger, id).1.Ok? {
      WithoutRawAsOf(db.txns, id, db.nextId, account, d);
    }
  }

  lemma RejectFrozen(db: Db, ledger: nat, id: nat, checker: nat, l: nat, w: int, account: nat, d: int)
    requires Inv(db) && ClosedAccount(db, l, w, account)
    ensures Unmoved(db, RejectJournal(db, ledger, id, checker).0, l, w, account, d)
  {
    if DecisionError(db, ledger, id, checker) == None && !Sealed(db, id) {
      AwaitingRow(db, ledger, id, checker);
      DraftChangeFrozen(db, ledger, id, Draft, l, account, d);
    }
  }

  lemma ApproveFrozen(db: Db, ledger: nat, id: nat, checker: nat, l: nat, w: int, account: nat, d: int)
    requires Inv(db) && ClosedAccount(db, l, w, account) && d <= w && Harmless(db, DoApprove(ledger, id, checker), l, w)
    ensures Unmoved(db, ApproveJournal(db, ledger, id, checker).0, l, w, account, d)
  {
    if DecisionError(db, ledger, id, checker) == None && !Sealed(db, id) {
      AwaitingRow(db, ledger, id, checker);
      SetKindRawAsOf(db.txns, id, Standard, db.nextId, account, d);
      var t := Lookup(db.txns, id).value;
      LookupFacts(db.txns, id, db.nextId);
      assert GoodTxn(db.accounts, db.ledgers, t);
      if ledger != l {
        NetElsewhere(db.accounts, t.postings, t.ledger, account);
      }
    }
  }

  lemma ReopenCloses(rows: seq<ClosedRow>, ledger: nat, from: Option<int>, l: nat, w: int)
    requires AtLeast(Watermark(rows, l), w)
    ensures AtLeast(Watermark(Reopen(rows, ledger, from), l), w) <==> (ledger == l ==> StaysClosed(rows, l, from, w))
  {
    if ledger == l {
      ReopenExactly(rows, l, from, w);
    } else {
      ReopenLeavesOthers(rows, ledger, from, l);
    }
  }

  lemma StepFrozen(db: Db, e: Event, l: nat, w: int, account: nat, d: int)
    requires Inv(db) && Harmless(db, e, l, w) && ClosedAccount(db, l, w, account) && d <= w
    ensures Unmoved(db, Step(db, e), l, w, account, d)
  {
    match e
    case DoCreate(rates, req) => CreateFrozen(db, rates, req, false, l, w, account, d);
    case DoCreateDraft(rates, req) => CreateFrozen(db, rates, req.(kind := Some(Draft)), true, l, w, account, d);
    case DoPostDraft(ledger, id) => PostDraftFrozen(db, ledger, id, l, w, account, d);
    case DoDeleteDraft(ledger, id) => DeleteDraftFrozen(db, ledger, id, l, w, account, d);
    case DoApprove(ledger, id, checker) => ApproveFrozen(db, ledger, id, checker, l, w, account, d);
    case DoReject(ledger, id, checker) => RejectFrozen(db, ledger, id, checker, l, w, account, d);
    case DoClose(ledger, through) => CloseRaisesWatermark(db.closed, ledger, through, l);
    case DoReopen(ledger, from) => ReopenCloses(db.closed, ledger, from, l, w);
    case DoAddAccount(a) => assert ([a] + db.accounts)[1..] == db.accounts;
    case _ =>
  }

  /** Every step is harmless in the state it meets. */
  ghost predicate HarmlessRun(db: Db, events: seq<Event>, l: nat, w: int)
    decreases |events|
  {
    events != [] ==> Harmless(db, events[0], l, w) && HarmlessRun(Step(db, events[0]), events[1..], l, w)
  }

  /**
   * Frozen history: once a ledger is closed through w, no run of creates, drafts,
   * promotions, deletions, rejections, further closes, approvals of journals dated after
   * w, and any approvals and reopenings in other ledgers changes a reported balance of any of
   * its accounts as of any date up to w, and the watermark never drops below w.
   */
  lemma {:induction false} HistoryIsFrozen(db: Db, events: seq<Event>, l: nat, w: int, account: nat, d: int)
    requires Inv(db) && HarmlessRun(db, events, l, w) && ClosedAccount(db, l, w, account) && d <= w
    ensures RawAsOf(Run(db, events).txns, account, d) == RawAsOf(db.txns, account, d)
    ensures AtLeast(Watermark(Run(db, events).closed, l), w)
    decreases |events|
  {
    if events != [] {
      StepFrozen(db, events[0], l, w, account, d);
      StepKeepsInv(db, events[0]);
      HistoryIsFrozen(Step(db, events[0]), events[1..], l, w, account, d);
    }
  }

  /** Ledger l shows the same balances up to w in both databases, and is closed through w in the second. */
  ghost predicate StaysFrozen(db: Db, db': Db, l: nat, w: int) {
    && AtLeast(Watermark(db'.closed, l), w)
    && forall account: nat, d: int :: InLedger(db.accounts, account, l) && d <= w ==>
         RawAsOf(db'.txns, account, d) == RawAsOf(db.txns, account, d)
  }

  lemma HarmlessKeepsClose(db: Db, e: Event, l: nat, w: int)
    requires AtLeast(Watermark(db.closed, l), w) && Harmless(db, e, l, w)
    ensures AtLeast(Watermark(Step(db, e).closed, l), w)
  {
    if e.DoClose? {
      CloseRaisesWatermark(db.closed, e.ledger, e.through, l);
    } else if e.DoReopen? {
      ReopenCloses(db.closed, e.ledger, e.from, l, w);
    }
  }

  lemma HarmfulApproval(db: Db, l: nat, id: nat, checker: nat, w: int)
    requires Inv(db) && !Harmless(db, DoApprove(l, id, checker), l, w)
    ensures exists account: nat ::
              && InLedger(db.accounts, account, l)
              && RawAsOf(ApproveJournal(db, l, id, checker).0.txns, account, w) != RawAsOf(db.txns, account, w)
  {
    AwaitingRow(db, l, id, checker);
    var t := Lookup(db.txns, id).value;
    var account: nat :| Net(t.postings, account) != 0;
    LookupFacts(db.txns, id, db.nextId);
    assert GoodTxn(db.accounts, db.ledgers, t);
    if !InLedger(db.accounts, account, l) {
      NetElsewhere(db.accounts, t.postings, t.ledger, account);
    }
    SetKindRawAsOf(db.txns, id, Standard, db.nextId, account, w);
  }

  /** The condition on a step is exact: no weaker one keeps the closed history and the close. */
  lemma FrozenStepExactly(db: Db, e: Event, l: nat, w: int)
    requires Inv(db) && AtLeast(Watermark(db.closed, l), w)
    ensures StaysFrozen(db, Step(db, e), l, w) <==> Harmless(db, e, l, w)
  {
    if Harmless(db, e, l, w) {
      HarmlessKeepsClose(db, e, l, w);
      forall account: nat, d: int | InLedger(db.accounts, account, l) && d <= w
        ensures RawAsOf(Step(db, e).txns, account, d) == RawAsOf(db.txns, account, d)
      {
        StepFrozen(db, e, l, w, account, d);
      }
    } else if e.DoApprove? {
      HarmfulApproval(db, e.ledger, e.id, e.checker, w);
    } else {
      ReopenCloses(db.closed, e.ledger, e.from, l, w);
    }
  }

  /* ---------- append-only ledgers ---------- */

  /** Nobody turns the ledger's append-only mode off during the run. */
  predicate KeepsMode(events: seq<Event>, l: nat) {
    forall i :: 0 <= i < |events| ==> events[i] != DoSetAppendOnly(l, false)
  }

  lemma SealedStep(db: Db, e: Event, l: nat, id: nat)
    requires Inv(db) && AppendOnly(db, l) && e != DoSetAppendOnly(l, false)
    requires Lookup(db.txns, id).Some? && Lookup(db.txns, id).value.ledger == l
    ensures AppendOnly(Step(db, e), l) && Lookup(Step(db, e).txns, id) == Lookup(db.txns, id)
  {
    LookupFacts(db.txns, id, db.nextId);
    StepRow(db, e, id);
    assert Sealed(db, id);
  }

  /** While a ledger is append-only, no run of any calls changes or removes one of its stored transactions. */
  lemma {:induction false} SealedRowsStay(db: Db, events: seq<Event>, l: nat, id: nat)
    requires Inv(db) && AppendOnly(db, l) && KeepsMode(events, l)
    requires Lookup(db.txns, id).Some? && Lookup(db.txns, id).value.ledger == l
    ensures Lookup(Run(db, events).txns, id) == Lookup(db.txns, id)
    decreases |events|
  {
    if events != [] {
      SealedStep(db, events[0], l, id);
      StepKeepsInv(db, events[0]);
      SealedRowsStay(Step(db, events[0]), events[1..], l, id);
    }
  }

  /** The two controls exclude each other: in such a ledger a held journal can never be decided. */
  lemma {:induction false} SealedJournalUndecided(db: Db, events: seq<Event>, l: nat, id: nat)
    requires Inv(db) && AppendOnly(db, l) && KeepsMode(events, l)
    requires Lookup(db.txns, id).Some? && Lookup(db.txns, id).value.ledger == l
    ensures Decisions(db, events, id) == 0
    decreases |events|
  {
    if events != [] {
      assert Sealed(db, id);
      SealedStep(db, events[0], l, id);
      StepKeepsInv(db, events[0]);
      SealedJournalUndecided(Step(db, events[0]), events[1..], l, id);
    }
  }
}
