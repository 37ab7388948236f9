/**
 * The posting service (src/domain/posting_service.rs) as transitions of the
 * database. Each call is one atomic step, except that a create which needs approval
 * commits first and inserts its approval row in a later step.
 */
module PostingSpec {
  import opened Prelude
  import opened LedgerTables
  import opened CloseControls
  import Fx

  datatype Foreign = Foreign(amount: int, currency: string)

  datatype Line = Line(account: nat, amount: int, foreign: Option<Foreign>, costCenter: Option<nat>,
                       project: Option<nat>)

  datatype Request = Request(ledger: nat, date: int, description: string, kind: Option<Kind>, createdBy: nat,
                           lines: seq<Line>, reversesId: Option<nat>)

  datatype Error =
    | Unbalanced(debits: int, credits: int)
    | HardClosed(ledger: nat, through: int)
    | SelfApproval
    | NotPending
    | LedgerNotFound
    | UnknownAccount(account: nat)
    | WrongLedger(account: nat)
    | UnknownCostCenter(id: nat)
    | UnknownProject(id: nat)
    | MissingFxRate(currency: string)
    | CheckViolation
    | AppendOnlyLedger

  datatype Created = Created(id: nat, kind: Kind)

  /** The applicable rate from a currency to the base currency on a date, if there is one. */
  type RateLookup = (string, string, int) -> Option<real>

  predicate HasForeign(lines: seq<Line>) {
    exists i :: 0 <= i < |lines| && lines[i].foreign.Some?
  }

  /** Base amounts of the lines, or the first missing rate. */
  function Derived(lines: seq<Line>, rates: RateLookup, base: string, date: int): Result<seq<int>, Error> {
    if lines == [] then Ok([])
    else
      var l := lines[0];
      var rate := if l.foreign.Some? then rates(l.foreign.value.currency, base, date) else None;
      if l.foreign.Some? && rate == None then Err(MissingFxRate(l.foreign.value.currency))
      else
        match Derived(lines[1..], rates, base, date)
        case Err(e) => Err(e)
        case Ok(rest) =>
          Ok([if l.foreign.Some? then Fx.DeriveBaseAmount(l.foreign.value.amount, rate.value) else l.amount] + rest)
  }

  function Amounts(lines: seq<Line>): seq<int> {
    seq(|lines|, i requires 0 <= i < |lines| => lines[i].amount)
  }

  function Effective(db: Db, rates: RateLookup, req: Request): Result<seq<int>, Error> {
    if !HasForeign(req.lines) then Ok(Amounts(req.lines))
    else if req.ledger !in db.ledgers then Err(LedgerNotFound)
    else Derived(req.lines, rates, db.ledgers[req.ledger].currency, req.date)
  }

  function Debits(amounts: seq<int>): int {
    if amounts == [] then 0 else (if amounts[0] >= 0 then amounts[0] else 0) + Debits(amounts[1..])
  }

  function Credits(amounts: seq<int>): int {
    if amounts == [] then 0 else (if amounts[0] >= 0 then 0 else -amounts[0]) + Credits(amounts[1..])
  }

  function AccountError(accounts: seq<Account>, ledger: nat, lines: seq<Line>): Option<Error> {
    if lines == [] then None
    else
      match AccountOf(accounts, lines[0].account)
      case None => Some(UnknownAccount(lines[0].account))
      case Some(a) =>
        if a.ledger != ledger then Some(WrongLedger(lines[0].account))
        else AccountError(accounts, ledger, lines[1..])
  }

  function DimensionError(db: Db, ledger: nat, lines: seq<Line>): Option<Error> {
    if lines == [] then None
    else
      var l := lines[0];
      if l.costCenter.Some? && (l.costCenter.value, ledger) !in db.costCenters then
        Some(UnknownCostCenter(l.costCenter.value))
      else if l.project.Some? && (l.project.value, ledger) !in db.projects then
        Some(UnknownProject(l.project.value))
      else DimensionError(db, ledger, lines[1..])
  }

  predicate NonZero(amounts: seq<int>) {
    forall i :: 0 <= i < |amounts| ==> amounts[i] != 0
  }

  /** Every check of `create_with_kind`, in its order; the effective amounts when all pass. */
  function Validated(db: Db, rates: RateLookup, req: Request, isDraft: bool): Result<seq<int>, Error> {
    if |req.lines| < 2 then Err(Unbalanced(0, 0))
    else
      match Effective(db, rates, req)
      case Err(e) => Err(e)
      case Ok(amounts) =>
        if Debits(amounts) != Credits(amounts) then Err(Unbalanced(Debits(amounts), Credits(amounts)))
        else if req.ledger !in db.ledgers then Err(LedgerNotFound)
        else
          var w := Watermark(db.closed, req.ledger);
          if !isDraft && IsClosed(w, req.date) then Err(HardClosed(req.ledger, w.value))
          else
            match AccountError(db.accounts, req.ledger, req.lines)
            case Some(e) => Err(e)
            case None =>
              match DimensionError(db, req.ledger, req.lines)
              case Some(e) => Err(e)
              case None => if NonZero(amounts) then Ok(amounts) else Err(CheckViolation)
  }

  /** Maker-checker gate: a standard or adjusting journal at or above a non-negative threshold. */
  predicate NeedsApproval(db: Db, req: Request, isDraft: bool, total: int)
    requires req.ledger in db.ledgers
  {
    var kind := if req.kind.Some? then req.kind.value else Standard;
    var threshold := db.ledgers[req.ledger].threshold;
    && !isDraft && (kind == Standard || kind == Adjusting)
    && threshold.Some? && threshold.value >= 0 && total >= threshold.value
  }

  function PostingFor(line: Line, amount: int): Posting {
    Posting(line.account, if amount >= 0 then amount else -amount, if amount >= 0 then Debit else Credit)
  }

  function PostingsFor(lines: seq<Line>, amounts: seq<int>): seq<Posting>
    requires |lines| == |amounts|
  {
    if lines == [] then [] else [PostingFor(lines[0], amounts[0])] + PostingsFor(lines[1..], amounts[1..])
  }

  lemma {:induction false} DerivedLength(lines: seq<Line>, rates: RateLookup, base: string, date: int)
    ensures Derived(lines, rates, base, date).Ok? ==> |Derived(lines, rates, base, date).value| == |lines|
  {
    if lines != [] { DerivedLength(lines[1..], rates, base, date); }
  }

  lemma ValidatedLength(db: Db, rates: RateLookup, req: Request, isDraft: bool)
    ensures Validated(db, rates, req, isDraft).Ok? ==>
      |Validated(db, rates, req, isDraft).value| == |req.lines| && req.ledger in db.ledgers
  {
    if req.ledger in db.ledgers {
      DerivedLength(req.lines, rates, db.ledgers[req.ledger].currency, req.date);
    }
  }

  /** The row a validated request is stored as. */
  function StoredTxn(db: Db, req: Request, isDraft: bool, amounts: seq<int>): Txn
    requires req.ledger in db.ledgers && |amounts| == |req.lines|
  {
    var kind := if NeedsApproval(db, req, isDraft, Debits(amounts)) then Pending
                else if req.kind.Some? then req.kind.value else Standard;
    Txn(db.nextId, req.ledger, req.date, req.description, kind, req.createdBy, req.reversesId,
        PostingsFor(req.lines, amounts))
  }

  /** `create_with_kind` up to its commit. */
  function CreateWithKind(db: Db, rates: RateLookup, req: Request, isDraft: bool): (Db, Result<Created, Error>) {
    match Validated(db, rates, req, isDraft)
    case Err(e) => (db, Err(e))
    case Ok(amounts) =>
      ValidatedLength(db, rates, req, isDraft);
      var t := StoredTxn(db, req, isDraft, amounts);
      var due := if NeedsApproval(db, req, isDraft, Debits(amounts))
                 then map[t.id := Approval(req.ledger, req.createdBy, Awaiting, None, Debits(amounts))] else map[];
      (db.(txns := db.txns + [t], nextId := db.nextId + 1, inFlight := db.inFlight + due), Ok(Created(t.id, t.kind)))
  }

  function Create(db: Db, rates: RateLookup, req: Request): (Db, Result<Created, Error>) {
    CreateWithKind(db, rates, req, false)
  }

  function CreateDraft(db: Db, rates: RateLookup, req: Request): (Db, Result<Created, Error>) {
    CreateWithKind(db, rates, req.(kind := Some(Draft)), true)
  }

  /** The approval row of an earlier create lands, unless the journal already has one. */
  function InsertApproval(db: Db, id: nat): Db {
    if id !in db.inFlight then db
    else db.(approvals := if id in db.approvals then db.approvals else db.approvals[id := db.inFlight[id]],
             inFlight := db.inFlight - {id})
  }

  predicate AppendOnly(db: Db, ledger: nat) {
    ledger in db.ledgers && db.ledgers[ledger].appendOnly
  }

  /** The database triggers refuse to change or delete this row: its ledger is append-only. */
  predicate Sealed(db: Db, id: nat) {
    Lookup(db.txns, id).Some? && AppendOnly(db, Lookup(db.txns, id).value.ledger)
  }

  function PostDraft(db: Db, ledger: nat, id: nat): (Db, Result<Created, Error>) {
    var t := Lookup(db.txns, id);
    if ledger !in db.ledgers || t == None || t.value.ledger != ledger then (db, Err(LedgerNotFound))
    else if t.value.kind != Draft then (db, Err(Unbalanced(0, 0)))
    else if IsClosed(Watermark(db.closed, ledger), t.value.date) then
      (db, Err(HardClosed(ledger, Watermark(db.closed, ledger).value)))
    else if Sealed(db, id) then (db, Err(AppendOnlyLedger))
    else (db.(txns := SetKind(db.txns, id, Standard)), Ok(Created(id, Standard)))
  }

  /** Deleting the transaction row cascades to its approval row. */
  function DeleteDraft(db: Db, ledger: nat, id: nat): (Db, Result<(), Error>) {
    var t := Lookup(db.txns, id);
    if t == None || t.value.ledger != ledger then (db, Err(LedgerNotFound))
    else if t.value.kind != Draft then (db, Err(Unbalanced(0, 0)))
    else if Sealed(db, id) then (db, Err(AppendOnlyLedger))
    else (db.(txns := Without(db.txns, id), approvals := db.approvals - {id}), Ok(()))
  }

  function DecisionError(db: Db, ledger: nat, id: nat, checker: nat): Option<Error> {
    if id !in db.approvals || db.approvals[id].ledger != ledger || db.approvals[id].status != Awaiting then
      Some(NotPending)
    else if db.approvals[id].maker == checker then Some(SelfApproval)
    else None
  }

  function Decide(db: Db, id: nat, checker: nat, status: Status, kind: Kind): Db
    requires id in db.approvals
  {
    db.(txns := SetKind(db.txns, id, kind),
        approvals := db.approvals[id := db.approvals[id].(status := status, checker := Some(checker))])
  }

  function ApproveJournal(db: Db, ledger: nat, id: nat, checker: nat): (Db, Result<(), Error>) {
    match DecisionError(db, ledger, id, checker)
    case Some(e) => (db, Err(e))
    case None =>
      // The update is further restricted to the approval row's ledger.
      if Lookup(db.txns, id).Some? && Lookup(db.txns, id).value.ledger == ledger then
        if Sealed(db, id) then (db, Err(AppendOnlyLedger)) else (Decide(db, id, checker, Approved, Standard), Ok(()))
      else
        (db.(approvals := db.approvals[id := db.approvals[id].(status := Approved, checker := Some(checker))]), Ok(()))
  }

  function RejectJournal(db: Db, ledger: nat, id: nat, checker: nat): (Db, Result<(), Error>) {
    match DecisionError(db, ledger, id, checker)
    case Some(e) => (db, Err(e))
    case None =>
      if Sealed(db, id) then (db, Err(AppendOnlyLedger)) else (Decide(db, id, checker, Rejected, Draft), Ok(()))
  }

  /** Any step of a run; `AddAccount` inserts an account row with an unused id. */
  datatype Event =
    | DoCreate(rates: RateLookup, req: Request)
    | DoCreateDraft(rates: RateLookup, req: Request)
    | DoInsertApproval(id: nat)
    | DoPostDraft(ledger: nat, id: nat)
    | DoDeleteDraft(ledger: nat, id: nat)
    | DoApprove(ledger: nat, id: nat, checker: nat)
    | DoReject(ledger: nat, id: nat, checker: nat)
    | DoClose(ledger: nat, through: int)
    | DoReopen(ledger: nat, from: Option<int>)
    | DoAddAccount(account: Account)
    | DoSetAppendOnly(ledger: nat, enabled: bool)

  function AddAccount(db: Db, a: Account): Db {
    if AccountOf(db.accounts, a.id).Some? then db else db.(accounts := [a] + db.accounts)
  }

  /** `toggle_append_only`. */
  function SetAppendOnly(db: Db, ledger: nat, enabled: bool): Db {
    if ledger !in db.ledgers then db
    else db.(ledgers := db.ledgers[ledger := db.ledgers[ledger].(appendOnly := enabled)])
  }

  function Step(db: Db, e: Event): Db {
    match e
    case DoCreate(rates, req) => Create(db, rates, req).0
    case DoCreateDraft(rates, req) => CreateDraft(db, rates, req).0
    case DoInsertApproval(id) => InsertApproval(db, id)
    case DoPostDraft(ledger, id) => PostDraft(db, ledger, id).0
    case DoDeleteDraft(ledger, id) => DeleteDraft(db, ledger, id).0
    case DoApprove(ledger, id, checker) => ApproveJournal(db, ledger, id, checker).0
    case DoReject(ledger, id, checker) => RejectJournal(db, ledger, id, checker).0
    case DoClose(ledger, through) => db.(closed := ClosePeriod(db.closed, ledger, through).0)
    case DoReopen(ledger, from) => db.(closed := Reopen(db.closed, ledger, from))
    case DoAddAccount(a) => AddAccount(db, a)
    case DoSetAppendOnly(ledger, enabled) => SetAppendOnly(db, ledger, enabled)
  }

  function Run(db: Db, events: seq<Event>): Db
    decreases |events|
  {
    if events == [] then db else Run(Step(db, events[0]), events[1..])
  }
}
