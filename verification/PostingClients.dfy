/**
 * Two clients of the posting service: the opening-balances form
 * (src/handlers/accounts.rs) and the reversal endpoint (src/api/transactions.rs).
 */
module PostingClients {
  import opened Prelude
  import opened Numbers
  import opened LedgerTables
  import opened CloseControls
  import opened PostingSpec
  import opened PostingRuns

  const OPENING_ACCOUNT := "Opening Balances"
  const OPENING_DESCRIPTION := "Opening balances"

  function PlainLine(account: nat, amount: int): Line {
    Line(account, amount, None, None, None)
  }

  ghost predicate PlainLines(lines: seq<Line>) {
    forall i :: 0 <= i < |lines| ==> lines[i] == PlainLine(lines[i].account, lines[i].amount)
  }

  /** Sum of the line amounts of one account. */
  function LineNet(lines: seq<Line>, account: nat): int {
    if lines == [] then 0
    else (if lines[0].account == account then lines[0].amount else 0) + LineNet(lines[1..], account)
  }

  function LineTotal(lines: seq<Line>): int {
    if lines == [] then 0 else lines[0].amount + LineTotal(lines[1..])
  }

  lemma {:induction false} LineTotalIsSum(lines: seq<Line>)
    ensures LineTotal(lines) == Sum(Amounts(lines))
  {
    if lines != [] {
      LineTotalIsSum(lines[1..]);
      assert Amounts(lines)[1..] == Amounts(lines[1..]);
    }
  }

  lemma {:induction false} LineAppend(lines: seq<Line>, l: Line, account: nat)
    ensures LineNet(lines + [l], account) == LineNet(lines, account) + if l.account == account then l.amount else 0
    ensures LineTotal(lines + [l]) == LineTotal(lines) + l.amount
  {
    if lines == [] {
      assert lines + [l] == [l] && [l][1..] == [];
    } else {
      assert (lines + [l])[1..] == lines[1..] + [l];
      LineAppend(lines[1..], l, account);
    }
  }

  lemma {:induction false} NetOfPostings(lines: seq<Line>, account: nat)
    ensures Net(PostingsFor(lines, Amounts(lines)), account) == LineNet(lines, account)
  {
    if lines != [] {
      NetOfPostings(lines[1..], account);
      assert Amounts(lines)[1..] == Amounts(lines[1..]);
      var ps := PostingsFor(lines, Amounts(lines));
      assert ps[1..] == PostingsFor(lines[1..], Amounts(lines[1..]));
    }
  }

  lemma {:induction false} NoAccountError(accounts: seq<Account>, ledger: nat, lines: seq<Line>)
    requires forall i :: 0 <= i < |lines| ==> InLedger(accounts, lines[i].account, ledger)
    ensures AccountError(accounts, ledger, lines) == None
  {
    if lines != [] {
      assert InLedger(accounts, lines[0].account, ledger);
      NoAccountError(accounts, ledger, lines[1..]);
    }
  }

  lemma {:induction false} NoDimensionError(db: Db, ledger: nat, lines: seq<Line>)
    requires PlainLines(lines)
    ensures DimensionError(db, ledger, lines) == None
  {
    if lines != [] {
      assert lines[0] == PlainLine(lines[0].account, lines[0].amount);
      NoDimensionError(db, ledger, lines[1..]);
    }
  }

  /** A balanced request of plain, non-zero lines in known accounts can fail only on a closed date. */
  lemma FailsOnlyWhenClosed(db: Db, rates: RateLookup, req: Request)
    requires |req.lines| >= 2 && PlainLines(req.lines) && LineTotal(req.lines) == 0 && req.ledger in db.ledgers
    requires forall i :: 0 <= i < |req.lines| ==>
      req.lines[i].amount != 0 && InLedger(db.accounts, req.lines[i].account, req.ledger)
    ensures var w := Watermark(db.closed, req.ledger);
            Validated(db, rates, req, false)
            == if IsClosed(w, req.date) then Err(HardClosed(req.ledger, w.value)) else Ok(Amounts(req.lines))
  {
    assert !HasForeign(req.lines);
    LineTotalIsSum(req.lines);
    DebitsMinusCredits(Amounts(req.lines));
    NoAccountError(db.accounts, req.ledger, req.lines);
    NoDimensionError(db, req.ledger, req.lines);
  }

  lemma RawAppend(txns: seq<Txn>, t: Txn, account: nat)
    ensures Raw(txns + [t], account) == Raw(txns, account) + Net(t.postings, account)
  {
    assert (txns + [t])[..|txns|] == txns;
  }

  /* ---------- opening balances ---------- */

  predicate OnBalanceSheet(a: Account, ledger: nat) {
    a.ledger == ledger && (a.kind.Asset? || a.kind.Liability? || a.kind.Equity?)
  }

  /** The signed amount that moves an account from its current balance to its target. */
  function OpeningAmount(txns: seq<Txn>, a: Account, targets: map<nat, int>): int {
    if a.id !in targets then 0
    else
      var delta := targets[a.id] - BalanceOf(txns, a);
      if a.kind.Asset? then delta else -delta
  }

  function OpeningLines(accounts: seq<Account>, txns: seq<Txn>, ledger: nat, targets: map<nat, int>): seq<Line> {
    if accounts == [] then []
    else
      var a, rest := accounts[0], OpeningLines(accounts[1..], txns, ledger, targets);
      if OnBalanceSheet(a, ledger) && OpeningAmount(txns, a, targets) != 0
      then [PlainLine(a.id, OpeningAmount(txns, a, targets))] + rest
      else rest
  }

  function NamedAccount(accounts: seq<Account>, ledger: nat, name: string): Option<nat> {
    if accounts == [] then None
    else if accounts[0].ledger == ledger && accounts[0].name == name then Some(accounts[0].id)
    else NamedAccount(accounts[1..], ledger, name)
  }

  predicate OpeningExists(txns: seq<Txn>, ledger: nat) {
    exists i :: 0 <= i < |txns| && txns[i].ledger == ledger
                && txns[i].description == OPENING_DESCRIPTION && InReports(txns[i].kind)
  }

  datatype OpeningError = AlreadyRecorded | NothingToRecord | Refused(error: Error)

  /** The form after parsing: `spareId` is the id for an Opening Balances account made on the fly. */
  datatype OpeningForm = OpeningForm(ledger: nat, date: int, user: nat, targets: map<nat, int>, spareId: nat)

  function WithOpeningAccount(db: Db, f: OpeningForm): Db {
    if NamedAccount(db.accounts, f.ledger, OPENING_ACCOUNT).Some? then db
    else AddAccount(db, Account(f.spareId, f.ledger, Equity, OPENING_ACCOUNT))
  }

  function ContraAccount(db: Db, f: OpeningForm): nat {
    match NamedAccount(db.accounts, f.ledger, OPENING_ACCOUNT)
    case Some(id) => id
    case None => f.spareId
  }

  function OpeningRequest(db: Db, f: OpeningForm): Request {
    var lines := OpeningLines(db.accounts, db.txns, f.ledger, f.targets);
    Request(f.ledger, f.date, OPENING_DESCRIPTION, Some(Standard), f.user,
            lines + [PlainLine(ContraAccount(db, f), -LineTotal(lines))], None)
  }

  function OpeningBalances(db: Db, rates: RateLookup, f: OpeningForm): (Db, Result<Created, OpeningError>) {
    if OpeningExists(db.txns, f.ledger) then (db, Err(AlreadyRecorded))
    else if LineTotal(OpeningLines(db.accounts, db.txns, f.ledger, f.targets)) == 0 then (db, Err(NothingToRecord))
    else
      match Create(WithOpeningAccount(db, f), rates, OpeningRequest(db, f))
      case (db', Ok(c)) => (db', Ok(c))
      case (db', Err(e)) => (db', Err(Refused(e)))
  }

  lemma {:induction false} OpeningLinesShape(accounts: seq<Account>, txns: seq<Txn>, ledger: nat,
                                             targets: map<nat, int>)
    requires DistinctAccounts(accounts)
    ensures var lines := OpeningLines(accounts, txns, ledger, targets);
            && PlainLines(lines)
            && forall i :: 0 <= i < |lines| ==> lines[i].amount != 0 && InLedger(accounts, lines[i].account, ledger)
  {
    if accounts != [] {
      OpeningLinesShape(accounts[1..], txns, ledger, targets);
      var rest := OpeningLines(accounts[1..], txns, ledger, targets);
      forall i | 0 <= i < |rest| ensures InLedger(accounts, rest[i].account, ledger) {
        assert InLedger(accounts[1..], rest[i].account, ledger);
      }
    }
  }

  /** Each account is moved by its own opening amount and by nothing else. */
  lemma {:induction false} OpeningLineNet(accounts: seq<Account>, txns: seq<Txn>, ledger: nat,
                                          targets: map<nat, int>, id: nat)
    requires DistinctAccounts(accounts)
    ensures var a := AccountOf(accounts, id);
            LineNet(OpeningLines(accounts, txns, ledger, targets), id)
            == if a.Some? && OnBalanceSheet(a.value, ledger) then OpeningAmount(txns, a.value, targets) else 0
    ensures AccountOf(accounts, id).Some? ==> AccountOf(accounts, id).value.id == id
  {
    if accounts != [] {
      OpeningLineNet(accounts[1..], txns, ledger, targets, id);
      var a, rest := accounts[0], OpeningLines(accounts[1..], txns, ledger, targets);
      assert ([PlainLine(a.id, OpeningAmount(txns, a, targets))] + rest)[1..] == rest;
    }
  }

  lemma {:induction false} NamedInLedger(accounts: seq<Account>, ledger: nat, name: string)
    requires DistinctAccounts(accounts) && NamedAccount(accounts, ledger, name).Some?
    ensures InLedger(accounts, NamedAccount(accounts, ledger, name).value, ledger)
  {
    if !(accounts[0].ledger == ledger && accounts[0].name == name) {
      NamedInLedger(accounts[1..], ledger, name);
    }
  }

  /** An account of the ledger under the name kept for opening balances. */
  predicate IsOpeningAccount(a: Account, ledger: nat) {
    a.ledger == ledger && a.name == OPENING_ACCOUNT
  }

  /** The lookup by name finds an account of the ledger with that name if there is one. */
  lemma {:induction false} NamedExactly(accounts: seq<Account>, ledger: nat, name: string)
    requires DistinctAccounts(accounts)
    ensures var found := NamedAccount(accounts, ledger, name);
            && (found == None <==> forall a :: a in accounts ==> !(a.ledger == ledger && a.name == name))
            && (found.Some? ==>
                  && AccountOf(accounts, found.value).Some?
                  && var a := AccountOf(accounts, found.value).value;
                     a in accounts && a.id == found.value && a.ledger == ledger && a.name == name)
  {
    if accounts != [] {
      NamedExactly(accounts[1..], ledger, name);
      assert accounts == [accounts[0]] + accounts[1..];
    }
  }

  /**
   * The contra side of an opening entry: its last line goes to an account of the ledger
   * named "Opening Balances". The one that exists is used; only when there is none is an
   * equity account of that name added, under the spare id, and nothing else changes.
   */
  lemma ContraIsNamed(db: Db, f: OpeningForm)
    requires DistinctAccounts(db.accounts) && AccountOf(db.accounts, f.spareId) == None
    ensures var base, lines := WithOpeningAccount(db, f), OpeningRequest(db, f).lines;
            var contra := AccountOf(base.accounts, lines[|lines| - 1].account);
            && contra.Some? && IsOpeningAccount(contra.value, f.ledger)
            && contra.value.id == lines[|lines| - 1].account
            && base.accounts == (if exists a :: a in db.accounts && IsOpeningAccount(a, f.ledger) then db.accounts
                                 else [Account(f.spareId, f.ledger, Equity, OPENING_ACCOUNT)] + db.accounts)
            && base == db.(accounts := base.accounts)
  {
    NamedExactly(db.accounts, f.ledger, OPENING_ACCOUNT);
    var added := Account(f.spareId, f.ledger, Equity, OPENING_ACCOUNT);
    assert ([added] + db.accounts)[1..] == db.accounts;
    if NamedAccount(db.accounts, f.ledger, OPENING_ACCOUNT).Some? {
      assert exists a :: a in db.accounts && IsOpeningAccount(a, f.ledger);
    } else {
      assert forall a :: a in db.accounts ==> !IsOpeningAccount(a, f.ledger);
    }
  }

  /** Any account under another name is not the contra account. */
  lemma OthersAreNotContra(db: Db, f: OpeningForm, a: Account)
    requires DistinctAccounts(db.accounts) && AccountOf(db.accounts, f.spareId) == None
    requires AccountOf(db.accounts, a.id) == Some(a) && !IsOpeningAccount(a, f.ledger)
    ensures a.id != ContraAccount(db, f)
  {
    NamedExactly(db.accounts, f.ledger, OPENING_ACCOUNT);
  }

  /** The request built from an accepted form is balanced, has two lines or more and known accounts. */
  lemma OpeningRequestSound(db: Db, f: OpeningForm)
    requires Inv(db) && AccountOf(db.accounts, f.spareId) == None
    requires LineTotal(OpeningLines(db.accounts, db.txns, f.ledger, f.targets)) != 0
    ensures var req := OpeningRequest(db, f);
            && |req.lines| >= 2 && PlainLines(req.lines) && LineTotal(req.lines) == 0
            && forall i :: 0 <= i < |req.lines| ==>
                 && req.lines[i].amount != 0
                 && InLedger(WithOpeningAccount(db, f).accounts, req.lines[i].account, f.ledger)
  {
    var lines := OpeningLines(db.accounts, db.txns, f.ledger, f.targets);
    var contra := PlainLine(ContraAccount(db, f), -LineTotal(lines));
    OpeningLinesShape(db.accounts, db.txns, f.ledger, f.targets);
    LineAppend(lines, contra, 0);
    if NamedAccount(db.accounts, f.ledger, OPENING_ACCOUNT).Some? {
      NamedInLedger(db.accounts, f.ledger, OPENING_ACCOUNT);
    } else {
      var a := Account(f.spareId, f.ledger, Equity, OPENING_ACCOUNT);
      assert ([a] + db.accounts)[1..] == db.accounts;
      forall i | 0 <= i < |lines| ensures InLedger([a] + db.accounts, lines[i].account, f.ledger) {
        assert InLedger(db.accounts, lines[i].account, f.ledger);
      }
    }
  }

  /** The stored opening entry moves an account, other than the contra one, by its opening amount. */
  lemma OpeningMoves(db: Db, f: OpeningForm, a: Account)
    requires DistinctAccounts(db.accounts) && AccountOf(db.accounts, a.id) == Some(a) && a.id != ContraAccount(db, f)
    ensures var lines := OpeningRequest(db, f).lines;
            Net(PostingsFor(lines, Amounts(lines)), a.id)
            == if OnBalanceSheet(a, f.ledger) then OpeningAmount(db.txns, a, f.targets) else 0
  {
    var lines := OpeningLines(db.accounts, db.txns, f.ledger, f.targets);
    NetOfPostings(OpeningRequest(db, f).lines, a.id);
    LineAppend(lines, PlainLine(ContraAccount(db, f), -LineTotal(lines)), a.id);
    OpeningLineNet(db.accounts, db.txns, f.ledger, f.targets, a.id);
  }

  lemma PlainCreateAppends(db: Db, rates: RateLookup, req: Request, account: nat)
    requires Validated(db, rates, req, false) == Ok(Amounts(req.lines))
    ensures Create(db, rates, req).1.Ok?
    ensures Raw(Create(db, rates, req).0.txns, account)
         == Raw(db.txns, account) + Net(PostingsFor(req.lines, Amounts(req.lines)), account)
  {
    ValidatedLength(db, rates, req, false);
    RawAppend(db.txns, StoredTxn(db, req, false, Amounts(req.lines)), account);
  }

  /** The form got past its own checks, so the posting service decides. */
  predicate FormAccepted(db: Db, f: OpeningForm) {
    !OpeningExists(db.txns, f.ledger) && LineTotal(OpeningLines(db.accounts, db.txns, f.ledger, f.targets)) != 0
  }

  lemma OpeningIsCreate(db: Db, rates: RateLookup, f: OpeningForm)
    requires FormAccepted(db, f)
    ensures var (db', r) := Create(WithOpeningAccount(db, f), rates, OpeningRequest(db, f));
            OpeningBalances(db, rates, f).0 == db' && (OpeningBalances(db, rates, f).1.Ok? <==> r.Ok?)
  {
  }

  /** Past the form's checks: refused exactly on a closed date, else the request's postings are added. */
  lemma OpeningPosts(db: Db, rates: RateLookup, f: OpeningForm, account: nat)
    requires Inv(db) && f.ledger in db.ledgers && AccountOf(db.accounts, f.spareId) == None && FormAccepted(db, f)
    ensures var (db', r) := OpeningBalances(db, rates, f); var lines := OpeningRequest(db, f).lines;
            && (r.Err? <==> IsClosed(Watermark(db.closed, f.ledger), f.date))
            && (r.Err? ==> db'.txns == db.txns)
            && (r.Ok? ==> Raw(db'.txns, account)
                          == Raw(db.txns, account) + Net(PostingsFor(lines, Amounts(lines)), account))
  {
    var base, req := WithOpeningAccount(db, f), OpeningRequest(db, f);
    OpeningRequestSound(db, f);
    FailsOnlyWhenClosed(base, rates, req);
    OpeningIsCreate(db, rates, f);
    if !IsClosed(Watermark(db.closed, f.ledger), f.date) {
      PlainCreateAppends(base, rates, req, account);
    }
  }

  lemma TargetMet(txns: seq<Txn>, txns': seq<Txn>, a: Account, f: OpeningForm)
    requires Raw(txns', a.id)
          == Raw(txns, a.id) + if OnBalanceSheet(a, f.ledger) then OpeningAmount(txns, a, f.targets) else 0
    ensures BalanceOf(txns', a)
         == if OnBalanceSheet(a, f.ledger) && a.id in f.targets then f.targets[a.id] else BalanceOf(txns, a)
  {
  }

  /**
   * Opening balances do what the form says. Once past the form's own checks the posting
   * is refused only if its date is closed; otherwise every targeted balance-sheet
   * account not named "Opening Balances" ends at exactly its target, whether the journal
   * was posted or held for approval, and every other account not so named is where it was.
   */
  lemma OpeningReachesTargets(db: Db, rates: RateLookup, f: OpeningForm, a: Account)
    requires Inv(db) && f.ledger in db.ledgers && AccountOf(db.accounts, f.spareId) == None
    requires AccountOf(db.accounts, a.id) == Some(a) && !IsOpeningAccount(a, f.ledger)
    requires FormAccepted(db, f)
    ensures var (db', r) := OpeningBalances(db, rates, f);
            && (r.Err? <==> IsClosed(Watermark(db.closed, f.ledger), f.date))
            && (r.Err? ==> db'.txns == db.txns)
            && (r.Ok? ==>
                  BalanceOf(db'.txns, a)
                  == if a.ledger == f.ledger && a.kind in {Asset, Liability, Equity} && a.id in f.targets
                     then f.targets[a.id]
                     else BalanceOf(db.txns, a))
  {
    OpeningPosts(db, rates, f, a.id);
    OthersAreNotContra(db, f, a);
    if OpeningBalances(db, rates, f).1.Ok? {
      OpeningMoves(db, f, a);
      TargetMet(db.txns, OpeningBalances(db, rates, f).0.txns, a, f);
    }
  }

  /** The opening journal is held for approval: it debits the ledger's threshold or more. */
  predicate OpeningHeld(db: Db, f: OpeningForm) {
    var lines := OpeningRequest(db, f).lines;
    OverThreshold(db, f.ledger, Some(Standard), DebitTotal(PostingsFor(lines, Amounts(lines))))
  }

  /** The row a plain standard request is stored as, and when it is held. */
  lemma PlainStored(db: Db, rates: RateLookup, req: Request) returns (t: Txn)
    requires Validated(db, rates, req, false) == Ok(Amounts(req.lines)) && req.kind == Some(Standard)
    ensures Create(db, rates, req).0.txns == db.txns + [t]
    ensures t.ledger == req.ledger && t.date == req.date && t.description == req.description
    ensures t.createdBy == req.createdBy && t.reversesId == req.reversesId
    ensures t.postings == PostingsFor(req.lines, Amounts(req.lines))
    ensures t.kind
         == if OverThreshold(db, req.ledger, Some(Standard), DebitTotal(t.postings)) then Pending else Standard
  {
    ValidatedLength(db, rates, req, false);
    t := StoredTxn(db, req, false, Amounts(req.lines));
    DebitTotalOf(req.lines, Amounts(req.lines));
  }

  lemma ExistsAppend(txns: seq<Txn>, t: Txn, ledger: nat)
    ensures OpeningExists(txns + [t], ledger)
            <==> || OpeningExists(txns, ledger)
                 || (t.ledger == ledger && t.description == OPENING_DESCRIPTION && InReports(t.kind))
  {
    var after := txns + [t];
    assert after[|txns|] == t;
    assert forall i :: 0 <= i < |txns| ==> after[i] == txns[i];
    if OpeningExists(txns, ledger) {
      var i :| 0 <= i < |txns| && txns[i].ledger == ledger
               && txns[i].description == OPENING_DESCRIPTION && InReports(txns[i].kind);
      assert after[i].ledger == ledger;
    }
  }

  /** The row an accepted opening form is stored as. */
  lemma OpeningStored(db: Db, rates: RateLookup, f: OpeningForm) returns (t: Txn)
    requires Inv(db) && f.ledger in db.ledgers && AccountOf(db.accounts, f.spareId) == None && FormAccepted(db, f)
    requires OpeningBalances(db, rates, f).1.Ok?
    ensures OpeningBalances(db, rates, f).0.txns == db.txns + [t]
    ensures t.ledger == f.ledger && t.date == f.date && t.description == OPENING_DESCRIPTION && t.createdBy == f.user
    ensures t.postings == PostingsFor(OpeningRequest(db, f).lines, Amounts(OpeningRequest(db, f).lines))
    ensures t.kind == if OpeningHeld(db, f) then Pending else Standard
  {
    var base, req := WithOpeningAccount(db, f), OpeningRequest(db, f);
    OpeningRequestSound(db, f);
    FailsOnlyWhenClosed(base, rates, req);
    OpeningIsCreate(db, rates, f);
    t := PlainStored(base, rates, req);
  }

  lemma RawAsOfAppend(txns: seq<Txn>, t: Txn, account: nat, d: int)
    ensures RawAsOf(txns + [t], account, d)
         == RawAsOf(txns, account, d) + if CountsAsOf(t, d) then Net(t.postings, account) else 0
  {
    assert (txns + [t])[..|txns|] == txns;
  }

  /**
   * What the reports make of an accepted opening form. A journal at or over the threshold
   * is held: no reported balance moves and the form still counts no opening entry, so it
   * can be sent again. Otherwise every account not named "Opening Balances" moves by its own
   * opening amount from the opening date on, and the form is refused from then on.
   */
  lemma OpeningReported(db: Db, rates: RateLookup, f: OpeningForm, a: Account, d: int)
    requires Inv(db) && f.ledger in db.ledgers && AccountOf(db.accounts, f.spareId) == None && FormAccepted(db, f)
    requires AccountOf(db.accounts, a.id) == Some(a) && !IsOpeningAccount(a, f.ledger)
    requires OpeningBalances(db, rates, f).1.Ok?
    ensures var db' := OpeningBalances(db, rates, f).0;
            && (OpeningExists(db'.txns, f.ledger) <==> !OpeningHeld(db, f))
            && RawAsOf(db'.txns, a.id, d)
               == RawAsOf(db.txns, a.id, d)
                  + if OpeningHeld(db, f) || f.date > d || a.ledger != f.ledger || a.id !in f.targets
                       || a.kind !in {Asset, Liability, Equity} then 0
                    else if a.kind == Asset then f.targets[a.id] - Raw(db.txns, a.id)
                    else -f.targets[a.id] - Raw(db.txns, a.id)
  {
    var t := OpeningStored(db, rates, f);
    OthersAreNotContra(db, f, a);
    OpeningMoves(db, f, a);
    ExistsAppend(db.txns, t, f.ledger);
    RawAsOfAppend(db.txns, t, a.id, d);
  }

  /** Sum of target minus current balance over the targeted balance-sheet accounts on one side. */
  function TargetDeltas(accounts: seq<Account>, txns: seq<Txn>, ledger: nat, targets: map<nat, int>, assets: bool): int
  {
    if accounts == [] then 0
    else
      var a := accounts[0];
      (if OnBalanceSheet(a, ledger) && a.id in targets && a.kind.Asset? == assets
       then targets[a.id] - BalanceOf(txns, a) else 0)
      + TargetDeltas(accounts[1..], txns, ledger, targets, assets)
  }

  lemma {:induction false} OpeningNet(accounts: seq<Account>, txns: seq<Txn>, ledger: nat, targets: map<nat, int>)
    ensures LineTotal(OpeningLines(accounts, txns, ledger, targets))
         == TargetDeltas(accounts, txns, ledger, targets, true) - TargetDeltas(accounts, txns, ledger, targets, false)
  {
    if accounts != [] {
      OpeningNet(accounts[1..], txns, ledger, targets);
      var a, rest := accounts[0], OpeningLines(accounts[1..], txns, ledger, targets);
      assert ([PlainLine(a.id, OpeningAmount(txns, a, targets))] + rest)[1..] == rest;
    }
  }

  /**
   * When the form is turned away with "enter at least one opening balance that differs":
   * exactly when no opening entry exists and the asset deltas sum to the liability and
   * equity deltas, however many accounts would change.
   */
  lemma NothingToRecordExactly(db: Db, rates: RateLookup, f: OpeningForm)
    ensures OpeningBalances(db, rates, f) == (db, Err(NothingToRecord))
            <==> && !OpeningExists(db.txns, f.ledger)
                 && TargetDeltas(db.accounts, db.txns, f.ledger, f.targets, true)
                    == TargetDeltas(db.accounts, db.txns, f.ledger, f.targets, false)
  {
    OpeningNet(db.accounts, db.txns, f.ledger, f.targets);
  }

  /** And it is turned away as already recorded exactly when a reported opening entry of the ledger is stored. */
  lemma AlreadyRecordedExactly(db: Db, rates: RateLookup, f: OpeningForm)
    ensures OpeningBalances(db, rates, f) == (db, Err(AlreadyRecorded))
            <==> exists t :: && t in db.txns && t.ledger == f.ledger && t.description == OPENING_DESCRIPTION
                             && t.kind != Draft && t.kind != Pending
  {
    if OpeningExists(db.txns, f.ledger) {
      var i :| 0 <= i < |db.txns| && db.txns[i].ledger == f.ledger
               && db.txns[i].description == OPENING_DESCRIPTION && InReports(db.txns[i].kind);
      assert db.txns[i] in db.txns;
    }
  }

  /** The two cases the message does not tell apart: nothing differs, or the differences cancel out. */
  lemma {:induction false} NoLinesExactly(accounts: seq<Account>, txns: seq<Txn>, ledger: nat, targets: map<nat, int>)
    ensures OpeningLines(accounts, txns, ledger, targets) == []
            <==> forall i :: 0 <= i < |accounts| && OnBalanceSheet(accounts[i], ledger) && accounts[i].id in targets ==>
                   targets[accounts[i].id] == BalanceOf(txns, accounts[i])
  {
    if accounts != [] {
      NoLinesExactly(accounts[1..], txns, ledger, targets);
      assert forall i :: 1 <= i < |accounts| ==> accounts[i] == accounts[1..][i - 1];
      assert forall i :: 0 <= i < |accounts| - 1 ==> accounts[1..][i] == accounts[i + 1];
    }
  }

  /** An instance of the second case: 1.00 in the bank and 1.00 owed. */
  lemma BalancedTargetsRefused(db: Db, rates: RateLookup)
    requires db.accounts == [Account(1, 0, Asset, "Bank"), Account(2, 0, Liability, "Loan")] && db.txns == []
    ensures var f := OpeningForm(0, 20260101, 7, map[1 := 10000, 2 := 10000], 3);
            && OpeningBalances(db, rates, f) == (db, Err(NothingToRecord))
            && OpeningLines(db.accounts, db.txns, f.ledger, f.targets) == [PlainLine(1, 10000), PlainLine(2, -10000)]
  {
    var targets := map[1 := 10000, 2 := 10000];
    var bank, loan := db.accounts[0], db.accounts[1];
    assert db.accounts[1..] == [loan] && [loan][1..] == [];
    assert OpeningLines([loan], [], 0, targets) == [PlainLine(2, -10000)];
    assert OpeningLines(db.accounts, [], 0, targets) == [PlainLine(1, 10000), PlainLine(2, -10000)];
    assert [PlainLine(1, 10000), PlainLine(2, -10000)][1..] == [PlainLine(2, -10000)];
    assert LineTotal([PlainLine(2, -10000)]) == -10000;
  }

  /* ---------- reversal ---------- */

  function ReverseLines(ps: seq<Posting>): seq<Line> {
    if ps == [] then []
    else [PlainLine(ps[0].account, if ps[0].direction.Debit? then -ps[0].amount else ps[0].amount)]
         + ReverseLines(ps[1..])
  }

  datatype ReverseError = NotFound | CannotReverseReversal | NoPostings | Declined(error: Error)

  function ReverseRequest(t: Txn, today: int, user: nat): Request {
    Request(t.ledger, today, "Reversal of: " + t.description, Some(Reversing), user,
            ReverseLines(t.postings), Some(t.id))
  }

  function Reverse(db: Db, rates: RateLookup, ledger: nat, id: nat, today: int, user: nat)
    : (Db, Result<Created, ReverseError>)
  {
    var t := Lookup(db.txns, id);
    if ledger !in db.ledgers || t == None || t.value.ledger != ledger then (db, Err(NotFound))
    else if t.value.kind == Reversing then (db, Err(CannotReverseReversal))
    else if t.value.postings == [] then (db, Err(NoPostings))
    else
      match Create(db, rates, ReverseRequest(t.value, today, user))
      case (db', Ok(c)) => (db', Ok(c))
      case (db', Err(e)) => (db', Err(Declined(e)))
  }

  lemma {:induction false} ReverseLinesShape(accounts: seq<Account>, ledger: nat, ps: seq<Posting>, account: nat)
    requires forall p :: p in ps ==> p.amount > 0 && InLedger(accounts, p.account, ledger)
    ensures var lines := ReverseLines(ps);
            && |lines| == |ps| && PlainLines(lines) && LineTotal(lines) == -Total(ps)
            && LineNet(lines, account) == -Net(ps, account)
            && forall i :: 0 <= i < |lines| ==> lines[i].amount != 0 && InLedger(accounts, lines[i].account, ledger)
  {
    if ps != [] {
      ReverseLinesShape(accounts, ledger, ps[1..], account);
      assert ReverseLines(ps)[1..] == ReverseLines(ps[1..]);
      assert ps[0] in ps;
    }
  }

  /**
   * Reversal is an inverse. For every stored transaction that is not itself a reversal
   * the call succeeds exactly when today is open; it adds one `reversing` transaction
   * that names the original and undoes it account by account, and changes no other row.
   */
  lemma ReversalInverts(db: Db, rates: RateLookup, ledger: nat, id: nat, today: int, user: nat)
    requires Inv(db) && Lookup(db.txns, id).Some?
    requires Lookup(db.txns, id).value.ledger == ledger && Lookup(db.txns, id).value.kind != Reversing
    ensures var t := Lookup(db.txns, id).value; var (db', r) := Reverse(db, rates, ledger, id, today, user);
            && (r.Ok? <==> !IsClosed(Watermark(db.closed, ledger), today))
            && (r.Err? ==> db' == db)
            && (r.Ok? ==>
                 && |db'.txns| == |db.txns| + 1 && db'.txns[..|db.txns|] == db.txns
                 && db'.approvals == db.approvals && db'.inFlight == db.inFlight
                 && var v := db'.txns[|db.txns|];
                    && v.kind == Reversing && v.reversesId == Some(id) && v.date == today
                    && v.ledger == ledger && v.createdBy == user && r.value == Created(v.id, Reversing)
                    && forall account: nat ::
                         && Net(v.postings, account) == -Net(t.postings, account)
                         && Raw(db'.txns, account) == Raw(db.txns, account) - Net(t.postings, account))
  {
    var t := Lookup(db.txns, id).value;
    LookupFacts(db.txns, id, db.nextId);
    assert GoodTxn(db.accounts, db.ledgers, t);
    var req := ReverseRequest(t, today, user);
    ReverseLinesShape(db.accounts, ledger, t.postings, 0);
    FailsOnlyWhenClosed(db, rates, req);
    if Validated(db, rates, req, false).Ok? {
      var v := StoredTxn(db, req, false, Amounts(req.lines));
      assert db.inFlight + map[] == db.inFlight;
      assert (db.txns + [v])[..|db.txns|] == db.txns;
      forall account: nat
        ensures Net(v.postings, account) == -Net(t.postings, account)
        ensures Raw(db.txns + [v], account) == Raw(db.txns, account) - Net(t.postings, account)
      {
        ReverseLinesShape(db.accounts, ledger, t.postings, account);
        NetOfPostings(req.lines, account);
        RawAppend(db.txns, v, account);
      }
    }
  }

  /**
   * In the reports the pair cancels exactly when the original is itself reported: a
   * draft or pending original may be reversed, and then only the reversal shows.
   */
  lemma ReportedPairCancelsExactly(t: Txn, v: Txn, d: int)
    requires v.kind == Reversing && t.date <= d && v.date <= d
    requires forall account: nat :: Net(v.postings, account) == -Net(t.postings, account)
    ensures (forall account: nat :: Share(t, account, d) + Share(v, account, d) == 0)
            <==> InReports(t.kind) || MovesNothing(t.postings)
  {
    if !InReports(t.kind) && !MovesNothing(t.postings) {
      var account: nat :| Net(t.postings, account) != 0;
      assert Share(t, account, d) + Share(v, account, d) != 0;
    }
  }

  /** When a reversal request succeeds, and what the two refusals before the posting mean. */
  lemma ReverseExactly(db: Db, rates: RateLookup, ledger: nat, id: nat, today: int, user: nat)
    requires Inv(db)
    ensures var t, r := Lookup(db.txns, id), Reverse(db, rates, ledger, id, today, user).1;
            && (r.Ok? <==> && t.Some? && t.value.ledger == ledger && t.value.kind != Reversing
                           && !IsClosed(Watermark(db.closed, ledger), today))
            && (r == Err(NotFound) <==> t == None || t.value.ledger != ledger)
            && (r == Err(CannotReverseReversal) <==>
                  t.Some? && t.value.ledger == ledger && t.value.kind == Reversing)
  {
    var t := Lookup(db.txns, id);
    if t.Some? && t.value.ledger == ledger {
      LookupFacts(db.txns, id, db.nextId);
      assert GoodTxn(db.accounts, db.ledgers, t.value);
      if t.value.kind != Reversing {
        ReversalInverts(db, rates, ledger, id, today, user);
      }
    }
  }

  /** Successive reversal requests for one transaction, on the given days. */
  function ReverseAll(db: Db, rates: RateLookup, ledger: nat, id: nat, days: seq<int>, user: nat): Db
    decreases |days|
  {
    if days == [] then db
    else ReverseAll(Reverse(db, rates, ledger, id, days[0], user).0, rates, ledger, id, days[1..], user)
  }

  /** How many of the days are open. */
  function OpenDays(db: Db, ledger: nat, days: seq<int>): nat {
    if days == [] then 0
    else (if IsClosed(Watermark(db.closed, ledger), days[0]) then 0 else 1) + OpenDays(db, ledger, days[1..])
  }

  lemma {:induction false} SameOpenDays(a: Db, b: Db, ledger: nat, days: seq<int>)
    requires a.closed == b.closed
    ensures OpenDays(a, ledger, days) == OpenDays(b, ledger, days)
  {
    if days != [] { SameOpenDays(a, b, ledger, days[1..]); }
  }

  /** One reversal request: it takes the transaction's effect off if the day is open. */
  lemma ReverseStep(db: Db, rates: RateLookup, ledger: nat, id: nat, today: int, user: nat, account: nat)
    requires Inv(db) && Lookup(db.txns, id).Some?
    requires Lookup(db.txns, id).value.ledger == ledger && Lookup(db.txns, id).value.kind != Reversing
    ensures var db' := Reverse(db, rates, ledger, id, today, user).0;
            && Inv(db') && Lookup(db'.txns, id) == Lookup(db.txns, id) && db'.closed == db.closed
            && db.txns <= db'.txns
            && Raw(db'.txns, account)
               == Raw(db.txns, account)
                  - if IsClosed(Watermark(db.closed, ledger), today) then 0
                    else Net(Lookup(db.txns, id).value.postings, account)
  {
    var req := ReverseRequest(Lookup(db.txns, id).value, today, user);
    LookupFacts(db.txns, id, db.nextId);
    assert GoodTxn(db.accounts, db.ledgers, Lookup(db.txns, id).value);
    CreateKeepsInv(db, rates, req, false);
    CreateKeepsLookup(db, rates, req, false, id);
    ReversalInverts(db, rates, ledger, id, today, user);
  }

  lemma OneMoreReversal(n: nat, net: int)
    ensures (1 + n) * net == net + n * net
  {
  }

  /** Nothing stops a second reversal: each one on an open day takes the transaction's effect off once more. */
  lemma {:induction false} ReversalsAddUp(db: Db, rates: RateLookup, ledger: nat, id: nat, days: seq<int>, user: nat,
                                          account: nat)
    requires Inv(db) && Lookup(db.txns, id).Some?
    requires Lookup(db.txns, id).value.ledger == ledger && Lookup(db.txns, id).value.kind != Reversing
    ensures var after := ReverseAll(db, rates, ledger, id, days, user);
            && db.txns <= after.txns
            && Raw(after.txns, account)
               == Raw(db.txns, account)
                  - OpenDays(db, ledger, days) * Net(Lookup(db.txns, id).value.postings, account)
    decreases |days|
  {
    if days != [] {
      var next := Reverse(db, rates, ledger, id, days[0], user).0;
      ReverseStep(db, rates, ledger, id, days[0], user, account);
      SameOpenDays(db, next, ledger, days[1..]);
      ReversalsAddUp(next, rates, ledger, id, days[1..], user, account);
      OneMoreReversal(OpenDays(db, ledger, days[1..]), Net(Lookup(db.txns, id).value.postings, account));
    }
  }

  lemma MultipleOf(n: nat, net: int)
    ensures n * net == net <==> n == 1 || net == 0
  {
    if net != 0 && n != 1 {
      assert n * net - net == (n - 1) * net;
      assert (n - 1) * net != 0;
    }
  }

  /** So the transaction is undone in the books exactly when one reversal got through, or it moves nothing. */
  lemma UndoneExactly(db: Db, rates: RateLookup, ledger: nat, id: nat, days: seq<int>, user: nat)
    requires Inv(db) && Lookup(db.txns, id).Some?
    requires Lookup(db.txns, id).value.ledger == ledger && Lookup(db.txns, id).value.kind != Reversing
    ensures var t, after := Lookup(db.txns, id).value, ReverseAll(db, rates, ledger, id, days, user);
            (forall account: nat :: Raw(after.txns, account) == Raw(db.txns, account) - Net(t.postings, account))
            <==> OpenDays(db, ledger, days) == 1 || MovesNothing(t.postings)
  {
    var t, n := Lookup(db.txns, id).value, OpenDays(db, ledger, days);
    var after := ReverseAll(db, rates, ledger, id, days, user);
    forall account: nat
      ensures Raw(after.txns, account) == Raw(db.txns, account) - Net(t.postings, account)
              <==> n == 1 || Net(t.postings, account) == 0
    {
      ReversalsAddUp(db, rates, ledger, id, days, user, account);
      MultipleOf(n, Net(t.postings, account));
    }
    if n != 1 && !MovesNothing(t.postings) {
      var account: nat :| Net(t.postings, account) != 0;
      assert Raw(after.txns, account) != Raw(db.txns, account) - Net(t.postings, account);
    }
  }
}
