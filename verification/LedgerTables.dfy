/**
 * Tables of the double-entry ledger and the sums the reports take over them
 * (migrations/0001_init.sql, src/handlers/accounts.rs). Amounts are integers in
 * units of 1/10000, the scale of `postings.amount`; dates are yyyymmdd integers.
 * A transaction row carries its posting rows.
 */
module LedgerTables {
  import opened Prelude

  datatype Kind =
    | Standard | Adjusting | Closing | Reversing | Recurring | Draft | Posted | Amortization | Pending

  datatype Direction = Debit | Credit

  datatype Posting = Posting(account: nat, amount: int, direction: Direction)

  datatype Txn = Txn(id: nat, ledger: nat, date: int, description: string, kind: Kind, createdBy: nat,
                     reversesId: Option<nat>, postings: seq<Posting>)

  datatype AccountType = Asset | Liability | Equity | Income | Expense

  datatype Account = Account(id: nat, ledger: nat, kind: AccountType, name: string)

  datatype Ledger = Ledger(currency: string, threshold: Option<int>, appendOnly: bool)

  datatype Status = Awaiting | Approved | Rejected

  datatype Approval = Approval(ledger: nat, maker: nat, status: Status, checker: Option<nat>, amount: int)

  /** A closed period: legacy rows have only a year. */
  datatype ClosedRow = ClosedRow(ledger: nat, year: int, through: Option<int>)

  /**
   * The database, plus `inFlight`: approval rows that a committed create call has
   * yet to insert. `nextId` stands for the supply of unused transaction ids.
   */
  datatype Db = Db(
    ledgers: map<nat, Ledger>,
    accounts: seq<Account>,
    costCenters: set<(nat, nat)>,
    projects: set<(nat, nat)>,
    txns: seq<Txn>,
    approvals: map<nat, Approval>,
    inFlight: map<nat, Approval>,
    closed: seq<ClosedRow>,
    nextId: nat)

  function Signed(p: Posting): int {
    if p.direction.Debit? then p.amount else -p.amount
  }

  function Total(ps: seq<Posting>): int {
    if ps == [] then 0 else Signed(ps[0]) + Total(ps[1..])
  }

  /** Debits minus credits of one account within a transaction. */
  function Net(ps: seq<Posting>, account: nat): int {
    if ps == [] then 0
    else (if ps[0].account == account then Signed(ps[0]) else 0) + Net(ps[1..], account)
  }

  /** Debits minus credits of an account over all transactions, drafts and pending ones included. */
  function Raw(txns: seq<Txn>, account: nat): int {
    if txns == [] then 0 else Raw(txns[..|txns| - 1], account) + Net(txns[|txns| - 1].postings, account)
  }

  predicate InReports(kind: Kind) {
    kind != Draft && kind != Pending
  }

  predicate CountsAsOf(t: Txn, date: int) {
    InReports(t.kind) && t.date <= date
  }

  /** Reported balance of an account as of a date. */
  function RawAsOf(txns: seq<Txn>, account: nat, date: int): int {
    if txns == [] then 0
    else
      var t := txns[|txns| - 1];
      RawAsOf(txns[..|txns| - 1], account, date) + if CountsAsOf(t, date) then Net(t.postings, account) else 0
  }

  function Lookup(txns: seq<Txn>, id: nat): Option<Txn> {
    if txns == [] then None
    else if txns[|txns| - 1].id == id then Some(txns[|txns| - 1])
    else Lookup(txns[..|txns| - 1], id)
  }

  /** UPDATE transactions SET kind WHERE id. */
  function SetKind(txns: seq<Txn>, id: nat, kind: Kind): seq<Txn> {
    if txns == [] then []
    else
      var t := txns[|txns| - 1];
      SetKind(txns[..|txns| - 1], id, kind) + [if t.id == id then t.(kind := kind) else t]
  }

  /** DELETE FROM transactions WHERE id, with its postings. */
  function Without(txns: seq<Txn>, id: nat): seq<Txn> {
    if txns == [] then []
    else
      var t := txns[|txns| - 1];
      Without(txns[..|txns| - 1], id) + if t.id == id then [] else [t]
  }

  /** Ids increase along the table and stay below `bound`; in particular they are unique. */
  predicate IdsBelow(txns: seq<Txn>, bound: nat) {
    txns == [] || (txns[|txns| - 1].id < bound && IdsBelow(txns[..|txns| - 1], txns[|txns| - 1].id))
  }

  function AccountOf(accounts: seq<Account>, id: nat): Option<Account> {
    if accounts == [] then None
    else if accounts[0].id == id then Some(accounts[0])
    else AccountOf(accounts[1..], id)
  }

  predicate InLedger(accounts: seq<Account>, id: nat, ledger: nat) {
    AccountOf(accounts, id).Some? && AccountOf(accounts, id).value.ledger == ledger
  }

  predicate DistinctAccounts(accounts: seq<Account>) {
    accounts == [] || (AccountOf(accounts[1..], accounts[0].id) == None && DistinctAccounts(accounts[1..]))
  }

  predicate DebitNormal(kind: AccountType) {
    kind.Asset? || kind.Expense?
  }

  /** The balance shown for an account, in its normal direction. */
  function BalanceOf(txns: seq<Txn>, a: Account): int {
    if DebitNormal(a.kind) then Raw(txns, a.id) else -Raw(txns, a.id)
  }

  /* ---------- the accounting equation ---------- */

  /** Sum of the shown balances of a ledger's accounts of one type. */
  function TypeTotal(accounts: seq<Account>, txns: seq<Txn>, ledger: nat, kind: AccountType): int {
    if accounts == [] then 0
    else
      var a := accounts[0];
      (if a.ledger == ledger && a.kind == kind then BalanceOf(txns, a) else 0)
      + TypeTotal(accounts[1..], txns, ledger, kind)
  }

  function LedgerTotal(accounts: seq<Account>, txns: seq<Txn>, ledger: nat): int {
    if accounts == [] then 0
    else (if accounts[0].ledger == ledger then Raw(txns, accounts[0].id) else 0)
         + LedgerTotal(accounts[1..], txns, ledger)
  }

  function LedgerNet(accounts: seq<Account>, ps: seq<Posting>, ledger: nat): int {
    if accounts == [] then 0
    else (if accounts[0].ledger == ledger then Net(ps, accounts[0].id) else 0)
         + LedgerNet(accounts[1..], ps, ledger)
  }

  /** At least two postings, in equal debits and credits, each positive and in the ledger's own accounts. */
  predicate Balanced(accounts: seq<Account>, t: Txn) {
    && |t.postings| >= 2 && Total(t.postings) == 0
    && forall p :: p in t.postings ==> p.amount > 0 && InLedger(accounts, p.account, t.ledger)
  }

  lemma {:induction false} TypeTotalsSplit(accounts: seq<Account>, txns: seq<Txn>, l: nat)
    ensures TypeTotal(accounts, txns, l, Asset) + TypeTotal(accounts, txns, l, Expense)
          - TypeTotal(accounts, txns, l, Liability) - TypeTotal(accounts, txns, l, Equity)
          - TypeTotal(accounts, txns, l, Income) == LedgerTotal(accounts, txns, l)
  {
    if accounts != [] { TypeTotalsSplit(accounts[1..], txns, l); }
  }

  lemma {:induction false} LedgerTotalStep(accounts: seq<Account>, txns: seq<Txn>, t: Txn, l: nat)
    ensures LedgerTotal(accounts, txns + [t], l)
         == LedgerTotal(accounts, txns, l) + LedgerNet(accounts, t.postings, l)
  {
    if accounts != [] {
      LedgerTotalStep(accounts[1..], txns, t, l);
      assert (txns + [t])[..|txns|] == txns;
    }
  }

  lemma {:induction false} LedgerTotalEmpty(accounts: seq<Account>, l: nat)
    ensures LedgerTotal(accounts, [], l) == 0
  {
    if accounts != [] { LedgerTotalEmpty(accounts[1..], l); }
  }

  lemma {:induction false} LedgerNetEmpty(accounts: seq<Account>, l: nat)
    ensures LedgerNet(accounts, [], l) == 0
  {
    if accounts != [] { LedgerNetEmpty(accounts[1..], l); }
  }

  /** A posting is counted once, by the one account that has its id. */
  lemma {:induction false} LedgerNetStep(accounts: seq<Account>, p: Posting, ps: seq<Posting>, l: nat)
    requires DistinctAccounts(accounts)
    ensures LedgerNet(accounts, [p] + ps, l)
         == LedgerNet(accounts, ps, l) + if InLedger(accounts, p.account, l) then Signed(p) else 0
  {
    if accounts != [] {
      LedgerNetStep(accounts[1..], p, ps, l);
      assert ([p] + ps)[1..] == ps;
    }
  }

  lemma {:induction false} LedgerNetOfTxn(accounts: seq<Account>, ps: seq<Posting>, own: nat, l: nat)
    requires DistinctAccounts(accounts)
    requires forall p :: p in ps ==> InLedger(accounts, p.account, own)
    ensures LedgerNet(accounts, ps, l) == if own == l then Total(ps) else 0
  {
    if ps == [] {
      LedgerNetEmpty(accounts, l);
    } else {
      assert ps == [ps[0]] + ps[1..];
      LedgerNetStep(accounts, ps[0], ps[1..], l);
      LedgerNetOfTxn(accounts, ps[1..], own, l);
    }
  }

  lemma {:induction false} LedgerTotalIsZero(accounts: seq<Account>, txns: seq<Txn>, l: nat)
    requires DistinctAccounts(accounts) && forall t :: t in txns ==> Balanced(accounts, t)
    ensures LedgerTotal(accounts, txns, l) == 0
  {
    if txns == [] {
      LedgerTotalEmpty(accounts, l);
    } else {
      var front, t := txns[..|txns| - 1], txns[|txns| - 1];
      LedgerTotalIsZero(accounts, front, l);
      assert txns == front + [t];
      LedgerTotalStep(accounts, front, t, l);
      assert Balanced(accounts, t);
      LedgerNetOfTxn(accounts, t.postings, t.ledger, l);
    }
  }

  /** Assets + expenses = liabilities + equity + income, in every ledger of a balanced database. */
  lemma AccountingEquation(accounts: seq<Account>, txns: seq<Txn>, l: nat)
    requires DistinctAccounts(accounts) && forall t :: t in txns ==> Balanced(accounts, t)
    ensures TypeTotal(accounts, txns, l, Asset) + TypeTotal(accounts, txns, l, Expense)
         == TypeTotal(accounts, txns, l, Liability) + TypeTotal(accounts, txns, l, Equity)
          + TypeTotal(accounts, txns, l, Income)
  {
    TypeTotalsSplit(accounts, txns, l);
    LedgerTotalIsZero(accounts, txns, l);
  }

  /* ---------- table updates ---------- */

  lemma {:induction false} LookupFacts(txns: seq<Txn>, id: nat, bound: nat)
    requires IdsBelow(txns, bound)
    ensures Lookup(txns, id).Some? ==> id < bound && Lookup(txns, id).value.id == id && Lookup(txns, id).value in txns
  {
    if txns != [] && txns[|txns| - 1].id != id {
      LookupFacts(txns[..|txns| - 1], id, txns[|txns| - 1].id);
    }
  }

  lemma {:induction false} RaiseBound(txns: seq<Txn>, bound: nat, bound': nat)
    requires IdsBelow(txns, bound) && bound <= bound'
    ensures IdsBelow(txns, bound')
  {
  }

  lemma {:induction false} SetKindFacts(txns: seq<Txn>, id: nat, kind: Kind, bound: nat, other: nat)
    requires IdsBelow(txns, bound)
    ensures IdsBelow(SetKind(txns, id, kind), bound) && |SetKind(txns, id, kind)| == |txns|
    ensures Lookup(SetKind(txns, id, kind), other)
         == if other == id && Lookup(txns, id).Some? then Some(Lookup(txns, id).value.(kind := kind))
            else Lookup(txns, other)
  {
    if txns != [] {
      var front, t := txns[..|txns| - 1], txns[|txns| - 1];
      SetKindFacts(front, id, kind, t.id, other);
      var s := SetKind(txns, id, kind);
      assert s[..|s| - 1] == SetKind(front, id, kind);
    }
  }

  lemma {:induction false} SetKindMembers(txns: seq<Txn>, id: nat, kind: Kind)
    ensures forall t :: t in SetKind(txns, id, kind) ==>
      exists u :: u in txns && (t == u || t == u.(kind := kind))
  {
    if txns != [] {
      var front, last := txns[..|txns| - 1], txns[|txns| - 1];
      SetKindMembers(front, id, kind);
      forall t | t in SetKind(txns, id, kind) ensures exists u :: u in txns && (t == u || t == u.(kind := kind)) {
        if t in SetKind(front, id, kind) {
          var u :| u in front && (t == u || t == u.(kind := kind));
          assert u in txns;
        } else {
          assert last in txns;
        }
      }
    }
  }

  lemma {:induction false} SetKindAbsent(txns: seq<Txn>, id: nat, kind: Kind)
    requires Lookup(txns, id) == None
    ensures SetKind(txns, id, kind) == txns
  {
    if txns != [] {
      SetKindAbsent(txns[..|txns| - 1], id, kind);
      assert txns == txns[..|txns| - 1] + [txns[|txns| - 1]];
    }
  }

  lemma {:induction false} WithoutAbsent(txns: seq<Txn>, id: nat)
    requires Lookup(txns, id) == None
    ensures Without(txns, id) == txns
  {
    if txns != [] {
      WithoutAbsent(txns[..|txns| - 1], id);
      assert txns == txns[..|txns| - 1] + [txns[|txns| - 1]];
    }
  }

  function Share(t: Txn, account: nat, date: int): int {
    if CountsAsOf(t, date) then Net(t.postings, account) else 0
  }

  lemma {:induction false} LookupAbsent(txns: seq<Txn>, id: nat)
    requires IdsBelow(txns, id)
    ensures Lookup(txns, id) == None
  {
    if txns != [] {
      RaiseBound(txns[..|txns| - 1], txns[|txns| - 1].id, id);
      LookupAbsent(txns[..|txns| - 1], id);
    }
  }

  /** Changing one row's kind moves a reported balance by that row's change alone. */
  lemma {:induction false} SetKindRawAsOf(txns: seq<Txn>, id: nat, kind: Kind, bound: nat, account: nat, date: int)
    requires IdsBelow(txns, bound) && Lookup(txns, id).Some?
    ensures var t := Lookup(txns, id).value;
            RawAsOf(SetKind(txns, id, kind), account, date)
            == RawAsOf(txns, account, date) - Share(t, account, date) + Share(t.(kind := kind), account, date)
  {
    var front, t := txns[..|txns| - 1], txns[|txns| - 1];
    var s := SetKind(txns, id, kind);
    assert s[..|s| - 1] == SetKind(front, id, kind);
    if t.id == id {
      LookupAbsent(front, id);
      SetKindAbsent(front, id, kind);
    } else {
      SetKindRawAsOf(front, id, kind, t.id, account, date);
    }
  }

  lemma {:induction false} WithoutFacts(txns: seq<Txn>, id: nat, bound: nat, other: nat)
    requires IdsBelow(txns, bound)
    ensures IdsBelow(Without(txns, id), bound)
    ensures Lookup(Without(txns, id), other) == if other == id then None else Lookup(txns, other)
    ensures forall t :: t in Without(txns, id) ==> t in txns
  {
    if txns != [] {
      var front, t := txns[..|txns| - 1], txns[|txns| - 1];
      WithoutFacts(front, id, t.id, other);
      if t.id == id {
        RaiseBound(Without(front, id), t.id, bound);
        assert Without(txns, id) == Without(front, id);
      } else {
        assert Without(txns, id)[..|Without(front, id)|] == Without(front, id);
      }
    }
  }

  lemma {:induction false} WithoutRawAsOf(txns: seq<Txn>, id: nat, bound: nat, account: nat, date: int)
    requires IdsBelow(txns, bound) && Lookup(txns, id).Some?
    ensures RawAsOf(Without(txns, id), account, date)
         == RawAsOf(txns, account, date) - Share(Lookup(txns, id).value, account, date)
  {
    var front, t := txns[..|txns| - 1], txns[|txns| - 1];
    if t.id == id {
      LookupAbsent(front, id);
      WithoutAbsent(front, id);
      assert Without(txns, id) == front;
    } else {
      WithoutRawAsOf(front, id, t.id, account, date);
      assert Without(txns, id)[..|Without(front, id)|] == Without(front, id);
    }
  }

  /** A transaction that touches only another ledger's accounts has no effect on this one. */
  lemma {:induction false} NetElsewhere(accounts: seq<Account>, ps: seq<Posting>, own: nat, account: nat)
    requires forall p :: p in ps ==> InLedger(accounts, p.account, own)
    requires !InLedger(accounts, account, own)
    ensures Net(ps, account) == 0
  {
    if ps != [] { NetElsewhere(accounts, ps[1..], own, account); }
  }

  lemma {:induction false} DistinctSuffix(accounts: seq<Account>, i: nat)
    requires DistinctAccounts(accounts) && i <= |accounts|
    ensures DistinctAccounts(accounts[i..])
  {
    if i > 0 {
      DistinctSuffix(accounts[1..], i - 1);
      assert accounts[1..][i - 1..] == accounts[i..];
    }
  }

  method RawBalance(txns: seq<Txn>, account: nat) returns (raw: int)
    ensures raw == Raw(txns, account)
  {
    raw := 0;
    for i := 0 to |txns|
      invariant raw == Raw(txns[..i], account)
    {
      assert txns[..i + 1][..i] == txns[..i];
      var ps := txns[i].postings;
      var net := 0;
      for j := 0 to |ps|
        invariant net + Net(ps[j..], account) == Net(ps, account)
      {
        assert ps[j..][1..] == ps[j + 1..];
        if ps[j].account == account {
          net := net + Signed(ps[j]);
        }
      }
      raw := raw + net;
    }
    assert txns[..|txns|] == txns;
  }

  /** `compute_balances`: one entry per account of the ledger, in the account's normal direction. */
  method ComputeBalances(accounts: seq<Account>, txns: seq<Txn>, ledger: nat) returns (m: map<nat, int>)
    requires DistinctAccounts(accounts)
    ensures forall id :: id in m <==> InLedger(accounts, id, ledger)
    ensures forall id :: id in m ==>
      InLedger(accounts, id, ledger) && m[id] == BalanceOf(txns, AccountOf(accounts, id).value)
  {
    m := map[];
    var i := |accounts|;
    while i > 0
      invariant 0 <= i <= |accounts| && DistinctAccounts(accounts[i..])
      invariant forall id :: id in m <==> InLedger(accounts[i..], id, ledger)
      invariant forall id :: id in m ==>
        InLedger(accounts[i..], id, ledger) && m[id] == BalanceOf(txns, AccountOf(accounts[i..], id).value)
      decreases i
    {
      i := i - 1;
      assert accounts[i..][1..] == accounts[i + 1..];
      DistinctSuffix(accounts, i);
      var a := accounts[i];
      if a.ledger == ledger {
        var raw := RawBalance(txns, a.id);
        m := m[a.id := if DebitNormal(a.kind) then raw else -raw];
      }
    }
    assert accounts[0..] == accounts;
  }
}
