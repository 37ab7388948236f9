/**
 * Allocation of invoice numbers for one ledger and year (`next_invoice_number` in
 * src/domain/close_controls.rs), as concurrent database transactions under READ
 * COMMITTED. Each statement is one step; a statement that would wait for a row lock is
 * a step that changes nothing until the lock is free.
 */
module InvoiceSequence {
  import opened Prelude

  datatype Phase =
    | Starting                                // before the first SELECT ... FOR UPDATE
    | RowAbsent                               // it found no row; the maximum is to be read
    | Seeded(seed: int)                       // about to INSERT ... ON CONFLICT DO NOTHING
    | Rereading                               // the insert met a conflict; about to re-read under lock
    | Holding(last: int, taken: seq<int>)     // owns the row; numbers taken so far

  /**
   * `row` is the committed last_no, `holder` the transaction that owns the (possibly
   * uncommitted) row, `issued` the numbers of committed allocations in commit order and
   * `base` the largest suffix among the invoices that were there before.
   */
  datatype State = State(row: Option<int>, holder: Option<nat>, phases: map<nat, Phase>, issued: seq<int>, base: int)

  datatype Event =
    | Begin(tx: nat)
    | Select(tx: nat)
    | ReadMax(tx: nat)
    | Insert(tx: nat)
    | Reread(tx: nat)
    | Allocate(tx: nat)
    | Commit(tx: nat)
    | Rollback(tx: nat)

  function Max(s: seq<int>, least: int): int {
    if s == [] then least
    else if s[|s| - 1] > Max(s[..|s| - 1], least) then s[|s| - 1] else Max(s[..|s| - 1], least)
  }

  function Move(s: State, tx: nat, p: Phase): State {
    s.(phases := s.phases[tx := p])
  }

  /** Take the row lock if it is free, reading the committed counter; otherwise wait. */
  function Lock(s: State, tx: nat): State {
    if s.row.Some? && s.holder == None then Move(s, tx, Holding(s.row.value, [])).(holder := Some(tx)) else s
  }

  function Leave(s: State, tx: nat): State {
    s.(phases := s.phases - {tx}, holder := if s.holder == Some(tx) then None else s.holder)
  }

  function Step(s: State, e: Event): State {
    var tx := e.tx;
    if e.Begin? then if tx in s.phases then s else Move(s, tx, Starting)
    else if tx !in s.phases then s
    else
      var p := s.phases[tx];
      match e
      case Begin(_) => s
      case Select(_) =>
        if !p.Starting? then s else if s.row == None then Move(s, tx, RowAbsent) else Lock(s, tx)
      case ReadMax(_) =>
        if p.RowAbsent? then Move(s, tx, Seeded(Max(s.issued, s.base))) else s
      case Insert(_) =>
        if !p.Seeded? then s
        else if s.row.Some? then Move(s, tx, Rereading)
        else if s.holder == None then Move(s, tx, Holding(p.seed, [])).(holder := Some(tx))
        else s
      case Reread(_) => if p.Rereading? then Lock(s, tx) else s
      case Allocate(_) =>
        if p.Holding? then Move(s, tx, Holding(p.last + 1, p.taken + [p.last + 1])) else s
      case Commit(_) =>
        if p.Holding? then Leave(s, tx).(row := Some(p.last), issued := s.issued + p.taken) else Leave(s, tx)
      case Rollback(_) => Leave(s, tx)
  }

  function Run(s: State, events: seq<Event>): State
    decreases |events|
  {
    if events == [] then s else Run(Step(s, events[0]), events[1..])
  }

  /** Before the first allocation of a run: a counter row may or may not exist yet. */
  function Init(row: Option<int>, base: int): State {
    State(row, None, map[], [], base)
  }

  /** The number after which the run starts counting. */
  function Seed(row: Option<int>, base: int): int {
    if row.Some? then row.value else base
  }

  function From(start: int, n: nat): seq<int> {
    seq(n, i => start + 1 + i)
  }

  ghost predicate GoodPhase(s: State, start: int, tx: nat, p: Phase) {
    match p
    case Starting => true
    case RowAbsent => true
    case Seeded(seed) => s.row == None ==> seed == start
    case Rereading => s.row.Some?
    case Holding(last, taken) =>
      && s.holder == Some(tx)
      && last == start + |s.issued| + |taken|
      && taken == From(start + |s.issued|, |taken|)
  }

  ghost predicate Inv(s: State, start: int) {
    && s.issued == From(start, |s.issued|)
    && (match s.row case Some(last) => last == start + |s.issued| case None => s.issued == [] && s.base == start)
    && (s.holder.Some? ==> s.holder.value in s.phases && s.phases[s.holder.value].Holding?)
    && (forall tx :: tx in s.phases ==> GoodPhase(s, start, tx, s.phases[tx]))
  }

  lemma FromConcat(start: int, n: nat, m: nat)
    ensures From(start, n) + From(start + n, m) == From(start, n + m)
  {
  }

  lemma CommitKeepsInv(s: State, start: int, tx: nat)
    requires Inv(s, start) && tx in s.phases && s.phases[tx].Holding?
    ensures Inv(Step(s, Commit(tx)), start)
  {
    var p := s.phases[tx];
    assert GoodPhase(s, start, tx, p);
    FromConcat(start, |s.issued|, |p.taken|);
    var s' := Step(s, Commit(tx));
    forall t | t in s'.phases ensures GoodPhase(s', start, t, s'.phases[t]) {
      assert GoodPhase(s, start, t, s.phases[t]);
    }
  }

  lemma LeaveKeepsInv(s: State, start: int, tx: nat)
    requires Inv(s, start)
    ensures Inv(Leave(s, tx), start)
  {
    var s' := Leave(s, tx);
    forall t | t in s'.phases ensures GoodPhase(s', start, t, s'.phases[t]) {
      assert GoodPhase(s, start, t, s.phases[t]);
    }
  }

  /** A step that puts one transaction into a good phase, holding the row if it says so. */
  lemma MoveKeepsInv(s: State, start: int, tx: nat, p: Phase, holder: Option<nat>)
    requires Inv(s, start)
    requires holder == s.holder || (s.holder == None && holder == Some(tx))
    requires GoodPhase(Move(s, tx, p).(holder := holder), start, tx, p)
    requires holder == Some(tx) ==> p.Holding?
    ensures Inv(Move(s, tx, p).(holder := holder), start)
  {
    var s' := Move(s, tx, p).(holder := holder);
    forall t | t in s'.phases ensures GoodPhase(s', start, t, s'.phases[t]) {
      if t != tx { assert GoodPhase(s, start, t, s.phases[t]); }
    }
  }

  lemma LockKeepsInv(s: State, start: int, tx: nat)
    requires Inv(s, start)
    ensures Inv(Lock(s, tx), start)
  {
    if s.row.Some? && s.holder == None {
      MoveKeepsInv(s, start, tx, Holding(s.row.value, []), Some(tx));
    }
  }

  lemma StepKeepsInv(s: State, e: Event, start: int)
    requires Inv(s, start)
    ensures Inv(Step(s, e), start)
  {
    var tx := e.tx;
    if e.Begin? {
      if tx !in s.phases { MoveKeepsInv(s, start, tx, Starting, s.holder); }
    } else if tx in s.phases {
      var p := s.phases[tx];
      assert GoodPhase(s, start, tx, p);
      match e
      case Begin(_) =>
      case Select(_) =>
        if p.Starting? {
          if s.row == None { MoveKeepsInv(s, start, tx, RowAbsent, s.holder); } else { LockKeepsInv(s, start, tx); }
        }
      case ReadMax(_) =>
        if p.RowAbsent? { MoveKeepsInv(s, start, tx, Seeded(Max(s.issued, s.base)), s.holder); }
      case Insert(_) =>
        if p.Seeded? {
          if s.row.Some? {
            MoveKeepsInv(s, start, tx, Rereading, s.holder);
          } else if s.holder == None {
            MoveKeepsInv(s, start, tx, Holding(p.seed, []), Some(tx));
          }
        }
      case Reread(_) =>
        if p.Rereading? { LockKeepsInv(s, start, tx); }
      case Allocate(_) =>
        if p.Holding? {
          FromConcat(start + |s.issued|, |p.taken|, 1);
          MoveKeepsInv(s, start, tx, Holding(p.last + 1, p.taken + [p.last + 1]), s.holder);
        }
      case Commit(_) =>
        if p.Holding? { CommitKeepsInv(s, start, tx); } else { LeaveKeepsInv(s, start, tx); }
      case Rollback(_) => LeaveKeepsInv(s, start, tx);
    }
  }

  lemma {:induction false} RunKeepsInv(s: State, events: seq<Event>, start: int)
    requires Inv(s, start)
    ensures Inv(Run(s, events), start)
    decreases |events|
  {
    if events != [] {
      StepKeepsInv(s, events[0], start);
      RunKeepsInv(Step(s, events[0]), events[1..], start);
    }
  }

  /**
   * Gapless numbering: under every interleaving of allocating transactions, with commits,
   * rollbacks and a race for the first use, the committed numbers are seed + 1,
   * seed + 2, ... without gap or repeat, in commit order, and the counter is the last one.
   */
  lemma GaplessNumbering(row: Option<int>, base: int, events: seq<Event>)
    ensures var final := Run(Init(row, base), events);
            && final.issued == From(Seed(row, base), |final.issued|)
            && (final.issued != [] ==> final.row == Some(final.issued[|final.issued| - 1]))
  {
    assert From(Seed(row, base), 0) == [];
    RunKeepsInv(Init(row, base), events, Seed(row, base));
  }

  /** No two transactions ever own the row, so no two hold the same number at once. */
  lemma OneHolder(row: Option<int>, base: int, events: seq<Event>, t: nat, u: nat)
    requires var s := Run(Init(row, base), events);
             t in s.phases && u in s.phases && s.phases[t].Holding? && s.phases[u].Holding?
    ensures t == u
  {
    var s := Run(Init(row, base), events);
    assert From(Seed(row, base), 0) == [];
    RunKeepsInv(Init(row, base), events, Seed(row, base));
    assert GoodPhase(s, Seed(row, base), t, s.phases[t]) && GoodPhase(s, Seed(row, base), u, s.phases[u]);
  }

  /** The numbers a transaction has taken and not yet committed. */
  function Held(s: State, tx: nat): seq<int> {
    if tx in s.phases && s.phases[tx].Holding? then s.phases[tx].taken else []
  }

  /** What the commits of a run make permanent: what each transaction holds just before it commits. */
  function Committed(s: State, events: seq<Event>): seq<int>
    decreases |events|
  {
    if events == [] then []
    else (if events[0].Commit? then Held(s, events[0].tx) else []) + Committed(Step(s, events[0]), events[1..])
  }

  lemma {:induction false} IssuedIsCommitted(s: State, events: seq<Event>)
    ensures Run(s, events).issued == s.issued + Committed(s, events)
    decreases |events|
  {
    if events == [] {
      assert s.issued + [] == s.issued;
    } else {
      var next := Step(s, events[0]);
      var now := if events[0].Commit? then Held(s, events[0].tx) else [];
      assert next.issued == s.issued + now;
      IssuedIsCommitted(next, events[1..]);
      assert s.issued + now + Committed(next, events[1..]) == s.issued + (now + Committed(next, events[1..]));
    }
  }

  /**
   * The same, read off the events: the numbers that transactions hold when they commit are,
   * in commit order, seed + 1, seed + 2, ..., and the counter row is the last of them.
   */
  lemma CommittedExactly(row: Option<int>, base: int, events: seq<Event>)
    ensures var numbers, final := Committed(Init(row, base), events), Run(Init(row, base), events);
            && numbers == From(Seed(row, base), |numbers|)
            && (numbers != [] ==> final.row == Some(Seed(row, base) + |numbers|))
  {
    IssuedIsCommitted(Init(row, base), events);
    assert [] + Committed(Init(row, base), events) == Committed(Init(row, base), events);
    GaplessNumbering(row, base, events);
  }

  /** A rollback gives everything back: nothing is published, and the transaction and its lock are gone. */
  lemma RollbackPublishesNothing(s: State, tx: nat)
    ensures var after := Step(s, Rollback(tx));
            && after.row == s.row && after.issued == s.issued && tx !in after.phases
            && (forall other :: other in after.phases <==> other in s.phases && other != tx)
            && (forall other :: other in after.phases ==> after.phases[other] == s.phases[other])
  {
  }

  /** In every reachable state an open transaction holds numbers above every committed one, each once. */
  lemma HeldAreNew(row: Option<int>, base: int, events: seq<Event>, tx: nat)
    ensures var s := Run(Init(row, base), events); var held := Held(s, tx);
            && (forall i, j :: 0 <= i < |s.issued| && 0 <= j < |held| ==> s.issued[i] < held[j])
            && (forall i, j :: 0 <= i < j < |held| ==> held[i] < held[j])
  {
    var s := Run(Init(row, base), events);
    assert From(Seed(row, base), 0) == [];
    RunKeepsInv(Init(row, base), events, Seed(row, base));
    if tx in s.phases {
      assert GoodPhase(s, Seed(row, base), tx, s.phases[tx]);
    }
  }

  function Allocations(tx: nat, n: nat): seq<Event> {
    if n == 0 then [] else Allocations(tx, n - 1) + [Allocate(tx)]
  }

  lemma {:induction false} RunConcat(s: State, a: seq<Event>, b: seq<Event>)
    ensures Run(s, a + b) == Run(Run(s, a), b)
    decreases |a|
  {
    if a == [] {
      assert a + b == b;
    } else {
      assert (a + b)[1..] == a[1..] + b;
      RunConcat(Step(s, a[0]), a[1..], b);
    }
  }

  lemma RunOne(s: State, e: Event)
    ensures Run(s, [e]) == Step(s, e)
  {
    assert [e][1..] == [];
  }

  /** The statements by which a transaction gets the row when nobody else is about. */
  function Opening(s: State, tx: nat): seq<Event> {
    if s.row.Some? then [Begin(tx), Select(tx)] else [Begin(tx), Select(tx), ReadMax(tx), Insert(tx)]
  }

  lemma RunCons(s: State, e: Event, rest: seq<Event>)
    ensures Run(s, [e] + rest) == Run(Step(s, e), rest)
  {
    assert ([e] + rest)[1..] == rest;
  }

  lemma RunPair(s: State, e: Event, f: Event)
    ensures Run(s, [e, f]) == Step(Step(s, e), f)
  {
    RunCons(s, e, [f]);
    RunOne(Step(s, e), f);
    assert [e] + [f] == [e, f];
  }

  lemma OpensAt(s: State, start: int, tx: nat)
    requires Inv(s, start) && s.holder == None && tx !in s.phases
    ensures Run(s, Opening(s, tx))
         == s.(phases := s.phases[tx := Holding(start + |s.issued|, [])], holder := Some(tx))
  {
    var a := Step(s, Begin(tx));
    var b := Step(a, Select(tx));
    RunPair(s, Begin(tx), Select(tx));
    if s.row == None {
      RunConcat(s, [Begin(tx), Select(tx)], [ReadMax(tx), Insert(tx)]);
      RunPair(b, ReadMax(tx), Insert(tx));
      assert Opening(s, tx) == [Begin(tx), Select(tx)] + [ReadMax(tx), Insert(tx)];
      assert Max([], s.base) == s.base;
      assert Step(Step(b, ReadMax(tx)), Insert(tx)).phases == s.phases[tx := Holding(start, [])];
    } else {
      assert b.phases == s.phases[tx := Holding(start + |s.issued|, [])];
    }
  }

  lemma {:induction false} TakesNext(s: State, tx: nat, last: int, n: nat)
    requires tx in s.phases && s.phases[tx] == Holding(last, [])
    ensures Run(s, Allocations(tx, n)) == s.(phases := s.phases[tx := Holding(last + n, From(last, n))])
  {
    if n == 0 {
      assert From(last, 0) == [] && s.phases[tx := s.phases[tx]] == s.phases;
    } else {
      TakesNext(s, tx, last, n - 1);
      RunConcat(s, Allocations(tx, n - 1), [Allocate(tx)]);
      RunOne(Run(s, Allocations(tx, n - 1)), Allocate(tx));
      assert From(last, n - 1) + [last + n] == From(last, n);
    }
  }

  lemma Overwritten(m: map<nat, Phase>, tx: nat, p: Phase, q: Phase)
    ensures m[tx := p][tx := q] == m[tx := q]
    ensures tx !in m ==> m[tx := q] - {tx} == m
  {
  }

  /** State with the row held by tx, at a given phase. */
  function HeldBy(s: State, tx: nat, p: Phase): State {
    s.(phases := s.phases[tx := p], holder := Some(tx))
  }

  lemma TakesAll(s: State, tx: nat, next: int, n: nat)
    ensures Run(HeldBy(s, tx, Holding(next, [])), Allocations(tx, n))
         == HeldBy(s, tx, Holding(next + n, From(next, n)))
  {
    TakesNext(HeldBy(s, tx, Holding(next, [])), tx, next, n);
    Overwritten(s.phases, tx, Holding(next, []), Holding(next + n, From(next, n)));
  }

  lemma RunThree(s: State, a: seq<Event>, b: seq<Event>, c: seq<Event>, t: State, u: State, v: State)
    requires Run(s, a) == t && Run(t, b) == u && Run(u, c) == v
    ensures Run(s, a + b + c) == v
  {
    RunConcat(s, a, b);
    RunConcat(s, a + b, c);
  }

  lemma CommitPublishes(s: State, tx: nat, last: int, taken: seq<int>)
    requires s.holder == None && tx !in s.phases
    ensures Step(HeldBy(s, tx, Holding(last, taken)), Commit(tx)) == s.(row := Some(last), issued := s.issued + taken)
  {
    Overwritten(s.phases, tx, Starting, Holding(last, taken));
  }

  /** Opening, n allocations and the commit, one after the other. */
  lemma SoloRun(s: State, next: int, tx: nat, n: nat)
    requires s.holder == None && tx !in s.phases
    requires Run(s, Opening(s, tx)) == HeldBy(s, tx, Holding(next, []))
    ensures Run(s, Opening(s, tx) + Allocations(tx, n) + [Commit(tx)])
         == s.(row := Some(next + n), issued := s.issued + From(next, n))
  {
    var t, u := HeldBy(s, tx, Holding(next, [])), HeldBy(s, tx, Holding(next + n, From(next, n)));
    TakesAll(s, tx, next, n);
    RunOne(u, Commit(tx));
    CommitPublishes(s, tx, next + n, From(next, n));
    RunThree(s, Opening(s, tx), Allocations(tx, n), [Commit(tx)], t, u, Step(u, Commit(tx)));
  }

  /**
   * Nothing is refused for long: whenever the row is free, a new transaction that runs by
   * itself gets the n numbers after the last committed one, and its commit publishes
   * exactly those, moves the counter to the last of them and frees the row again.
   */
  lemma SoloAllocates(row: Option<int>, base: int, events: seq<Event>, tx: nat, n: nat)
    requires var s := Run(Init(row, base), events); s.holder == None && tx !in s.phases
    ensures var s := Run(Init(row, base), events);
            var next := Seed(row, base) + |s.issued|;
            var after := Run(s, Opening(s, tx) + Allocations(tx, n) + [Commit(tx)]);
            && after.issued == s.issued + From(next, n) && after.row == Some(next + n)
            && after.holder == None && after.phases == s.phases
  {
    var s, start := Run(Init(row, base), events), Seed(row, base);
    assert From(start, 0) == [];
    RunKeepsInv(Init(row, base), events, start);
    OpensAt(s, start, tx);
    SoloRun(s, start + |s.issued|, tx, n);
  }
}
