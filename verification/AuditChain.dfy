/**
 * The hash chain over the audit log (src/audit/chain.rs): append, backfill and
 * the verifier. SHA-256 is an arbitrary function `sha` from bytes to 32 bytes.
 * The table is kept in the order every query uses: created_at, then id.
 */
module AuditChain {
  import opened Prelude
  import opened AuditEncoding

  const HASH_LEN := 32

  type Hash = b: Bytes | |b| == HASH_LEN witness seq(HASH_LEN, _ => 0)

  type Digest = Bytes -> Hash

  datatype Row = Row(id: nat, prevHash: Option<Bytes>, hash: Option<Bytes>, content: Content)

  datatype Reason = FirstHasPrev | LinkBroken | HashMismatch

  datatype BreakPoint = BreakPoint(id: nat, reason: Reason)

  /** A digest and a row encoding; the chain itself depends on nothing else. */
  datatype Scheme = Scheme(sha: Digest, encode: Content -> Bytes)

  /** The scheme in use: the canonical encoding under the given digest. */
  function ChainScheme(sha: Digest): Scheme {
    Scheme(sha, Canonical)
  }

  function Preimage(scheme: Scheme, prev: Option<Bytes>, content: Content): Bytes {
    match prev
    case Some(p) => p + scheme.encode(content)
    case None => scheme.encode(content)
  }

  function ComputeHash(scheme: Scheme, prev: Option<Bytes>, content: Content): Hash {
    scheme.sha(Preimage(scheme, prev, content))
  }

  predicate Before(a: Row, b: Row) {
    a.content.createdAt < b.content.createdAt
    || (a.content.createdAt == b.content.createdAt && a.id < b.id)
  }

  ghost predicate Sorted(rows: seq<Row>) {
    forall i, j :: 0 <= i < j < |rows| ==> Before(rows[i], rows[j])
  }

  /** Hash of the last row that has one. */
  function TailHash(rows: seq<Row>): Option<Bytes> {
    if rows == [] then None
    else if rows[|rows| - 1].hash.Some? then rows[|rows| - 1].hash
    else TailHash(rows[..|rows| - 1])
  }

  function Inserted(rows: seq<Row>, row: Row): seq<Row> {
    if rows != [] && Before(rows[0], row) then [rows[0]] + Inserted(rows[1..], row) else [row] + rows
  }

  function NewRow(scheme: Scheme, rows: seq<Row>, id: nat, content: Content): Row {
    var prev := TailHash(rows);
    Row(id, prev, Some(ComputeHash(scheme, prev, content)), content)
  }

  function Appended(scheme: Scheme, rows: seq<Row>, id: nat, content: Content): seq<Row> {
    Inserted(rows, NewRow(scheme, rows, id, content))
  }

  function FillRow(scheme: Scheme, row: Row, prev: Option<Bytes>): Row {
    if row.hash.Some? then row
    else row.(prevHash := prev, hash := Some(ComputeHash(scheme, prev, row.content)))
  }

  function NextPrev(scheme: Scheme, row: Row, prev: Option<Bytes>): Option<Bytes> {
    if row.hash.Some? then prev else FillRow(scheme, row, prev).hash
  }

  /** Give every unhashed row a hash, chaining from `prev` in table order. */
  function Fill(scheme: Scheme, rows: seq<Row>, prev: Option<Bytes>): seq<Row>
    decreases |rows|
  {
    if rows == [] then []
    else [FillRow(scheme, rows[0], prev)] + Fill(scheme, rows[1..], NextPrev(scheme, rows[0], prev))
  }

  function Backfilled(scheme: Scheme, rows: seq<Row>): seq<Row> {
    Fill(scheme, rows, TailHash(rows))
  }

  function Unhashed(rows: seq<Row>): nat {
    if rows == [] then 0 else (if rows[0].hash.None? then 1 else 0) + Unhashed(rows[1..])
  }

  /** The findings about one row, given the hash of the row before it. */
  function RowBreaks(scheme: Scheme, prev: Option<Bytes>, row: Row): seq<BreakPoint> {
    if prev == None then
      if row.prevHash.Some? then [BreakPoint(row.id, FirstHasPrev)] else []
    else
      (if row.prevHash != prev then [BreakPoint(row.id, LinkBroken)] else [])
      + (if row.hash != Some(ComputeHash(scheme, row.prevHash, row.content))
         then [BreakPoint(row.id, HashMismatch)] else [])
  }

  function Breaks(scheme: Scheme, prev: Option<Bytes>, rows: seq<Row>): seq<BreakPoint>
    decreases |rows|
  {
    if rows == [] then []
    else RowBreaks(scheme, prev, rows[0]) + Breaks(scheme, rows[0].hash, rows[1..])
  }

  lemma ReplaceAt(done: seq<Row>, rows: seq<Row>, i: nat, row: Row)
    requires |done| == i < |rows|
    ensures (done + rows[i..])[i] == rows[i]
    ensures (done + rows[i..])[i := row] == done + [row] + rows[i + 1..]
    ensures row == rows[i] ==> done + rows[i..] == done + [row] + rows[i + 1..]
  {
  }

  lemma FillStep(scheme: Scheme, rows: seq<Row>, done: seq<Row>, i: nat, prev: Option<Bytes>)
    requires i < |rows| == |done + rows[i..]|
    ensures var row, next := FillRow(scheme, rows[i], prev), NextPrev(scheme, rows[i], prev);
            done + Fill(scheme, rows[i..], prev) == done + [row] + Fill(scheme, rows[i + 1..], next)
    ensures Unhashed(rows[i..]) == (if rows[i].hash.None? then 1 else 0) + Unhashed(rows[i + 1..])
  {
    assert rows[i..][1..] == rows[i + 1..];
  }

  /** The backfill loop: running `prev`, one update per row without a hash. */
  method HashUnhashed(scheme: Scheme, start: seq<Row>, tail: Option<Bytes>) returns (rows: seq<Row>, n: nat)
    ensures rows == Fill(scheme, start, tail) && n == Unhashed(start)
  {
    rows, n := start, 0;
    var prev := tail;
    ghost var done: seq<Row> := [];
    for i := 0 to |start|
      invariant |done| == i && rows == done + start[i..]
      invariant done + Fill(scheme, start[i..], prev) == Fill(scheme, start, tail)
      invariant n + Unhashed(start[i..]) == Unhashed(start)
    {
      ghost var row := FillRow(scheme, start[i], prev);
      FillStep(scheme, start, done, i, prev);
      ReplaceAt(done, start, i, row);
      if rows[i].hash.None? {
        var hash := ComputeHash(scheme, prev, rows[i].content);
        rows := rows[i := rows[i].(prevHash := prev, hash := Some(hash))];
        prev := Some(hash);
        n := n + 1;
      }
      done := done + [row];
    }
    assert start[|start|..] == [] && done + [] == done;
  }

  lemma BreaksStep(scheme: Scheme, prev: Option<Bytes>, rows: seq<Row>, i: nat)
    requires i < |rows|
    ensures Breaks(scheme, prev, rows[i..])
         == RowBreaks(scheme, prev, rows[i]) + Breaks(scheme, rows[i].hash, rows[i + 1..])
  {
    assert rows[i..][1..] == rows[i + 1..];
  }

  class AuditTable {
    const scheme: Scheme
    var rows: seq<Row>

    constructor (sha: Digest)
      ensures scheme == ChainScheme(sha) && rows == []
    {
      scheme := ChainScheme(sha);
      rows := [];
    }

    /** The tail query: scans back to the last row with a hash. */
    method Tail() returns (h: Option<Bytes>)
      ensures h == TailHash(rows)
    {
      var k := |rows|;
      assert rows[..k] == rows;
      while k > 0 && rows[k - 1].hash.None?
        invariant 0 <= k <= |rows| && TailHash(rows) == TailHash(rows[..k])
      {
        assert rows[..k][..k - 1] == rows[..k - 1];
        k := k - 1;
      }
      h := if k == 0 then None else rows[k - 1].hash;
    }

    method Insert(row: Row)
      modifies this
      ensures rows == Inserted(old(rows), row)
    {
      var p := 0;
      while p < |rows| && Before(rows[p], row)
        invariant 0 <= p <= |rows|
        invariant Inserted(rows, row) == rows[..p] + Inserted(rows[p..], row)
      {
        assert rows[p..][1..] == rows[p + 1..];
        p := p + 1;
      }
      rows := rows[..p] + [row] + rows[p..];
    }

    /** Append under the advisory lock; the database supplies an unused id. */
    method LogHashed(id: nat, content: Content)
      modifies this
      ensures rows == Appended(scheme, old(rows), id, content)
    {
      var prev := Tail();
      var hash := ComputeHash(scheme, prev, content);
      Insert(Row(id, prev, Some(hash), content));
    }

    method EnsureBackfilled() returns (n: nat)
      modifies this
      ensures rows == Backfilled(scheme, old(rows)) && n == Unhashed(old(rows))
    {
      var tail := Tail();
      rows, n := HashUnhashed(scheme, rows, tail);
    }

    /** The checks the verifier makes on one row. */
    method CheckRow(prev: Option<Bytes>, row: Row) returns (found: seq<BreakPoint>)
      ensures found == RowBreaks(scheme, prev, row)
    {
      found := [];
      if prev == None {
        // First row: its content is not recomputed.
        if row.prevHash.Some? {
          found := [BreakPoint(row.id, FirstHasPrev)];
        }
        return;
      }
      if row.prevHash != prev {
        found := [BreakPoint(row.id, LinkBroken)];
      }
      if row.hash != Some(ComputeHash(scheme, row.prevHash, row.content)) {
        found := found + [BreakPoint(row.id, HashMismatch)];
      }
    }

    method Verify() returns (breaks: seq<BreakPoint>)
      ensures breaks == Breaks(scheme, None, rows)
    {
      breaks := [];
      var prev: Option<Bytes> := None;
      for i := 0 to |rows|
        invariant breaks + Breaks(scheme, prev, rows[i..]) == Breaks(scheme, None, rows)
      {
        var found := CheckRow(prev, rows[i]);
        BreaksStep(scheme, prev, rows, i);
        assert breaks + (found + Breaks(scheme, rows[i].hash, rows[i + 1..]))
            == breaks + found + Breaks(scheme, rows[i].hash, rows[i + 1..]);
        breaks := breaks + found;
        prev := rows[i].hash;
      }
    }
  }

  /** Every row carries the hash of its own content and its predecessor, starting from `prev`. */
  predicate ChainedFrom(scheme: Scheme, prev: Option<Bytes>, rows: seq<Row>)
    decreases |rows|
  {
    rows == [] ||
    (&& rows[0].prevHash == prev
     && rows[0].hash == Some(ComputeHash(scheme, prev, rows[0].content))
     && ChainedFrom(scheme, rows[0].hash, rows[1..]))
  }

  /** The whole table, first row included, is one chain. */
  predicate Chained(scheme: Scheme, rows: seq<Row>) {
    ChainedFrom(scheme, None, rows)
  }

  function LastHash(prev: Option<Bytes>, rows: seq<Row>): Option<Bytes> {
    if rows == [] then prev else rows[|rows| - 1].hash
  }

  lemma {:induction false} ChainedConcat(scheme: Scheme, prev: Option<Bytes>, a: seq<Row>, b: seq<Row>)
    ensures ChainedFrom(scheme, prev, a + b)
            <==> ChainedFrom(scheme, prev, a) && ChainedFrom(scheme, LastHash(prev, a), b)
    decreases |a|
  {
    if a == [] {
      assert a + b == b;
    } else {
      assert (a + b)[1..] == a[1..] + b;
      ChainedConcat(scheme, a[0].hash, a[1..], b);
    }
  }

  lemma {:induction false} BreaksConcat(scheme: Scheme, prev: Option<Bytes>, a: seq<Row>, b: seq<Row>)
    ensures Breaks(scheme, prev, a + b) == Breaks(scheme, prev, a) + Breaks(scheme, LastHash(prev, a), b)
    decreases |a|
  {
    if a == [] {
      assert a + b == b;
    } else {
      assert (a + b)[1..] == a[1..] + b;
      BreaksConcat(scheme, a[0].hash, a[1..], b);
    }
  }

  /** After a row that has a hash, no findings means exactly that the rest is chained to it. */
  lemma {:induction false} CleanAfterHash(scheme: Scheme, prev: Bytes, rows: seq<Row>)
    ensures Breaks(scheme, Some(prev), rows) == [] <==> ChainedFrom(scheme, Some(prev), rows)
    decreases |rows|
  {
    if rows != [] && rows[0].hash.Some? {
      CleanAfterHash(scheme, rows[0].hash.value, rows[1..]);
    }
  }

  /** Position of the first row that has a hash, or the length of a table without one. */
  function FirstHashed(rows: seq<Row>): (n: nat)
    ensures n <= |rows|
    ensures forall i :: 0 <= i < n ==> rows[i].hash == None
    ensures n < |rows| ==> rows[n].hash.Some?
  {
    if rows == [] || rows[0].hash.Some? then 0 else 1 + FirstHashed(rows[1..])
  }

  /**
   * What the verifier accepts: up to and including the first hashed row no row has a
   * link, and the rows after it are chained to whatever hash that row stores.
   */
  ghost predicate LooksChained(scheme: Scheme, rows: seq<Row>) {
    var n := FirstHashed(rows);
    && (forall i :: 0 <= i <= n && i < |rows| ==> rows[i].prevHash == None)
    && (n < |rows| ==> ChainedFrom(scheme, rows[n].hash, rows[n + 1..]))
  }

  /** The verifier reports no break exactly on such logs, whatever the table holds. */
  lemma {:induction false} CleanExactly(scheme: Scheme, rows: seq<Row>)
    ensures Breaks(scheme, None, rows) == [] <==> LooksChained(scheme, rows)
    decreases |rows|
  {
    if rows != [] {
      var n := FirstHashed(rows);
      if rows[0].hash.Some? {
        CleanAfterHash(scheme, rows[0].hash.value, rows[1..]);
      } else {
        CleanExactly(scheme, rows[1..]);
        assert forall i :: 0 <= i < |rows| - 1 ==> rows[1..][i] == rows[i + 1];
        assert forall i :: 1 <= i < |rows| ==> rows[i] == rows[1..][i - 1];
        assert n < |rows| ==> rows[1..][n..] == rows[n + 1..];
      }
    }
  }

  /** The table is one whole chain exactly when no break is found and the first row stores its own digest. */
  lemma ChainedExactly(scheme: Scheme, rows: seq<Row>)
    ensures Chained(scheme, rows)
            <==> && Breaks(scheme, None, rows) == []
                 && (rows != [] ==> rows[0].hash == Some(ComputeHash(scheme, None, rows[0].content)))
  {
    if rows != [] && rows[0].hash.Some? {
      CleanAfterHash(scheme, rows[0].hash.value, rows[1..]);
    }
  }

  lemma ChainedIsClean(scheme: Scheme, rows: seq<Row>)
    requires Chained(scheme, rows)
    ensures Breaks(scheme, None, rows) == []
  {
    ChainedExactly(scheme, rows);
  }

  lemma {:induction false} ChainedAllHashed(scheme: Scheme, prev: Option<Bytes>, rows: seq<Row>)
    requires ChainedFrom(scheme, prev, rows)
    ensures forall i :: 0 <= i < |rows| ==> rows[i].hash.Some?
    decreases |rows|
  {
    if rows != [] {
      ChainedAllHashed(scheme, rows[0].hash, rows[1..]);
      assert forall i :: 1 <= i < |rows| ==> rows[i] == rows[1..][i - 1];
    }
  }

  /* ---------- append and backfill keep the chain ---------- */

  ghost predicate Latest(rows: seq<Row>, row: Row) {
    forall i :: 0 <= i < |rows| ==> Before(rows[i], row)
  }

  lemma {:induction false} InsertLatest(rows: seq<Row>, row: Row)
    requires Latest(rows, row)
    ensures Inserted(rows, row) == rows + [row]
  {
    if rows != [] {
      InsertLatest(rows[1..], row);
    }
  }

  /** Appending the newest row to a chained table keeps it chained. */
  lemma AppendKeepsChain(scheme: Scheme, rows: seq<Row>, id: nat, content: Content)
    requires Sorted(rows) && Chained(scheme, rows) && Latest(rows, NewRow(scheme, rows, id, content))
    ensures Sorted(Appended(scheme, rows, id, content)) && Chained(scheme, Appended(scheme, rows, id, content))
  {
    var row := NewRow(scheme, rows, id, content);
    InsertLatest(rows, row);
    ChainedAllHashed(scheme, None, rows);
    assert ChainedFrom(scheme, LastHash(None, rows), [row]);
    ChainedConcat(scheme, None, rows, [row]);
  }

  /** Hashed rows first, already chained, then rows still waiting for a hash. */
  ghost predicate HashedFirst(scheme: Scheme, rows: seq<Row>, n: nat) {
    && n <= |rows| && Chained(scheme, rows[..n])
    && forall i :: n <= i < |rows| ==> rows[i].hash == None
  }

  lemma {:induction false} TailOfPrefix(rows: seq<Row>, n: nat)
    requires n <= |rows| && forall i :: n <= i < |rows| ==> rows[i].hash == None
    ensures TailHash(rows) == TailHash(rows[..n])
  {
    if n < |rows| {
      TailOfPrefix(rows[..|rows| - 1], n);
      assert rows[..|rows| - 1][..n] == rows[..n];
    } else {
      assert rows[..n] == rows;
    }
  }

  lemma {:induction false} FillHashed(scheme: Scheme, a: seq<Row>, b: seq<Row>, prev: Option<Bytes>)
    requires forall i :: 0 <= i < |a| ==> a[i].hash.Some?
    ensures Fill(scheme, a + b, prev) == a + Fill(scheme, b, prev)
  {
    if a == [] {
      assert a + b == b;
    } else {
      assert (a + b)[1..] == a[1..] + b;
      FillHashed(scheme, a[1..], b, prev);
    }
  }

  /** Filling a stretch of unhashed rows produces a chain that starts at `prev`. */
  lemma {:induction false} FillChains(scheme: Scheme, rows: seq<Row>, prev: Option<Bytes>)
    requires forall i :: 0 <= i < |rows| ==> rows[i].hash == None
    ensures ChainedFrom(scheme, prev, Fill(scheme, rows, prev))
    decreases |rows|
  {
    if rows != [] {
      var h := Some(ComputeHash(scheme, prev, rows[0].content));
      FillChains(scheme, rows[1..], h);
      assert Fill(scheme, rows, prev)[1..] == Fill(scheme, rows[1..], h);
    }
  }

  /** Backfill touches nothing but the two hash columns. */
  lemma {:induction false} FillKeepsContent(scheme: Scheme, rows: seq<Row>, prev: Option<Bytes>)
    ensures |Fill(scheme, rows, prev)| == |rows|
    ensures forall i :: 0 <= i < |rows| ==>
      Fill(scheme, rows, prev)[i].id == rows[i].id && Fill(scheme, rows, prev)[i].content == rows[i].content
    decreases |rows|
  {
    if rows != [] {
      var next := NextPrev(scheme, rows[0], prev);
      FillKeepsContent(scheme, rows[1..], next);
      assert Fill(scheme, rows, prev)[1..] == Fill(scheme, rows[1..], next);
      forall i | 0 <= i < |rows|
        ensures Fill(scheme, rows, prev)[i].id == rows[i].id && Fill(scheme, rows, prev)[i].content == rows[i].content
      {
        if i > 0 { assert Fill(scheme, rows, prev)[i] == Fill(scheme, rows[1..], next)[i - 1]; }
      }
    }
  }

  /** Backfill turns any table whose unhashed rows come last into one whole chain. */
  lemma BackfillChains(scheme: Scheme, rows: seq<Row>, n: nat)
    requires HashedFirst(scheme, rows, n)
    ensures Chained(scheme, Backfilled(scheme, rows))
  {
    var a, b := rows[..n], rows[n..];
    assert rows == a + b;
    TailOfPrefix(rows, n);
    ChainedAllHashed(scheme, None, a);
    var prev := TailHash(rows);
    assert prev == LastHash(None, a);
    FillHashed(scheme, a, b, prev);
    FillChains(scheme, b, prev);
    ChainedConcat(scheme, None, a, Fill(scheme, b, prev));
  }

  lemma {:induction false} NoneUnhashed(rows: seq<Row>)
    requires forall i :: 0 <= i < |rows| ==> rows[i].hash.Some?
    ensures Unhashed(rows) == 0
  {
    if rows != [] { NoneUnhashed(rows[1..]); }
  }

  /** A table without unhashed rows is left as it is, and the count is zero. */
  lemma BackfillIdempotent(scheme: Scheme, rows: seq<Row>)
    requires forall i :: 0 <= i < |rows| ==> rows[i].hash.Some?
    ensures Backfilled(scheme, rows) == rows && Unhashed(rows) == 0
  {
    assert rows + [] == rows;
    FillHashed(scheme, rows, [], TailHash(rows));
    NoneUnhashed(rows);
  }

  datatype Op = Append(id: nat, content: Content) | Backfill

  function Step(scheme: Scheme, rows: seq<Row>, op: Op): seq<Row> {
    match op
    case Append(id, content) => Appended(scheme, rows, id, content)
    case Backfill => Backfilled(scheme, rows)
  }

  function Run(scheme: Scheme, rows: seq<Row>, ops: seq<Op>): seq<Row>
    decreases |ops|
  {
    if ops == [] then rows else Run(scheme, Step(scheme, rows, ops[0]), ops[1..])
  }

  /** Every append of the run carries a newer (created_at, id) than the rows it finds. */
  ghost predicate Increasing(scheme: Scheme, rows: seq<Row>, ops: seq<Op>)
    decreases |ops|
  {
    ops != [] ==>
      && (ops[0].Append? ==> Latest(rows, NewRow(scheme, rows, ops[0].id, ops[0].content)))
      && Increasing(scheme, Step(scheme, rows, ops[0]), ops[1..])
  }

  lemma {:induction false} RunKeepsChain(scheme: Scheme, rows: seq<Row>, ops: seq<Op>)
    requires Sorted(rows) && Chained(scheme, rows) && Increasing(scheme, rows, ops)
    ensures Sorted(Run(scheme, rows, ops)) && Chained(scheme, Run(scheme, rows, ops))
    decreases |ops|
  {
    if ops != [] {
      match ops[0]
      case Append(id, content) =>
        AppendKeepsChain(scheme, rows, id, content);
        RunKeepsChain(scheme, Step(scheme, rows, ops[0]), ops[1..]);
      case Backfill =>
        ChainedAllHashed(scheme, None, rows);
        BackfillIdempotent(scheme, rows);
        RunKeepsChain(scheme, rows, ops[1..]);
    }
  }

  /**
   * Startup backfill followed by any run of appends and further backfills leaves a
   * log the verifier finds no break in, and a further backfill has nothing to do.
   */
  lemma RunVerifies(scheme: Scheme, rows: seq<Row>, n: nat, ops: seq<Op>)
    requires Sorted(rows) && HashedFirst(scheme, rows, n)
    requires Increasing(scheme, Backfilled(scheme, rows), ops)
    ensures var final := Run(scheme, rows, [Backfill] + ops);
            && Breaks(scheme, None, final) == []
            && Backfilled(scheme, final) == final && Unhashed(final) == 0
  {
    BackfillChains(scheme, rows, n);
    FillKeepsContent(scheme, rows, TailHash(rows));
    var filled := Backfilled(scheme, rows);
    assert Sorted(filled);
    RunKeepsChain(scheme, filled, ops);
    assert ([Backfill] + ops)[1..] == ops;
    var final := Run(scheme, filled, ops);
    ChainedIsClean(scheme, final);
    ChainedAllHashed(scheme, None, final);
    BackfillIdempotent(scheme, final);
  }

  lemma {:induction false} InsertAt(rows: seq<Row>, row: Row) returns (p: nat)
    ensures p <= |rows| && Inserted(rows, row) == rows[..p] + [row] + rows[p..]
    ensures (forall i :: 0 <= i < p ==> Before(rows[i], row)) && (p < |rows| ==> !Before(rows[p], row))
  {
    if rows != [] && Before(rows[0], row) {
      var q := InsertAt(rows[1..], row);
      p := q + 1;
      assert rows[..p] == [rows[0]] + rows[1..][..q] && rows[1..][q..] == rows[p..];
      assert forall i :: 1 <= i < p ==> rows[i] == rows[1..][i - 1];
    } else {
      p := 0;
      assert rows[..0] + [row] + rows[0..] == [row] + rows;
    }
  }

  /**
   * Exactly when an append goes wrong: on a chained table with distinct hashes the
   * next verification is clean if and only if the new row is the newest. A clock
   * that steps back, or an unlucky id within one microsecond, breaks the chain.
   */
  lemma AppendCleanExactly(scheme: Scheme, rows: seq<Row>, id: nat, content: Content)
    requires Sorted(rows) && Chained(scheme, rows)
    requires forall i, j :: 0 <= i < j < |rows| ==> rows[i].hash != rows[j].hash
    ensures Breaks(scheme, None, Appended(scheme, rows, id, content)) == []
            <==> Latest(rows, NewRow(scheme, rows, id, content))
  {
    var row := NewRow(scheme, rows, id, content);
    var after := Appended(scheme, rows, id, content);
    if Latest(rows, row) {
      AppendKeepsChain(scheme, rows, id, content);
      ChainedIsClean(scheme, after);
    } else {
      var p := InsertAt(rows, row);
      ChainedAllHashed(scheme, None, rows);
      assert row.prevHash == rows[|rows| - 1].hash;
      var a, b := rows[..p], [row] + rows[p..];
      assert after == a + b;
      BreaksConcat(scheme, None, a, b);
      assert LastHash(None, a) != row.prevHash;
      assert RowBreaks(scheme, LastHash(None, a), row) != [];
    }
  }

  ghost predicate AllHashed(rows: seq<Row>) {
    forall i :: 0 <= i < |rows| ==> rows[i].hash.Some?
  }

  ghost predicate DistinctHashes(rows: seq<Row>) {
    forall i, j :: 0 <= i < j < |rows| ==> rows[i].hash != rows[j].hash
  }

  /** Some row links to one that stands after it. */
  ghost predicate Crossed(rows: seq<Row>) {
    exists i, j :: 0 <= i < j < |rows| && rows[i].prevHash.Some? && rows[i].prevHash == rows[j].hash
  }

  /** In a clean log every recomputed row stores the hash of its predecessor and its content. */
  lemma CleanLinks(scheme: Scheme, rows: seq<Row>, i: nat)
    requires Breaks(scheme, None, rows) == [] && FirstHashed(rows) < i < |rows|
    ensures rows[i - 1].hash.Some? && rows[i].prevHash == rows[i - 1].hash
    ensures rows[i].hash == Some(ComputeHash(scheme, rows[i].prevHash, rows[i].content))
  {
    var n := FirstHashed(rows);
    CleanExactly(scheme, rows);
    var a, b := rows[n + 1..i], rows[i..];
    assert rows[n + 1..] == a + b;
    ChainedConcat(scheme, rows[n].hash, a, b);
    ChainedAllHashed(scheme, rows[n].hash, a);
    assert LastHash(rows[n].hash, a) == rows[i - 1].hash;
  }

  lemma CrossedIsNotClean(scheme: Scheme, rows: seq<Row>)
    requires Crossed(rows) && AllHashed(rows) && DistinctHashes(rows)
    ensures Breaks(scheme, None, rows) != []
  {
    if Breaks(scheme, None, rows) == [] {
      var i, j :| 0 <= i < j < |rows| && rows[i].prevHash.Some? && rows[i].prevHash == rows[j].hash;
      assert rows[0].hash.Some?;
      CleanExactly(scheme, rows);
      if i > 0 {
        CleanLinks(scheme, rows, i);
      }
    }
  }

  /** No later append uncrosses two rows, wherever it lands. */
  lemma InsertKeepsCrossed(rows: seq<Row>, row: Row)
    requires Sorted(rows) && Crossed(rows)
    ensures Crossed(Inserted(rows, row))
  {
    var p := InsertAt(rows, row);
    var i, j :| 0 <= i < j < |rows| && rows[i].prevHash.Some? && rows[i].prevHash == rows[j].hash;
    var after := Inserted(rows, row);
    var i', j' := if i < p then i else i + 1, if j < p then j else j + 1;
    assert after[i'] == rows[i] && after[j'] == rows[j];
  }

  lemma InsertKeepsHashed(rows: seq<Row>, row: Row)
    requires Sorted(rows) && AllHashed(rows) && row.hash.Some?
    ensures AllHashed(Inserted(rows, row))
  {
    var p := InsertAt(rows, row);
  }

  /** Ids are unique, so that two rows are never at the same place. */
  ghost predicate FreshId(rows: seq<Row>, id: nat) {
    forall i :: 0 <= i < |rows| ==> rows[i].id != id
  }

  lemma InsertKeepsSorted(rows: seq<Row>, row: Row)
    requires Sorted(rows) && FreshId(rows, row.id)
    ensures Sorted(Inserted(rows, row))
  {
    var p := InsertAt(rows, row);
    var after := Inserted(rows, row);
    forall k | p <= k < |rows| ensures Before(row, rows[k]) {
      assert k > p ==> Before(rows[p], rows[k]);
    }
    forall i, j | 0 <= i < j < |after| ensures Before(after[i], after[j]) {
      assert after[i] == if i < p then rows[i] else if i == p then row else rows[i - 1];
      assert after[j] == if j < p then rows[j] else if j == p then row else rows[j - 1];
    }
  }

  /** Every append of the run gets an id that no row has yet. */
  ghost predicate FreshIds(scheme: Scheme, rows: seq<Row>, ops: seq<Op>)
    decreases |ops|
  {
    ops != [] ==>
      && (ops[0].Append? ==> FreshId(rows, ops[0].id))
      && FreshIds(scheme, Step(scheme, rows, ops[0]), ops[1..])
  }

  /** An append that is not the newest row links to a row after it. */
  lemma LateAppendCrosses(scheme: Scheme, rows: seq<Row>, id: nat, content: Content)
    requires Sorted(rows) && AllHashed(rows) && !Latest(rows, NewRow(scheme, rows, id, content))
    ensures Crossed(Appended(scheme, rows, id, content))
  {
    var row := NewRow(scheme, rows, id, content);
    var p := InsertAt(rows, row);
    var after := Appended(scheme, rows, id, content);
    assert row.prevHash == rows[|rows| - 1].hash;
    assert after[p] == row && after[|after| - 1] == rows[|rows| - 1];
  }

  lemma StepKeepsHashed(scheme: Scheme, rows: seq<Row>, op: Op)
    requires Sorted(rows) && AllHashed(rows) && (op.Append? ==> FreshId(rows, op.id))
    ensures Sorted(Step(scheme, rows, op)) && AllHashed(Step(scheme, rows, op))
  {
    match op
    case Append(id, content) =>
      InsertKeepsHashed(rows, NewRow(scheme, rows, id, content));
      InsertKeepsSorted(rows, NewRow(scheme, rows, id, content));
    case Backfill => BackfillIdempotent(scheme, rows);
  }

  lemma {:induction false} CrossedStays(scheme: Scheme, rows: seq<Row>, ops: seq<Op>)
    requires Sorted(rows) && AllHashed(rows) && Crossed(rows) && FreshIds(scheme, rows, ops)
    ensures AllHashed(Run(scheme, rows, ops)) && Crossed(Run(scheme, rows, ops))
    decreases |ops|
  {
    if ops != [] {
      StepKeepsHashed(scheme, rows, ops[0]);
      if ops[0].Append? {
        InsertKeepsCrossed(rows, NewRow(scheme, rows, ops[0].id, ops[0].content));
      } else {
        BackfillIdempotent(scheme, rows);
      }
      CrossedStays(scheme, Step(scheme, rows, ops[0]), ops[1..]);
    }
  }

  lemma {:induction false} LateRunCrosses(scheme: Scheme, rows: seq<Row>, ops: seq<Op>)
    requires Sorted(rows) && AllHashed(rows) && FreshIds(scheme, rows, ops) && !Increasing(scheme, rows, ops)
    ensures AllHashed(Run(scheme, rows, ops)) && Crossed(Run(scheme, rows, ops))
    decreases |ops|
  {
    var next := Step(scheme, rows, ops[0]);
    StepKeepsHashed(scheme, rows, ops[0]);
    if ops[0].Append? && !Latest(rows, NewRow(scheme, rows, ops[0].id, ops[0].content)) {
      LateAppendCrosses(scheme, rows, ops[0].id, ops[0].content);
      CrossedStays(scheme, next, ops[1..]);
    } else {
      LateRunCrosses(scheme, next, ops[1..]);
    }
  }

  /**
   * Exactly when a log stays verifiable over its whole life: after the startup backfill
   * and any run of appends and further backfills that leaves distinct hashes, the verifier
   * finds no break if and only if every append was the newest row when it got the lock.
   * No later append repairs an earlier one.
   */
  lemma RunCleanExactly(scheme: Scheme, rows: seq<Row>, n: nat, ops: seq<Op>)
    requires Sorted(rows) && HashedFirst(scheme, rows, n) && FreshIds(scheme, Backfilled(scheme, rows), ops)
    requires DistinctHashes(Run(scheme, rows, [Backfill] + ops))
    ensures Breaks(scheme, None, Run(scheme, rows, [Backfill] + ops)) == []
            <==> Increasing(scheme, Backfilled(scheme, rows), ops)
  {
    var filled := Backfilled(scheme, rows);
    assert ([Backfill] + ops)[1..] == ops;
    if Increasing(scheme, filled, ops) {
      RunVerifies(scheme, rows, n, ops);
    } else {
      BackfillChains(scheme, rows, n);
      ChainedAllHashed(scheme, None, filled);
      FillKeepsContent(scheme, rows, TailHash(rows));
      LateRunCrosses(scheme, filled, ops);
      CrossedIsNotClean(scheme, Run(scheme, filled, ops));
    }
  }

  /* ---------- what the table holds ---------- */

  /** The hash an append links to: that of the last row that has one, if any row does. */
  ghost predicate LastStored(rows: seq<Row>, prev: Option<Bytes>) {
    if prev == None then forall i :: 0 <= i < |rows| ==> rows[i].hash == None
    else exists i :: 0 <= i < |rows| && rows[i].hash == prev && forall j :: i < j < |rows| ==> rows[j].hash == None
  }

  lemma UnhashedKeepsLast(rows: seq<Row>, prev: Option<Bytes>)
    requires rows != [] && rows[|rows| - 1].hash == None && LastStored(rows[..|rows| - 1], prev)
    ensures LastStored(rows, prev)
  {
    var front := rows[..|rows| - 1];
    assert forall j :: 0 <= j < |front| ==> rows[j] == front[j];
    if prev.Some? {
      var i :| 0 <= i < |front| && front[i].hash == prev && forall j :: i < j < |front| ==> front[j].hash == None;
      assert rows[i].hash == prev;
    }
  }

  lemma {:induction false} TailIsLastStored(rows: seq<Row>)
    ensures LastStored(rows, TailHash(rows))
  {
    if rows != [] {
      if rows[|rows| - 1].hash.Some? {
        assert rows[|rows| - 1].hash == TailHash(rows);
      } else {
        TailIsLastStored(rows[..|rows| - 1]);
        UnhashedKeepsLast(rows, TailHash(rows));
      }
    }
  }

  /**
   * What an append does to any table: it puts one row into it and touches no other. The
   * row has the given id and the logged content, links to the last stored hash, stores
   * the digest of that content, and stands after exactly the rows before it.
   */
  lemma AppendedExactly(scheme: Scheme, rows: seq<Row>, id: nat, content: Content) returns (p: nat, r: Row)
    ensures p <= |rows| && Appended(scheme, rows, id, content) == rows[..p] + [r] + rows[p..]
    ensures r.id == id && r.content == content && LastStored(rows, r.prevHash)
    ensures r.hash == Some(ComputeHash(scheme, r.prevHash, content))
    ensures forall i :: 0 <= i < p ==>
              || rows[i].content.createdAt < content.createdAt
              || (rows[i].content.createdAt == content.createdAt && rows[i].id < id)
    ensures p < |rows| ==>
              || rows[p].content.createdAt > content.createdAt
              || (rows[p].content.createdAt == content.createdAt && rows[p].id >= id)
  {
    r := NewRow(scheme, rows, id, content);
    TailIsLastStored(rows);
    p := InsertAt(rows, r);
  }

  /** What was logged: the id and content of every row. */
  function Logged(rows: seq<Row>): seq<(nat, Content)> {
    seq(|rows|, i requires 0 <= i < |rows| => (rows[i].id, rows[i].content))
  }

  function LoggedBy(ops: seq<Op>): multiset<(nat, Content)> {
    if ops == [] then multiset{}
    else (if ops[0].Append? then multiset{(ops[0].id, ops[0].content)} else multiset{}) + LoggedBy(ops[1..])
  }

  lemma LoggedInsert(rows: seq<Row>, p: nat, r: Row)
    requires p <= |rows|
    ensures multiset(Logged(rows[..p] + [r] + rows[p..])) == multiset(Logged(rows)) + multiset{(r.id, r.content)}
  {
    assert Logged(rows[..p] + [r] + rows[p..]) == Logged(rows[..p]) + [(r.id, r.content)] + Logged(rows[p..]);
    assert Logged(rows) == Logged(rows[..p]) + Logged(rows[p..]);
  }

  lemma AppendLogs(scheme: Scheme, rows: seq<Row>, id: nat, content: Content)
    ensures multiset(Logged(Appended(scheme, rows, id, content))) == multiset(Logged(rows)) + multiset{(id, content)}
  {
    var p, r := AppendedExactly(scheme, rows, id, content);
    LoggedInsert(rows, p, r);
  }

  lemma BackfillLogsNothing(scheme: Scheme, rows: seq<Row>)
    ensures Logged(Backfilled(scheme, rows)) == Logged(rows)
  {
    FillKeepsContent(scheme, rows, TailHash(rows));
  }

  /** Over any run, from any table, the log holds what it held and what was appended, each entry as often as logged. */
  lemma {:induction false} RunLogsExactly(scheme: Scheme, rows: seq<Row>, ops: seq<Op>)
    ensures multiset(Logged(Run(scheme, rows, ops))) == multiset(Logged(rows)) + LoggedBy(ops)
    decreases |ops|
  {
    if ops != [] {
      if ops[0].Append? {
        AppendLogs(scheme, rows, ops[0].id, ops[0].content);
      } else {
        BackfillLogsNothing(scheme, rows);
      }
      RunLogsExactly(scheme, Step(scheme, rows, ops[0]), ops[1..]);
    }
  }

  /** Backfill leaves hashed rows as they are and gives every other row the digest of its link and content. */
  lemma {:induction false} FillExactly(scheme: Scheme, rows: seq<Row>, prev: Option<Bytes>, i: nat)
    requires i < |rows|
    ensures |Fill(scheme, rows, prev)| == |rows|
    ensures var r := Fill(scheme, rows, prev)[i];
            if rows[i].hash.Some? then r == rows[i]
            else r == rows[i].(prevHash := r.prevHash,
                               hash := Some(ComputeHash(scheme, r.prevHash, rows[i].content)))
    decreases |rows|
  {
    FillKeepsContent(scheme, rows, prev);
    if i > 0 {
      FillExactly(scheme, rows[1..], NextPrev(scheme, rows[0], prev), i - 1);
    }
  }

  function HashFlags(rows: seq<Row>): seq<bool> {
    seq(|rows|, i requires 0 <= i < |rows| => rows[i].hash.Some?)
  }

  /** The count that backfill returns is the number of rows without a hash. */
  lemma {:induction false} UnhashedCounts(rows: seq<Row>)
    ensures Unhashed(rows) == multiset(HashFlags(rows))[false]
  {
    if rows != [] {
      UnhashedCounts(rows[1..]);
      assert HashFlags(rows) == [rows[0].hash.Some?] + HashFlags(rows[1..]);
    }
  }

  /** The hash of the row before row i, if there is a row and it has one. */
  function HashBefore(rows: seq<Row>, i: nat): Option<Bytes>
    requires i < |rows|
  {
    if i == 0 then None else rows[i - 1].hash
  }

  /** What each reason means for row i. */
  predicate Found(scheme: Scheme, rows: seq<Row>, i: nat, reason: Reason)
    requires i < |rows|
  {
    match reason
    case FirstHasPrev => HashBefore(rows, i) == None && rows[i].prevHash.Some?
    case LinkBroken => HashBefore(rows, i).Some? && rows[i].prevHash != HashBefore(rows, i)
    case HashMismatch =>
      HashBefore(rows, i).Some? && rows[i].hash != Some(scheme.sha(Preimage(scheme, rows[i].prevHash, rows[i].content)))
  }

  lemma BreaksUpTo(scheme: Scheme, rows: seq<Row>, n: nat)
    requires n < |rows|
    ensures Breaks(scheme, None, rows[..n + 1])
         == Breaks(scheme, None, rows[..n]) + RowBreaks(scheme, HashBefore(rows, n), rows[n])
  {
    assert rows[..n + 1] == rows[..n] + [rows[n]];
    BreaksConcat(scheme, None, rows[..n], [rows[n]]);
    assert [rows[n]][1..] == [];
    assert RowBreaks(scheme, HashBefore(rows, n), rows[n]) + [] == RowBreaks(scheme, HashBefore(rows, n), rows[n]);
  }

  /** The findings about one row: each reason that applies once, the link before the hash. */
  lemma RowFindings(scheme: Scheme, rows: seq<Row>, i: nat, b: BreakPoint)
    requires i < |rows|
    ensures b in RowBreaks(scheme, HashBefore(rows, i), rows[i])
            <==> b.id == rows[i].id && Found(scheme, rows, i, b.reason)
    ensures var found := RowBreaks(scheme, HashBefore(rows, i), rows[i]);
            |found| <= 2 && (|found| == 2 ==> found[0].reason == LinkBroken && found[1].reason == HashMismatch)
  {
  }

  /** The verifier's findings about the first n rows: every reason that applies, under the row's id, and no other. */
  lemma {:induction false} FindingsExactly(scheme: Scheme, rows: seq<Row>, n: nat, b: BreakPoint)
    requires n <= |rows|
    ensures b in Breaks(scheme, None, rows[..n])
            <==> exists i: nat :: i < n && b.id == rows[i].id && Found(scheme, rows, i, b.reason)
  {
    if n > 0 {
      FindingsExactly(scheme, rows, n - 1, b);
      BreaksUpTo(scheme, rows, n - 1);
      RowFindings(scheme, rows, n - 1, b);
    }
  }

  /* ---------- tamper evidence ---------- */

  ghost predicate WellFormedRows(rows: seq<Row>) {
    forall i :: 0 <= i < |rows| ==> WellFormed(rows[i].content)
  }

  /** Number of rows after the first hashed one: the rows whose hash the verifier recomputes. */
  function Recomputed(rows: seq<Row>): (n: nat)
    ensures rows != [] ==> n < |rows|
    ensures rows == [] ==> n == 0
  {
    if FirstHashed(rows) < |rows| then |rows| - 1 - FirstHashed(rows) else 0
  }

  /** The hash the chain starts from has the length of a digest; nothing checks that it is one. */
  predicate DigestFirst(rows: seq<Row>) {
    var n := FirstHashed(rows);
    n < |rows| ==> |rows[n].hash.value| == HASH_LEN
  }

  /** A clean log ends in its tail hash. */
  lemma CleanTail(scheme: Scheme, rows: seq<Row>)
    requires Breaks(scheme, None, rows) == []
    ensures TailHash(rows) == LastHash(None, rows)
  {
    if rows != [] && rows[|rows| - 1].hash == None {
      if FirstHashed(rows) < |rows| - 1 {
        CleanLinks(scheme, rows, |rows| - 1);
      }
      TailOfPrefix(rows, 0);
    }
  }

  /** Same content and same stored hash at distance k from the end. */
  ghost predicate SameFromEnd(a: seq<Row>, b: seq<Row>, k: nat)
    requires k < |a| && k < |b|
  {
    a[|a| - 1 - k].content == b[|b| - 1 - k].content && a[|a| - 1 - k].hash == b[|b| - 1 - k].hash
  }

  /** Well-formed rows with the same encoding are the same row. */
  ghost predicate Injective(encode: Content -> Bytes) {
    forall c, d :: WellFormed(c) && WellFormed(d) && encode(c) == encode(d) ==> c == d
  }

  lemma ChainSchemeInjective(sha: Digest)
    ensures Injective(ChainScheme(sha).encode)
  {
    forall c, d | WellFormed(c) && WellFormed(d) && Canonical(c) == Canonical(d) ensures c == d {
      CanonicalInjective(c, d);
    }
  }

  lemma SplitPreimage(scheme: Scheme, p: Bytes, c: Content, q: Bytes, d: Content)
    requires Injective(scheme.encode) && |p| == |q| && WellFormed(c) && WellFormed(d)
    requires p + scheme.encode(c) == q + scheme.encode(d)
    ensures p == q && c == d
  {
    var u, v := scheme.encode(c), scheme.encode(d);
    assert p == (p + u)[..|p|] && q == (q + v)[..|p|];
    assert u == (p + u)[|p|..] && v == (q + v)[|p|..];
  }

  /** The bytes hashed for row i of a log. */
  function HashedBytes(scheme: Scheme, rows: seq<Row>, i: nat): Bytes
    requires i < |rows|
  {
    Preimage(scheme, rows[i].prevHash, rows[i].content)
  }

  /** At distance k from the end the two logs hashed different bytes to the same digest. */
  ghost predicate CollideFromEnd(scheme: Scheme, a: seq<Row>, b: seq<Row>, k: nat)
    requires k < |a| && k < |b|
  {
    var x, y := HashedBytes(scheme, a, |a| - 1 - k), HashedBytes(scheme, b, |b| - 1 - k);
    x != y && scheme.sha(x) == scheme.sha(y)
  }

  /** How far back from the end two clean logs with the same tail hash must agree. */
  function Depth(a: seq<Row>, b: seq<Row>): (d: nat)
    ensures d <= Recomputed(a) && d <= Recomputed(b)
  {
    var m := if Recomputed(a) <= Recomputed(b) then Recomputed(a) else Recomputed(b);
    if m == 0 || (DigestFirst(a) && DigestFirst(b)) then m else m - 1
  }

  ghost predicate Accepted(scheme: Scheme, rows: seq<Row>) {
    WellFormedRows(rows) && Breaks(scheme, None, rows) == []
  }

  /** Row i is linked to a predecessor whose hash has the length of a digest. */
  predicate Linked(scheme: Scheme, rows: seq<Row>, i: nat)
    requires 0 < i < |rows|
  {
    && rows[i - 1].hash.Some? && |rows[i - 1].hash.value| == HASH_LEN
    && rows[i].prevHash == rows[i - 1].hash
    && rows[i].hash == Some(scheme.sha(HashedBytes(scheme, rows, i)))
  }

  lemma CleanLinked(scheme: Scheme, rows: seq<Row>, i: nat)
    requires Breaks(scheme, None, rows) == [] && FirstHashed(rows) < i < |rows|
    requires i - 1 > FirstHashed(rows) || DigestFirst(rows)
    ensures Linked(scheme, rows, i)
  {
    CleanLinks(scheme, rows, i);
    if i - 1 > FirstHashed(rows) {
      CleanLinks(scheme, rows, i - 1);
    }
  }

  lemma DepthCommutes(a: seq<Row>, b: seq<Row>)
    ensures Depth(a, b) == Depth(b, a)
  {
  }

  lemma WithinDepth(a: seq<Row>, b: seq<Row>, k: nat)
    requires k < Depth(a, b)
    ensures FirstHashed(a) < |a| - 1 - k && (|a| - 2 - k > FirstHashed(a) || DigestFirst(a))
  {
  }

  lemma LinkedWithinDepth(scheme: Scheme, a: seq<Row>, b: seq<Row>, k: nat)
    requires Breaks(scheme, None, a) == [] && k < Depth(a, b)
    ensures k + 1 < |a| && Linked(scheme, a, |a| - 1 - k)
  {
    WithinDepth(a, b, k);
    CleanLinked(scheme, a, |a| - 1 - k);
  }

  /** Equal hashes at distance k, without a collision there, mean equal rows and equal earlier hashes. */
  ghost predicate StepsBack(scheme: Scheme, a: seq<Row>, b: seq<Row>, k: nat)
    requires k + 1 < |a| && k + 1 < |b|
  {
    a[|a| - 1 - k].hash == b[|b| - 1 - k].hash && !CollideFromEnd(scheme, a, b, k) ==>
      SameFromEnd(a, b, k) && a[|a| - 2 - k].hash == b[|b| - 2 - k].hash
  }

  /** Equal digests of linked rows come from equal rows, or from different bytes. */
  lemma LinkedAgree(scheme: Scheme, a: seq<Row>, b: seq<Row>, k: nat)
    requires Injective(scheme.encode) && WellFormedRows(a) && WellFormedRows(b) && k + 1 < |a| && k + 1 < |b|
    requires Linked(scheme, a, |a| - 1 - k) && Linked(scheme, b, |b| - 1 - k)
    ensures StepsBack(scheme, a, b, k)
  {
    var i, j := |a| - 1 - k, |b| - 1 - k;
    if HashedBytes(scheme, a, i) == HashedBytes(scheme, b, j) {
      SplitPreimage(scheme, a[i].prevHash.value, a[i].content, b[j].prevHash.value, b[j].content);
    }
  }

  /** One step towards the past: equal hashes force equal rows and equal earlier hashes, or a collision. */
  lemma BothLinked(scheme: Scheme, a: seq<Row>, b: seq<Row>, k: nat)
    requires Breaks(scheme, None, a) == [] && Breaks(scheme, None, b) == [] && k < Depth(a, b)
    ensures k + 1 < |a| && k + 1 < |b|
    ensures Linked(scheme, a, |a| - 1 - k) && Linked(scheme, b, |b| - 1 - k)
  {
    DepthCommutes(a, b);
    LinkedWithinDepth(scheme, a, b, k);
    LinkedWithinDepth(scheme, b, a, k);
  }

  lemma StepBack(scheme: Scheme, a: seq<Row>, b: seq<Row>, k: nat)
    requires Injective(scheme.encode) && Accepted(scheme, a) && Accepted(scheme, b)
    requires k < Depth(a, b)
    ensures StepsBack(scheme, a, b, k)
  {
    BothLinked(scheme, a, b, k);
    LinkedAgree(scheme, a, b, k);
  }

  /** Two rows less than n from the end exhibit a collision. */
  ghost predicate CollideWithin(scheme: Scheme, a: seq<Row>, b: seq<Row>, n: nat)
    requires n <= |a| && n <= |b|
  {
    exists k :: 0 <= k < n && CollideFromEnd(scheme, a, b, k)
  }

  ghost predicate SameWithin(a: seq<Row>, b: seq<Row>, n: nat)
    requires n <= |a| && n <= |b|
  {
    forall k :: 0 <= k < n ==> SameFromEnd(a, b, k)
  }

  /** The logs agree on their last n rows and on the hash before those, unless a collision shows up there. */
  ghost predicate Traced(scheme: Scheme, a: seq<Row>, b: seq<Row>, n: nat)
    requires n < |a| && n < |b|
  {
    CollideWithin(scheme, a, b, n) || (SameWithin(a, b, n) && a[|a| - 1 - n].hash == b[|b| - 1 - n].hash)
  }

  lemma TraceStep(scheme: Scheme, a: seq<Row>, b: seq<Row>, n: nat)
    requires n + 1 < |a| && n + 1 < |b| && Traced(scheme, a, b, n)
    requires StepsBack(scheme, a, b, n)
    ensures Traced(scheme, a, b, n + 1)
  {
    if CollideWithin(scheme, a, b, n) {
      var k :| 0 <= k < n && CollideFromEnd(scheme, a, b, k);
      assert CollideWithin(scheme, a, b, n + 1);
    }
  }

  /** Backwards induction from the shared tail hash. */
  lemma {:induction false} AgreeFromEnd(scheme: Scheme, a: seq<Row>, b: seq<Row>, n: nat)
    requires n < |a| && n < |b| && a[|a| - 1].hash == b[|b| - 1].hash
    requires forall k :: 0 <= k < n ==> StepsBack(scheme, a, b, k)
    ensures Traced(scheme, a, b, n)
  {
    if n > 0 {
      AgreeFromEnd(scheme, a, b, n - 1);
      TraceStep(scheme, a, b, n - 1);
    }
  }

  /**
   * Tamper evidence, for any two clean logs and without any assumption on the digest: if
   * they have the same tail hash, then they agree row by row from the end back to the
   * later of their two first hashed rows, or two rows at some common distance from the
   * end exhibit an explicit collision of the digest.
   */
  lemma TamperEvidence(sha: Digest, a: seq<Row>, b: seq<Row>)
    requires Accepted(ChainScheme(sha), a) && Accepted(ChainScheme(sha), b) && TailHash(a) == TailHash(b)
    ensures CollideWithin(ChainScheme(sha), a, b, Depth(a, b)) || SameWithin(a, b, Depth(a, b))
  {
    ChainSchemeInjective(sha);
    CleanTail(ChainScheme(sha), a);
    CleanTail(ChainScheme(sha), b);
    if a != [] && b != [] {
      forall k | 0 <= k < Depth(a, b) ensures StepsBack(ChainScheme(sha), a, b, k) {
        StepBack(ChainScheme(sha), a, b, k);
      }
      AgreeFromEnd(ChainScheme(sha), a, b, Depth(a, b));
    }
  }

  /* ---------- the limits of the guarantee ---------- */

  /** The first row's content can be replaced without any change in the findings. */
  lemma FirstRowUnchecked(scheme: Scheme, rows: seq<Row>, content: Content)
    requires rows != []
    ensures Breaks(scheme, None, rows[0 := rows[0].(content := content)]) == Breaks(scheme, None, rows)
  {
    assert rows[0 := rows[0].(content := content)][1..] == rows[1..];
  }

  /** Rows 0 to k rewritten: new contents throughout, no links, and no hashes but row k's own. */
  function Forged(rows: seq<Row>, contents: seq<Content>): (forged: seq<Row>)
    requires 0 < |contents| <= |rows|
    ensures |forged| == |rows|
  {
    var k := |contents| - 1;
    seq(k, i requires 0 <= i < k => Row(rows[i].id, None, None, contents[i]))
    + [Row(rows[k].id, None, rows[k].hash, contents[k])] + rows[k + 1..]
  }

  ghost predicate SameStamps(rows: seq<Row>, contents: seq<Content>)
    requires |contents| <= |rows|
  {
    forall i :: 0 <= i < |contents| ==> contents[i].createdAt == rows[i].content.createdAt
  }

  /** From the first hashed row on, a clean log is chained to what each row stores. */
  lemma ChainedAfter(scheme: Scheme, rows: seq<Row>, k: nat)
    requires Breaks(scheme, None, rows) == [] && FirstHashed(rows) <= k < |rows|
    ensures rows[k].hash.Some? && ChainedFrom(scheme, rows[k].hash, rows[k + 1..])
  {
    var n := FirstHashed(rows);
    CleanExactly(scheme, rows);
    if k > n {
      CleanLinks(scheme, rows, k);
      assert rows[n + 1..] == rows[n + 1..k + 1] + rows[k + 1..];
      ChainedConcat(scheme, rows[n].hash, rows[n + 1..k + 1], rows[k + 1..]);
    }
  }

  lemma ForgedRows(rows: seq<Row>, contents: seq<Content>)
    requires 0 < |contents| <= |rows|
    ensures var forged, k := Forged(rows, contents), |contents| - 1;
            && (forall i :: 0 <= i < k ==> forged[i] == Row(rows[i].id, None, None, contents[i]))
            && forged[k] == Row(rows[k].id, None, rows[k].hash, contents[k])
            && forall j :: k < j <= |rows| ==> forged[j..] == rows[j..]
    ensures forall i :: |contents| <= i < |rows| ==> Forged(rows, contents)[i] == rows[i]
  {
  }

  /** The first hashed row of a forged log: row k, unless the log had no hash so far. */
  lemma ForgedFirst(scheme: Scheme, rows: seq<Row>, contents: seq<Content>)
    requires Breaks(scheme, None, rows) == [] && 0 < |contents| <= |rows|
    ensures FirstHashed(Forged(rows, contents))
         == if |contents| > FirstHashed(rows) then |contents| - 1 else FirstHashed(rows)
  {
    var forged, k, n := Forged(rows, contents), |contents| - 1, FirstHashed(rows);
    ForgedRows(rows, contents);
    if k >= n {
      ChainedAfter(scheme, rows, k);
      assert forged[k].hash.Some?;
    } else {
      assert forall i :: 0 <= i < n ==> forged[i].hash == None;
      assert n < |rows| ==> forged[n] == rows[n];
    }
  }

  /** A prefix without links, then a first hashed row, then rows chained to it. */
  lemma LooksChainedAt(scheme: Scheme, rows: seq<Row>, n: nat)
    requires n == FirstHashed(rows)
    requires forall i :: 0 <= i <= n && i < |rows| ==> rows[i].prevHash == None
    requires n < |rows| ==> ChainedFrom(scheme, rows[n].hash, rows[n + 1..])
    ensures LooksChained(scheme, rows)
  {
  }

  lemma ForgedPastFirst(scheme: Scheme, rows: seq<Row>, contents: seq<Content>)
    requires Breaks(scheme, None, rows) == [] && FirstHashed(rows) < |contents| <= |rows|
    ensures LooksChained(scheme, Forged(rows, contents))
  {
    var k := |contents| - 1;
    ForgedRows(rows, contents);
    ForgedFirst(scheme, rows, contents);
    ChainedAfter(scheme, rows, k);
    LooksChainedAt(scheme, Forged(rows, contents), k);
  }

  lemma ForgedBeforeFirst(scheme: Scheme, rows: seq<Row>, contents: seq<Content>)
    requires Breaks(scheme, None, rows) == [] && 0 < |contents| <= FirstHashed(rows)
    ensures LooksChained(scheme, Forged(rows, contents))
  {
    var forged, n := Forged(rows, contents), FirstHashed(rows);
    ForgedRows(rows, contents);
    ForgedFirst(scheme, rows, contents);
    CleanExactly(scheme, rows);
    LooksChainedAt(scheme, forged, n);
  }

  lemma ForgedLooksChained(scheme: Scheme, rows: seq<Row>, contents: seq<Content>)
    requires Breaks(scheme, None, rows) == [] && 0 < |contents| <= |rows|
    ensures LooksChained(scheme, Forged(rows, contents))
  {
    if |contents| > FirstHashed(rows) {
      ForgedPastFirst(scheme, rows, contents);
    } else {
      ForgedBeforeFirst(scheme, rows, contents);
    }
  }

  /**
   * Any prefix of any clean log can be rewritten so that the verifier still finds nothing,
   * the tail hash is the same and, if the timestamps are kept, so is the table's order;
   * with a prefix as long as the log, every content is replaced.
   */
  lemma ForgedPrefixPasses(scheme: Scheme, rows: seq<Row>, contents: seq<Content>)
    requires Breaks(scheme, None, rows) == [] && 0 < |contents| <= |rows|
    ensures var forged := Forged(rows, contents);
            && Breaks(scheme, None, forged) == [] && TailHash(forged) == TailHash(rows)
            && (forall i :: 0 <= i < |contents| ==> forged[i].id == rows[i].id && forged[i].content == contents[i])
            && forged[|contents|..] == rows[|contents|..]
            && (Sorted(rows) && SameStamps(rows, contents) ==> Sorted(forged))
  {
    ForgedLooksChained(scheme, rows, contents);
    CleanExactly(scheme, Forged(rows, contents));
    ForgedRows(rows, contents);
    CleanTail(scheme, rows);
    CleanTail(scheme, Forged(rows, contents));
  }

  /** The row whose new value swallows all of `c` but its timestamp. */
  function Swallowing(c: Content): Content {
    c.(newValue := Some(Canonical(c)[..|Canonical(c)| - WORD]))
  }

  lemma Regrouped(a: Bytes, b: Bytes, u: Bytes, v: Bytes, w: Bytes, x: Bytes, y: Bytes, z: Bytes)
    ensures a + (b + (u + (v + (w + (x + (y + z)))))) == (a + (b + (u + (v + (w + x))))) + (y + z)
  {
  }

  /** Everything before the last two fields. */
  function Heading(c: Content): Bytes {
    EncOptUuid(c.ledgerId) + (c.actorId + (EncStr(c.action) + (EncStr(c.entityType) + (EncOptUuid(c.entityId)
    + EncOptJson(c.oldValue)))))
  }

  lemma CanonicalSplits(c: Content)
    ensures Canonical(c) == Heading(c) + (EncOptJson(c.newValue) + Le(c.createdAt, WORD))
  {
    Regrouped(EncOptUuid(c.ledgerId), c.actorId, EncStr(c.action), EncStr(c.entityType),
              EncOptUuid(c.entityId), EncOptJson(c.oldValue), EncOptJson(c.newValue), Le(c.createdAt, WORD));
  }

  lemma Spliced(heading: Bytes, len: Bytes, json: Bytes, stamp: Bytes, whole: Bytes)
    requires whole == json + stamp
    ensures heading + ([1] + (len + json) + stamp) == (heading + [1] + len) + whole
  {
  }

  lemma StampSplits(heading: Bytes, value: Bytes, stamp: Bytes)
    ensures var whole := heading + (value + stamp); whole == whole[..|whole| - |stamp|] + stamp
  {
  }

  /** The encoding of `c` is a suffix of the encoding of the row that swallows it. */
  lemma SwallowedIsSuffix(c: Content) returns (r: Bytes)
    ensures r != [] && Canonical(Swallowing(c)) == r + Canonical(c)
  {
    var d, whole, stamp := Swallowing(c), Canonical(c), Le(c.createdAt, WORD);
    var json := whole[..|whole| - WORD];
    CanonicalSplits(c);
    CanonicalSplits(d);
    StampSplits(Heading(c), EncOptJson(c.newValue), stamp);
    var len := Le(|json|, WORD);
    r := Heading(c) + [1] + len;
    Spliced(Heading(c), len, json, stamp, whole);
  }

  /** Two rows, the second one chained to whatever hash the first one stores. */
  function Pair(scheme: Scheme, first: Content, p: Bytes, c: Content): seq<Row> {
    [Row(0, None, Some(p), first), Row(1, Some(p), Some(ComputeHash(scheme, Some(p), c)), c)]
  }

  lemma PairIsClean(scheme: Scheme, first: Content, p: Bytes, c: Content)
    ensures Breaks(scheme, None, Pair(scheme, first, p, c)) == [] && FirstHashed(Pair(scheme, first, p, c)) == 0
  {
    var rows := Pair(scheme, first, p, c);
    assert rows[1..] == [rows[1]];
    CleanAfterHash(scheme, p, [rows[1]]);
  }

  /**
   * The digest length of the first stored hash matters: with hashes of two lengths, two
   * clean logs with the same tail hash and no collision differ in the row after the first.
   */
  lemma UnevenFirstHashes(sha: Digest, c: Content, first: Content, q: Bytes) returns (a: seq<Row>, b: seq<Row>)
    ensures Breaks(ChainScheme(sha), None, a) == [] == Breaks(ChainScheme(sha), None, b) && TailHash(a) == TailHash(b)
    ensures |a| == |b| == 2 && FirstHashed(a) == FirstHashed(b) == 0
    ensures HashedBytes(ChainScheme(sha), a, 1) == HashedBytes(ChainScheme(sha), b, 1)
    ensures a[1].content == Swallowing(c) && b[1].content == c && c != Swallowing(c)
  {
    var r := SwallowedIsSuffix(c);
    var scheme, d, p := ChainScheme(sha), Swallowing(c), q + r;
    assert c != d by { assert |Canonical(d)| > |Canonical(c)|; }
    assert q + Canonical(d) == p + Canonical(c);
    a, b := Pair(scheme, first, q, d), Pair(scheme, first, p, c);
    PairIsClean(scheme, first, q, d);
    PairIsClean(scheme, first, p, c);
  }
}
