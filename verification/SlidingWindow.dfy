/**
 * Per-token sliding-window limiter (module `rate_limit` of src/api/mod.rs).
 * Instants are integer nanoseconds and tokens are numbers.
 */
module SlidingWindow {
  const SECOND: int := 1_000_000_000
  const WINDOW: int := 60 * SECOND
  const MAX_TRACKED_TOKENS: nat := 10_000

  type Table = map<nat, seq<int>>

  datatype Verdict = Accepted | RetryAfter(seconds: nat)

  /** `duration_since`, which saturates at zero. */
  function Age(now: int, t: int): nat {
    if now >= t then now - t else 0
  }

  /** The hits that survive the eviction loop: expired ones leave from the front only. */
  function Evict(hits: seq<int>, now: int): seq<int> {
    if hits != [] && Age(now, hits[0]) >= WINDOW then Evict(hits[1..], now) else hits
  }

  function HitsOf(table: Table, token: nat): seq<int> {
    if token in table then table[token] else []
  }

  predicate Clears(table: Table, token: nat) {
    |table| >= MAX_TRACKED_TOKENS && token !in table
  }

  function RetrySeconds(hits: seq<int>, now: int): nat {
    if hits == [] then 1
    else if Age(now, hits[0]) >= WINDOW then 1
    else (WINDOW - Age(now, hits[0])) / SECOND + 1
  }

  function Checked(table: Table, token: nat, now: int, limit: nat): (Table, Verdict) {
    var kept: Table := if Clears(table, token) then map[] else table;
    var hits := Evict(HitsOf(kept, token), now);
    if |hits| >= limit then (kept[token := hits], RetryAfter(RetrySeconds(hits, now)))
    else (kept[token := hits + [now]], Accepted)
  }

  class Limiter {
    var table: Table

    constructor ()
      ensures table == map[]
    {
      table := map[];
    }

    method Check(token: nat, now: int, limit: nat) returns (v: Verdict)
      modifies this
      ensures (table, v) == Checked(old(table), token, now, limit)
    {
      if |table| >= MAX_TRACKED_TOKENS && token !in table {
        table := map[];
      }
      var hits := if token in table then table[token] else [];
      ghost var start := hits;
      while hits != [] && Age(now, hits[0]) >= WINDOW
        invariant Evict(hits, now) == Evict(start, now)
        decreases |hits|
      {
        hits := hits[1..];
      }
      if |hits| >= limit {
        table := table[token := hits];
        if hits == [] {
          v := RetryAfter(1);
        } else {
          var age := Age(now, hits[0]);
          var left := if age >= WINDOW then 0 else WINDOW - age;
          v := RetryAfter(left / SECOND + 1);
        }
        return;
      }
      table := table[token := hits + [now]];
      v := Accepted;
    }
  }

  datatype Call = Call(token: nat, now: int)

  /** The table after the calls, starting from an empty one. */
  function TableAfter(calls: seq<Call>, limit: nat): Table {
    if calls == [] then map[]
    else
      var c := calls[|calls| - 1];
      Checked(TableAfter(calls[..|calls| - 1], limit), c.token, c.now, limit).0
  }

  /** The instant of the last call if it is an accepted one of this token. */
  function LastAccepted(calls: seq<Call>, limit: nat, token: nat): seq<int>
    requires calls != []
  {
    var c := calls[|calls| - 1];
    if c.token == token && Checked(TableAfter(calls[..|calls| - 1], limit), c.token, c.now, limit).1.Accepted?
    then [c.now] else []
  }

  /** Instants of the accepted calls of one token, in order. */
  function AcceptedAt(calls: seq<Call>, limit: nat, token: nat): seq<int> {
    if calls == [] then []
    else
      AcceptedAt(calls[..|calls| - 1], limit, token) + LastAccepted(calls, limit, token)
  }

  /** Readings, in the order in which the calls got the lock, never step back by more than `drift`. */
  ghost predicate WithinDrift(calls: seq<Call>, drift: nat) {
    forall i, j :: 0 <= i <= j < |calls| ==> calls[i].now <= calls[j].now + drift
  }

  /** The last call of the run hits the capacity guard that empties the table. */
  predicate LastClears(calls: seq<Call>, limit: nat)
    requires calls != []
  {
    Clears(TableAfter(calls[..|calls| - 1], limit), calls[|calls| - 1].token)
  }

  /** Number of clears at instants from `from` up to and without `to`. */
  function ClearsIn(calls: seq<Call>, limit: nat, from: int, to: int): nat {
    if calls == [] then 0
    else
      ClearsIn(calls[..|calls| - 1], limit, from, to)
      + if LastClears(calls, limit) && from <= calls[|calls| - 1].now < to then 1 else 0
  }

  /** Instants of the calls of one token accepted since the last clear. */
  function AcceptedSince(calls: seq<Call>, limit: nat, token: nat): seq<int> {
    if calls == [] then []
    else
      (if LastClears(calls, limit) then [] else AcceptedSince(calls[..|calls| - 1], limit, token))
      + LastAccepted(calls, limit, token)
  }

  ghost predicate Until(calls: seq<Call>, now: int) {
    forall i :: 0 <= i < |calls| ==> calls[i].now <= now
  }

  /** Accepted calls that are `limit` or more apart in order are `gap` or more apart in time. */
  ghost predicate Spaced(s: seq<int>, limit: nat, gap: int) {
    forall i, j :: 0 <= i && i + limit <= j < |s| ==> s[j] - s[i] >= gap
  }

  /** Every accepted instant that is no longer stored is a full window before `now`. */
  ghost predicate Expired(hits: seq<int>, accepted: seq<int>, now: int) {
    forall i :: 0 <= i < |accepted| - |hits| ==> accepted[i] + WINDOW <= now
  }

  /** What the table remembers: the stored hits are the newest accepted instants, `limit` at most. */
  ghost predicate Remembers(hits: seq<int>, accepted: seq<int>, limit: nat, gap: int) {
    && |hits| <= |accepted| && |hits| <= limit
    && hits == accepted[|accepted| - |hits|..]
    && Spaced(accepted, limit, gap)
  }

  lemma {:induction false} EvictRemembers(hits: seq<int>, accepted: seq<int>, now: int, limit: nat, gap: int)
    requires Remembers(hits, accepted, limit, gap)
    ensures Remembers(Evict(hits, now), accepted, limit, gap)
    ensures |Evict(hits, now)| <= |hits|
    decreases |hits|
  {
    if hits != [] && Age(now, hits[0]) >= WINDOW {
      assert hits[1..] == accepted[|accepted| - |hits| + 1..];
      EvictRemembers(hits[1..], accepted, now, limit, gap);
    }
  }

  lemma {:induction false} EvictExpires(hits: seq<int>, accepted: seq<int>, now: int, bound: int)
    requires |hits| <= |accepted| && hits == accepted[|accepted| - |hits|..]
    requires Expired(hits, accepted, bound) && now <= bound
    ensures Expired(Evict(hits, now), accepted, bound)
    decreases |hits|
  {
    if hits != [] && Age(now, hits[0]) >= WINDOW {
      assert hits[0] == accepted[|accepted| - |hits|];
      assert hits[1..] == accepted[|accepted| - |hits| + 1..];
      EvictExpires(hits[1..], accepted, now, bound);
    }
  }

  lemma AcceptRemembers(hits: seq<int>, accepted: seq<int>, now: int, drift: nat, limit: nat)
    requires Remembers(hits, accepted, limit, WINDOW - drift) && |hits| < limit
    requires Expired(hits, accepted, now + drift)
    ensures Remembers(hits + [now], accepted + [now], limit, WINDOW - drift)
  {
    assert hits + [now] == (accepted + [now])[|accepted| - |hits|..];
  }

  /** The hits of `token` after one call, and that call's instant if it was one of its accepted calls. */
  lemma CallEffect(table: Table, c: Call, limit: nat, token: nat)
    requires !Clears(table, c.token)
    ensures var (table', v) := Checked(table, c.token, c.now, limit);
            var hits := Evict(HitsOf(table, token), c.now);
            HitsOf(table', token)
            == if c.token != token then HitsOf(table, token) else if v.Accepted? then hits + [c.now] else hits
    ensures Checked(table, c.token, c.now, limit).1.Accepted? <==> |Evict(HitsOf(table, c.token), c.now)| < limit
  {
  }

  /** One call, by this token or another, keeps the invariant. */
  lemma CallRemembers(table: Table, c: Call, limit: nat, token: nat, accepted: seq<int>, drift: nat, bound: int)
    requires Remembers(HitsOf(table, token), accepted, limit, WINDOW - drift) && !Clears(table, c.token)
    requires Expired(HitsOf(table, token), accepted, c.now + drift)
    requires Expired(HitsOf(table, token), accepted, bound) && c.now <= bound
    ensures var (table', v) := Checked(table, c.token, c.now, limit);
            var accepted' := accepted + if c.token == token && v.Accepted? then [c.now] else [];
            && Remembers(HitsOf(table', token), accepted', limit, WINDOW - drift)
            && Expired(HitsOf(table', token), accepted', bound)
  {
    CallEffect(table, c, limit, token);
    assert accepted + [] == accepted;
    if c.token == token {
      var hits := HitsOf(table, token);
      EvictRemembers(hits, accepted, c.now, limit, WINDOW - drift);
      EvictExpires(hits, accepted, c.now, bound);
      EvictExpires(hits, accepted, c.now, c.now + drift);
      if |Evict(hits, c.now)| < limit {
        AcceptRemembers(Evict(hits, c.now), accepted, c.now, drift, limit);
      }
    }
  }

  lemma ClearedIsFresh(table: Table, c: Call, limit: nat)
    requires Clears(table, c.token)
    ensures Checked(table, c.token, c.now, limit) == Checked(map[], c.token, c.now, limit)
    ensures !Clears(map[], c.token)
  {
  }

  /** The invariant behind the window bound, for every run, every token and every drift. */
  lemma {:induction false} RunRemembers(calls: seq<Call>, limit: nat, token: nat, drift: nat, bound: int)
    requires WithinDrift(calls, drift) && Until(calls, bound)
    ensures var hits, accepted := HitsOf(TableAfter(calls, limit), token), AcceptedSince(calls, limit, token);
            Remembers(hits, accepted, limit, WINDOW - drift) && Expired(hits, accepted, bound)
    decreases |calls|
  {
    if calls != [] {
      var front, c := calls[..|calls| - 1], calls[|calls| - 1];
      var table := TableAfter(front, limit);
      if Clears(table, c.token) {
        ClearedIsFresh(table, c, limit);
        CallRemembers(map[], c, limit, token, [], drift, bound);
      } else {
        RunRemembers(front, limit, token, drift, c.now + drift);
        RunRemembers(front, limit, token, drift, bound);
        CallRemembers(table, c, limit, token, AcceptedSince(front, limit, token), drift, bound);
      }
    }
  }

  /** Number of instants from `from` up to and without `to`. */
  function CountIn(s: seq<int>, from: int, to: int): nat {
    if s == [] then 0
    else CountIn(s[..|s| - 1], from, to) + if from <= s[|s| - 1] < to then 1 else 0
  }

  lemma {:induction false} CountBelow(s: seq<int>, from: int, to: int)
    requires forall i :: 0 <= i < |s| ==> s[i] < from
    ensures CountIn(s, from, to) == 0
  {
    if s != [] { CountBelow(s[..|s| - 1], from, to); }
  }

  lemma {:induction false} CountTail(s: seq<int>, from: int, to: int, k: nat)
    requires k <= |s|
    ensures CountIn(s, from, to) <= CountIn(s[..|s| - k], from, to) + k
    decreases k
  {
    if k == 0 {
      assert s[..|s|] == s;
    } else {
      var front := s[..|s| - 1];
      CountTail(front, from, to, k - 1);
      assert front[..|front| - (k - 1)] == s[..|s| - k];
    }
  }

  lemma {:induction false} SpacedCount(s: seq<int>, limit: nat, gap: int, from: int)
    requires Spaced(s, limit, gap)
    ensures CountIn(s, from, from + gap) <= limit
  {
    if s != [] {
      var last := s[|s| - 1];
      if last < from || last >= from + gap {
        SpacedCount(s[..|s| - 1], limit, gap, from);
      } else if |s| <= limit {
        CountTail(s, from, from + gap, |s|);
      } else {
        CountTail(s, from, from + gap, limit);
        forall i | 0 <= i < |s| - limit ensures s[i] < from {
          assert i + limit <= |s| - 1;
        }
        CountBelow(s[..|s| - limit], from, from + gap);
      }
    }
  }

  lemma {:induction false} CountConcat(s: seq<int>, t: seq<int>, from: int, to: int)
    ensures CountIn(s + t, from, to) == CountIn(s, from, to) + CountIn(t, from, to)
  {
    if t == [] {
      assert s + t == s;
    } else {
      assert (s + t)[..|s + t| - 1] == s + t[..|t| - 1];
      CountConcat(s, t[..|t| - 1], from, to);
    }
  }

  lemma {:induction false} SomeBound(calls: seq<Call>) returns (bound: int)
    ensures Until(calls, bound)
  {
    if calls == [] {
      bound := 0;
    } else {
      bound := SomeBound(calls[..|calls| - 1]);
      if bound < calls[|calls| - 1].now { bound := calls[|calls| - 1].now; }
    }
  }

  lemma SinceSpaced(calls: seq<Call>, limit: nat, token: nat, drift: nat)
    requires WithinDrift(calls, drift)
    ensures Spaced(AcceptedSince(calls, limit, token), limit, WINDOW - drift)
  {
    var bound := SomeBound(calls);
    RunRemembers(calls, limit, token, drift, bound);
  }

  lemma SinceCount(calls: seq<Call>, limit: nat, token: nat, drift: nat, from: int)
    requires WithinDrift(calls, drift)
    ensures CountIn(AcceptedSince(calls, limit, token), from, from + WINDOW - drift) <= limit
  {
    SinceSpaced(calls, limit, token, drift);
    SpacedCount(AcceptedSince(calls, limit, token), limit, WINDOW - drift, from);
  }

  /** Multiplication by repeated addition. */
  function Times(k: nat, n: nat): nat {
    if n == 0 then 0 else Times(k, n - 1) + k
  }

  lemma {:induction false} TimesMultiplies(k: nat, n: nat)
    ensures Times(k, n) == k * n
  {
    if n > 0 { TimesMultiplies(k, n - 1); }
  }

  lemma TimesBound(k: nat, n: nat, count: nat)
    requires count <= Times(k, n) + k
    ensures count <= k * (1 + n)
  {
    TimesMultiplies(k, n + 1);
  }

  /** What one call means for a token: when it came, whether it was an accepted call of it, and a clear. */
  datatype Mark = Mark(now: int, hit: bool, clear: bool)

  function Marks(calls: seq<Call>, limit: nat, token: nat): (marks: seq<Mark>)
    ensures |marks| == |calls|
  {
    if calls == [] then []
    else
      Marks(calls[..|calls| - 1], limit, token)
      + [Mark(calls[|calls| - 1].now, LastAccepted(calls, limit, token) != [], LastClears(calls, limit))]
  }

  predicate Inside(t: int, from: int, to: int) {
    from <= t < to
  }

  function HitsIn(marks: seq<Mark>, from: int, to: int): nat {
    if marks == [] then 0
    else
      var m := marks[|marks| - 1];
      HitsIn(marks[..|marks| - 1], from, to) + if m.hit && Inside(m.now, from, to) then 1 else 0
  }

  /** Hits in the stretch since the last clear. */
  function HitsSince(marks: seq<Mark>, from: int, to: int): nat {
    if marks == [] then 0
    else
      var m := marks[|marks| - 1];
      (if m.clear then 0 else HitsSince(marks[..|marks| - 1], from, to))
      + if m.hit && Inside(m.now, from, to) then 1 else 0
  }

  function ClearMarks(marks: seq<Mark>, from: int, to: int): nat {
    if marks == [] then 0
    else
      var m := marks[|marks| - 1];
      ClearMarks(marks[..|marks| - 1], from, to) + if m.clear && Inside(m.now, from, to) then 1 else 0
  }

  lemma CountOne(calls: seq<Call>, limit: nat, token: nat, from: int, to: int)
    requires calls != []
    ensures CountIn(LastAccepted(calls, limit, token), from, to)
         == if LastAccepted(calls, limit, token) != [] && Inside(calls[|calls| - 1].now, from, to) then 1 else 0
  {
    var last := LastAccepted(calls, limit, token);
    if last != [] { assert last[..0] == []; }
  }

  lemma LastMarkCounts(calls: seq<Call>, limit: nat, token: nat, from: int, to: int)
    requires calls != []
    ensures var m := Marks(calls, limit, token)[|calls| - 1];
            && CountIn(LastAccepted(calls, limit, token), from, to)
               == (if m.hit && Inside(m.now, from, to) then 1 else 0)
            && (m.clear <==> LastClears(calls, limit))
  {
    CountOne(calls, limit, token, from, to);
  }

  lemma MarksFront(calls: seq<Call>, limit: nat, token: nat)
    requires calls != []
    ensures Marks(calls, limit, token)[..|calls| - 1] == Marks(calls[..|calls| - 1], limit, token)
  {
  }

  lemma {:induction false} MarksHits(calls: seq<Call>, limit: nat, token: nat, from: int, to: int)
    ensures HitsIn(Marks(calls, limit, token), from, to) == CountIn(AcceptedAt(calls, limit, token), from, to)
  {
    if calls != [] {
      var front := calls[..|calls| - 1];
      MarksHits(front, limit, token, from, to);
      MarksFront(calls, limit, token);
      LastMarkCounts(calls, limit, token, from, to);
      CountConcat(AcceptedAt(front, limit, token), LastAccepted(calls, limit, token), from, to);
    }
  }

  lemma SinceStep(calls: seq<Call>, limit: nat, token: nat, from: int, to: int)
    requires calls != []
    ensures CountIn(AcceptedSince(calls, limit, token), from, to)
         == (if LastClears(calls, limit) then 0
             else CountIn(AcceptedSince(calls[..|calls| - 1], limit, token), from, to))
            + CountIn(LastAccepted(calls, limit, token), from, to)
  {
    var since := if LastClears(calls, limit) then [] else AcceptedSince(calls[..|calls| - 1], limit, token);
    CountConcat(since, LastAccepted(calls, limit, token), from, to);
  }

  lemma MarksStep(marks: seq<Mark>, front: seq<Mark>, from: int, to: int)
    requires marks != [] && marks[..|marks| - 1] == front
    ensures var m := marks[|marks| - 1];
            HitsSince(marks, from, to)
            == (if m.clear then 0 else HitsSince(front, from, to)) + if m.hit && Inside(m.now, from, to) then 1 else 0
  {
  }

  lemma {:induction false} MarksSince(calls: seq<Call>, limit: nat, token: nat, from: int, to: int)
    ensures HitsSince(Marks(calls, limit, token), from, to) == CountIn(AcceptedSince(calls, limit, token), from, to)
  {
    if calls != [] {
      var front := calls[..|calls| - 1];
      MarksSince(front, limit, token, from, to);
      MarksFront(calls, limit, token);
      MarksStep(Marks(calls, limit, token), Marks(front, limit, token), from, to);
      LastMarkCounts(calls, limit, token, from, to);
      SinceStep(calls, limit, token, from, to);
    }
  }

  lemma {:induction false} MarksClears(calls: seq<Call>, limit: nat, token: nat, from: int, to: int)
    ensures ClearMarks(Marks(calls, limit, token), from, to) == ClearsIn(calls, limit, from, to)
  {
    if calls != [] {
      MarksClears(calls[..|calls| - 1], limit, token, from, to);
      MarksFront(calls, limit, token);
    }
  }

  lemma {:induction false} MarksPrefix(calls: seq<Call>, limit: nat, token: nat, n: nat)
    requires n <= |calls|
    ensures Marks(calls, limit, token)[..n] == Marks(calls[..n], limit, token)
  {
    if n < |calls| {
      var front := calls[..|calls| - 1];
      MarksPrefix(front, limit, token, n);
      assert front[..n] == calls[..n];
      assert Marks(calls, limit, token)[..n] == Marks(front, limit, token)[..n];
    } else {
      assert calls[..n] == calls;
    }
  }

  lemma {:induction false} MarksInstants(calls: seq<Call>, limit: nat, token: nat)
    ensures forall i :: 0 <= i < |calls| ==> Marks(calls, limit, token)[i].now == calls[i].now
  {
    if calls != [] {
      MarksInstants(calls[..|calls| - 1], limit, token);
    }
  }

  ghost predicate MarksUntil(marks: seq<Mark>, now: int) {
    forall i :: 0 <= i < |marks| ==> marks[i].now <= now
  }

  /** Marks no more than `drift` out of order, with `limit` hits at most in the stretch between clears. */
  ghost predicate Disciplined(marks: seq<Mark>, limit: nat, drift: nat, from: int) {
    && (forall i, j :: 0 <= i <= j < |marks| ==> marks[i].now <= marks[j].now + drift)
    && (forall n: nat :: n <= |marks| ==> HitsSince(marks[..n], from, from + WINDOW - drift) <= limit)
  }

  lemma DisciplinedFront(marks: seq<Mark>, limit: nat, drift: nat, from: int)
    requires marks != [] && Disciplined(marks, limit, drift, from)
    ensures Disciplined(marks[..|marks| - 1], limit, drift, from)
    ensures HitsSince(marks[..|marks| - 1], from, from + WINDOW - drift) <= limit
  {
    var front := marks[..|marks| - 1];
    forall n: nat | n <= |front| ensures HitsSince(front[..n], from, from + WINDOW - drift) <= limit {
      assert front[..n] == marks[..n];
    }
  }

  lemma {:induction false} NoHitsYet(marks: seq<Mark>, now: int, from: int, to: int)
    requires MarksUntil(marks, now) && now < from
    ensures HitsIn(marks, from, to) == 0
  {
    if marks != [] { NoHitsYet(marks[..|marks| - 1], now, from, to); }
  }

  /**
   * Up to the last moment of a window, every clear in it has let at most `limit` earlier
   * hits drop out of memory; clears that lie `drift` before the stretch count as well.
   */
  lemma {:induction false} HitsWithinClears(marks: seq<Mark>, limit: nat, drift: nat, from: int)
    requires Disciplined(marks, limit, drift, from) && MarksUntil(marks, from + WINDOW - 1)
    ensures HitsIn(marks, from, from + WINDOW - drift)
         <= Times(limit, ClearMarks(marks, from - drift, from + WINDOW))
            + HitsSince(marks, from, from + WINDOW - drift)
    decreases |marks|
  {
    if marks != [] {
      var front, m := marks[..|marks| - 1], marks[|marks| - 1];
      DisciplinedFront(marks, limit, drift, from);
      HitsWithinClears(front, limit, drift, from);
      if m.clear && m.now < from - drift {
        assert forall i :: 0 <= i < |front| ==> front[i] == marks[i];
        NoHitsYet(front, m.now + drift, from, from + WINDOW - drift);
      }
    }
  }

  lemma {:induction false} HitsBound(marks: seq<Mark>, limit: nat, drift: nat, from: int)
    requires Disciplined(marks, limit, drift, from)
    ensures HitsIn(marks, from, from + WINDOW - drift)
         <= Times(limit, ClearMarks(marks, from - drift, from + WINDOW)) + limit
    decreases |marks|
  {
    if marks != [] && marks[|marks| - 1].now >= from + WINDOW - drift {
      DisciplinedFront(marks, limit, drift, from);
      HitsBound(marks[..|marks| - 1], limit, drift, from);
    } else {
      HitsWithinClears(marks, limit, drift, from);
      assert marks[..|marks|] == marks;
    }
  }

  lemma MarksSinceBound(calls: seq<Call>, limit: nat, token: nat, drift: nat, from: int)
    requires WithinDrift(calls, drift)
    ensures HitsSince(Marks(calls, limit, token), from, from + WINDOW - drift) <= limit
  {
    MarksSince(calls, limit, token, from, from + WINDOW - drift);
    SinceCount(calls, limit, token, drift, from);
  }

  lemma DriftPrefix(calls: seq<Call>, drift: nat, n: nat)
    requires WithinDrift(calls, drift) && n <= |calls|
    ensures WithinDrift(calls[..n], drift)
  {
  }

  lemma PrefixSince(calls: seq<Call>, limit: nat, token: nat, drift: nat, from: int, n: nat)
    requires WithinDrift(calls, drift) && n <= |calls|
    ensures HitsSince(Marks(calls, limit, token)[..n], from, from + WINDOW - drift) <= limit
  {
    MarksPrefix(calls, limit, token, n);
    DriftPrefix(calls, drift, n);
    MarksSinceBound(calls[..n], limit, token, drift, from);
  }

  lemma RunDisciplined(calls: seq<Call>, marks: seq<Mark>, limit: nat, token: nat, drift: nat, from: int)
    requires WithinDrift(calls, drift) && |marks| == |calls|
    requires forall i :: 0 <= i < |calls| ==> marks[i].now == calls[i].now
    requires forall n: nat :: n <= |marks| ==> HitsSince(marks[..n], from, from + WINDOW - drift) <= limit
    ensures Disciplined(marks, limit, drift, from)
  {
  }

  lemma BoundInTimes(calls: seq<Call>, limit: nat, token: nat, drift: nat, from: int)
    requires WithinDrift(calls, drift)
    ensures var marks := Marks(calls, limit, token);
            HitsIn(marks, from, from + WINDOW - drift)
            <= Times(limit, ClearMarks(marks, from - drift, from + WINDOW)) + limit
  {
    var marks := Marks(calls, limit, token);
    MarksInstants(calls, limit, token);
    forall n: nat | n <= |marks| ensures HitsSince(marks[..n], from, from + WINDOW - drift) <= limit {
      PrefixSince(calls, limit, token, drift, from, n);
    }
    RunDisciplined(calls, marks, limit, token, drift, from);
    HitsBound(marks, limit, drift, from);
  }

  lemma BoundCounted(calls: seq<Call>, limit: nat, token: nat, drift: nat, from: int)
    requires WithinDrift(calls, drift)
    ensures CountIn(AcceptedAt(calls, limit, token), from, from + WINDOW - drift)
         <= Times(limit, ClearsIn(calls, limit, from - drift, from + WINDOW)) + limit
  {
    BoundInTimes(calls, limit, token, drift, from);
    MarksHits(calls, limit, token, from, from + WINDOW - drift);
    MarksClears(calls, limit, token, from - drift, from + WINDOW);
  }

  /**
   * The bound over every run, with capacity clears and with readings that reach the lock
   * out of order: if they never step back by more than `drift`, at most `limit` calls of
   * one token are accepted in any stretch of 60 seconds less the drift, and at most
   * `limit` more for every clear within the drift of that stretch. With no drift this is
   * the plain 60-second window.
   */
  lemma WindowBound(calls: seq<Call>, limit: nat, token: nat, drift: nat, from: int)
    requires WithinDrift(calls, drift)
    ensures CountIn(AcceptedAt(calls, limit, token), from, from + WINDOW - drift)
         <= limit * (1 + ClearsIn(calls, limit, from - drift, from + WINDOW))
  {
    BoundCounted(calls, limit, token, drift, from);
    TimesBound(limit, ClearsIn(calls, limit, from - drift, from + WINDOW),
               CountIn(AcceptedAt(calls, limit, token), from, from + WINDOW - drift));
  }

  /** The table after further calls, none of them by `token`, from an arbitrary table. */
  function TableFrom(table: Table, calls: seq<Call>, limit: nat): Table
    decreases |calls|
  {
    if calls == [] then table
    else TableFrom(Checked(table, calls[0].token, calls[0].now, limit).0, calls[1..], limit)
  }

  lemma {:induction false} OthersLeaveHits(table: Table, calls: seq<Call>, limit: nat, token: nat)
    requires forall i :: 0 <= i < |calls| ==> calls[i].token != token
    ensures var after := TableFrom(table, calls, limit);
            HitsOf(after, token) == HitsOf(table, token) || HitsOf(after, token) == []
    decreases |calls|
  {
    if calls != [] {
      OthersLeaveHits(Checked(table, calls[0].token, calls[0].now, limit).0, calls[1..], limit, token);
    }
  }

  lemma {:induction false} EvictShape(hits: seq<int>, now: int)
    ensures |Evict(hits, now)| <= |hits|
    ensures Evict(hits, now) != [] ==> Age(now, Evict(hits, now)[0]) < WINDOW
    ensures hits != [] ==> (|Evict(hits, now)| < |hits| <==> Age(now, hits[0]) >= WINDOW)
    decreases |hits|
  {
    if hits != [] && Age(now, hits[0]) >= WINDOW {
      EvictShape(hits[1..], now);
    }
  }

  lemma {:induction false} SinceUntil(calls: seq<Call>, limit: nat, token: nat, now: int)
    requires Until(calls, now)
    ensures forall i :: 0 <= i < |AcceptedSince(calls, limit, token)| ==> AcceptedSince(calls, limit, token)[i] <= now
  {
    if calls != [] { SinceUntil(calls[..|calls| - 1], limit, token, now); }
  }

  lemma StoredHitsLive(table: Table, token: nat, accepted: seq<int>, now: int, bound: int, limit: nat, gap: int)
    requires Remembers(HitsOf(table, token), accepted, limit, gap)
    requires forall i :: 0 <= i < |accepted| ==> accepted[i] <= bound
    ensures var hits := Evict(HitsOf(table, token), now);
            |hits| <= limit && (hits != [] ==> hits[0] <= bound && Age(now, hits[0]) < WINDOW)
  {
    EvictRemembers(HitsOf(table, token), accepted, now, limit, gap);
    EvictShape(HitsOf(table, token), now);
    var hits := Evict(HitsOf(table, token), now);
    if hits != [] {
      assert hits[0] == accepted[|accepted| - |hits|];
    }
  }

  lemma ReachedHitsLive(calls: seq<Call>, token: nat, now: int, drift: nat, limit: nat)
    requires WithinDrift(calls, drift) && Until(calls, now + drift)
    ensures var hits := Evict(HitsOf(TableAfter(calls, limit), token), now);
            |hits| <= limit && (hits != [] ==> hits[0] <= now + drift && Age(now, hits[0]) < WINDOW)
  {
    RunRemembers(calls, limit, token, drift, now + drift);
    SinceUntil(calls, limit, token, now + drift);
    StoredHitsLive(TableAfter(calls, limit), token, AcceptedSince(calls, limit, token), now, now + drift, limit,
                   WINDOW - drift);
  }

  /** A refusal leaves the evicted hits in the table, and there are `limit` of them or more. */
  lemma RefusedLeaves(table: Table, token: nat, now: int, limit: nat)
    requires Checked(table, token, now, limit).1.RetryAfter?
    ensures var (refused, v) := Checked(table, token, now, limit);
            var hits := if Clears(table, token) then [] else Evict(HitsOf(table, token), now);
            HitsOf(refused, token) == hits && |hits| >= limit && v.seconds == RetrySeconds(hits, now)
  {
  }

  /**
   * What a refusal in a reachable table means: exactly `limit` hits are stored, the oldest
   * is live, and it is no further ahead of this reading than the drift.
   */
  lemma RefusedIsFull(calls: seq<Call>, token: nat, now: int, drift: nat, limit: nat)
    requires WithinDrift(calls, drift) && Until(calls, now + drift)
    requires Checked(TableAfter(calls, limit), token, now, limit).1.RetryAfter?
    ensures var (refused, v) := Checked(TableAfter(calls, limit), token, now, limit);
            var hits := HitsOf(refused, token);
            && |hits| == limit && v.seconds == RetrySeconds(hits, now)
            && (hits != [] ==> hits[0] <= now + drift && Age(now, hits[0]) < WINDOW)
  {
    RefusedLeaves(TableAfter(calls, limit), token, now, limit);
    ReachedHitsLive(calls, token, now, drift, limit);
  }

  /** The returned delay reaches past the moment the oldest hit expires, unless that hit is over a second ahead. */
  lemma DelayCoversExpiry(hits: seq<int>, now: int)
    requires hits != [] && Age(now, hits[0]) < WINDOW
    ensures now + RetrySeconds(hits, now) * SECOND >= hits[0] + WINDOW <==> hits[0] <= now + SECOND
  {
    var left := WINDOW - Age(now, hits[0]);
    assert left == left / SECOND * SECOND + left % SECOND;
  }

  lemma SecondsBracket(left: int)
    requires 0 < left <= WINDOW
    ensures var s := left / SECOND + 1; 1 <= s <= 61 && (s - 1) * SECOND <= left < s * SECOND
    ensures WINDOW / SECOND + 1 == 61
  {
    assert left == left / SECOND * SECOND + left % SECOND;
  }

  /**
   * How long a refused token is told to wait, in every reachable state: the whole seconds
   * until its oldest stored hit expires, plus one, so the delay ends within a second after
   * that; always between 1 and 61, and 1 when the limit is zero. The bounds on the delay
   * need the hit not to be ahead of this reading; one that is ahead gives 61.
   */
  lemma RetryDelayExactly(calls: seq<Call>, token: nat, now: int, drift: nat, limit: nat)
    requires WithinDrift(calls, drift) && Until(calls, now + drift)
    requires Checked(TableAfter(calls, limit), token, now, limit).1.RetryAfter?
    ensures var (refused, v) := Checked(TableAfter(calls, limit), token, now, limit);
            var hits := HitsOf(refused, token);
            && |hits| == limit && 1 <= v.seconds <= 61 && (limit == 0 ==> v.seconds == 1)
            && (hits != [] && hits[0] <= now ==>
                  (v.seconds - 1) * SECOND <= hits[0] + WINDOW - now < v.seconds * SECOND)
            && (hits != [] && hits[0] > now ==> v.seconds == 61)
  {
    RefusedIsFull(calls, token, now, drift, limit);
    var hits := HitsOf(Checked(TableAfter(calls, limit), token, now, limit).0, token);
    if hits != [] {
      SecondsBracket(WINDOW - Age(now, hits[0]));
    }
  }

  /** With exactly `limit` hits stored, the next call gets in exactly when the oldest has expired. */
  lemma AcceptedOnExpiry(table: Table, token: nat, later: int, limit: nat)
    requires limit > 0 && !Clears(table, token) && |HitsOf(table, token)| == limit
    ensures Checked(table, token, later, limit).1.Accepted? <==> later >= HitsOf(table, token)[0] + WINDOW
  {
    EvictShape(HitsOf(table, token), later);
  }

  lemma AcceptedWhenEmpty(table: Table, token: nat, later: int, limit: nat)
    requires Clears(table, token) || HitsOf(table, token) == []
    ensures Checked(table, token, later, limit).1.Accepted? <==> limit > 0
  {
    assert Evict([], later) == [];
  }

  /**
   * A refused token that stays silent for the returned number of seconds is accepted next
   * exactly when its limit is not zero, whatever other tokens do meanwhile, even a capacity
   * clear, provided readings step back by a second at most. Without a clear it is
   * accepted exactly when the oldest stored hit expires.
   */
  lemma RetryHonoured(calls: seq<Call>, token: nat, now: int, others: seq<Call>, later: int, drift: nat, limit: nat)
    requires WithinDrift(calls, drift) && Until(calls, now + drift) && drift <= SECOND
    requires forall i :: 0 <= i < |others| ==> others[i].token != token
    requires Checked(TableAfter(calls, limit), token, now, limit).1.RetryAfter?
    ensures var (refused, v) := Checked(TableAfter(calls, limit), token, now, limit);
            var next, hits := TableFrom(refused, others, limit), HitsOf(refused, token);
            && (later >= now + v.seconds * SECOND ==>
                  (Checked(next, token, later, limit).1.Accepted? <==> limit > 0))
            && (hits != [] && HitsOf(next, token) == hits && !Clears(next, token) ==>
                  (Checked(next, token, later, limit).1.Accepted? <==> later >= hits[0] + WINDOW))
  {
    RefusedIsFull(calls, token, now, drift, limit);
    var (refused, v) := Checked(TableAfter(calls, limit), token, now, limit);
    OthersLeaveHits(refused, others, limit, token);
    var next, hits := TableFrom(refused, others, limit), HitsOf(refused, token);
    if hits != [] {
      DelayCoversExpiry(hits, now);
    }
    if Clears(next, token) || HitsOf(next, token) == [] {
      AcceptedWhenEmpty(next, token, later, limit);
    } else {
      AcceptedOnExpiry(next, token, later, limit);
    }
  }

  /* ---------- the bound is reached ---------- */

  function Fold<S>(f: (S, Call) -> S, s: S, calls: seq<Call>): S
    decreases |calls|
  {
    if calls == [] then s else Fold(f, f(s, calls[0]), calls[1..])
  }

  lemma {:induction false} FoldConcat<S>(f: (S, Call) -> S, s: S, a: seq<Call>, b: seq<Call>)
    ensures Fold(f, s, a + b) == Fold(f, Fold(f, s, a), b)
    decreases |a|
  {
    if a == [] {
      assert a + b == b;
    } else {
      assert (a + b)[1..] == a[1..] + b;
      FoldConcat(f, f(s, a[0]), a[1..], b);
    }
  }

  lemma FoldOne<S>(f: (S, Call) -> S, s: S, c: Call)
    ensures Fold(f, s, [c]) == f(s, c)
  {
    assert [c][1..] == [];
  }

  /** What every call carries over holds at the end. */
  lemma {:induction false} FoldKeeps<S(!new)>(f: (S, Call) -> S, s: S, calls: seq<Call>, p: (S, nat) -> bool)
    requires p(s, 0) && forall t, i: nat :: i < |calls| && p(t, i) ==> p(f(t, calls[i]), i + 1)
    ensures p(Fold(f, s, calls), |calls|)
    decreases |calls|
  {
    if calls != [] {
      var n := |calls| - 1;
      FoldKeeps(f, s, calls[..n], p);
      assert calls == calls[..n] + [calls[n]];
      FoldConcat(f, s, calls[..n], [calls[n]]);
      FoldOne(f, Fold(f, s, calls[..n]), calls[n]);
    }
  }

  /** What is watched of a run: the table, one token's accepted calls, and the clears in one window. */
  datatype Watch = Watch(table: Table, accepted: seq<int>, clears: nat)

  datatype Subject = Subject(limit: nat, token: nat, from: int, to: int)

  function Observe(w: Watch, c: Call, x: Subject): Watch {
    var (table, v) := Checked(w.table, c.token, c.now, x.limit);
    Watch(table,
          w.accepted + (if c.token == x.token && v.Accepted? then [c.now] else []),
          w.clears + if Clears(w.table, c.token) && x.from <= c.now < x.to then 1 else 0)
  }

  function Watcher(x: Subject): (Watch, Call) -> Watch {
    (w, c) => Observe(w, c, x)
  }

  function Watched(w: Watch, calls: seq<Call>, x: Subject): Watch {
    Fold(Watcher(x), w, calls)
  }

  function Outcome(calls: seq<Call>, x: Subject): Watch {
    Watch(TableAfter(calls, x.limit), AcceptedAt(calls, x.limit, x.token), ClearsIn(calls, x.limit, x.from, x.to))
  }

  lemma OutcomeStep(calls: seq<Call>, c: Call, x: Subject)
    ensures Outcome(calls + [c], x) == Observe(Outcome(calls, x), c, x)
  {
    assert (calls + [c])[..|calls|] == calls;
  }

  lemma OutcomeOf(calls: seq<Call>, more: seq<Call>, i: nat, x: Subject)
    requires i < |more|
    ensures Outcome(calls + more[..i + 1], x) == Observe(Outcome(calls + more[..i], x), more[i], x)
  {
    assert calls + more[..i + 1] == calls + more[..i] + [more[i]];
    OutcomeStep(calls + more[..i], more[i], x);
  }

  /** Watching a run call by call, from where another run ended. */
  lemma WatchedFrom(calls: seq<Call>, more: seq<Call>, x: Subject)
    ensures Outcome(calls + more, x) == Watched(Outcome(calls, x), more, x)
  {
    var p := (w: Watch, i: nat) => i <= |more| && w == Outcome(calls + more[..i], x);
    assert calls + more[..0] == calls && calls + more[..|more|] == calls + more;
    forall w, i: nat | i < |more| && p(w, i) ensures p(Watcher(x)(w, more[i]), i + 1) {
      OutcomeOf(calls, more, i, x);
    }
    FoldKeeps(Watcher(x), Outcome(calls, x), more, p);
  }

  function Same(n: nat, t: int): seq<int> {
    seq(n, _ => t)
  }

  function Repeated(c: Call, n: nat): seq<Call> {
    seq(n, _ => c)
  }

  /** What n calls in a row make of a token with no hit stored. */
  function Burst(w: Watch, now: int, n: nat, x: Subject): Watch {
    w.(table := if n == 0 then w.table else w.table[x.token := Same(n, now)], accepted := w.accepted + Same(n, now))
  }

  lemma BurstStep(start: Table, token: nat, now: int, n: nat, limit: nat)
    requires n < limit && token !in start && |start| < MAX_TRACKED_TOKENS
    ensures var table := if n == 0 then start else start[token := Same(n, now)];
            && !Clears(table, token)
            && Checked(table, token, now, limit) == (start[token := Same(n + 1, now)], Accepted)
  {
    var hits := Same(n, now);
    assert Evict(hits, now) == hits;
    assert hits + [now] == Same(n + 1, now);
    assert n > 0 ==> start[token := hits][token := hits + [now]] == start[token := hits + [now]];
  }

  lemma BurstObserved(w: Watch, now: int, n: nat, x: Subject)
    requires n < x.limit && x.token !in w.table && |w.table| < MAX_TRACKED_TOKENS
    ensures Observe(Burst(w, now, n, x), Call(x.token, now), x) == Burst(w, now, n + 1, x)
  {
    BurstStep(w.table, x.token, now, n, x.limit);
    assert w.accepted + Same(n, now) + [now] == w.accepted + Same(n + 1, now);
  }

  /** A token with no hit stored gets `limit` calls in at once, and needs no clear if there is room for it. */
  lemma BurstAccepted(w: Watch, now: int, n: nat, x: Subject)
    requires n <= x.limit && x.token !in w.table && |w.table| < MAX_TRACKED_TOKENS
    ensures Watched(w, Repeated(Call(x.token, now), n), x) == Burst(w, now, n, x)
  {
    var calls := Repeated(Call(x.token, now), n);
    var p := (v: Watch, i: nat) => v == Burst(w, now, i, x);
    assert w.accepted + Same(0, now) == w.accepted;
    forall v, i: nat | i < |calls| && p(v, i) ensures p(Watcher(x)(v, calls[i]), i + 1) {
      BurstObserved(w, now, i, x);
    }
    FoldKeeps(Watcher(x), w, calls, p);
  }

  /** Calls of the tokens 1, 2, ..., n at one instant. */
  function OneCallEach(n: nat, now: int): seq<Call> {
    seq(n, i requires 0 <= i => Call(i + 1, now))
  }

  function UpTo(n: nat): set<nat> {
    if n == 0 then {0} else UpTo(n - 1) + {n}
  }

  lemma {:induction false} UpToSize(n: nat)
    ensures |UpTo(n)| == n + 1 && forall i: nat :: i in UpTo(n) <==> i <= n
  {
    if n > 0 { UpToSize(n - 1); }
  }

  lemma KeysSize(table: Table, n: nat, newcomer: nat)
    requires newcomer > n && table.Keys == UpTo(n) + {newcomer}
    ensures |table| == n + 2
  {
    UpToSize(n);
    assert |table| == |table.Keys|;
  }

  /** Only the table differs, and it holds the newcomer and the tokens up to i. */
  predicate FilledTo(w: Watch, v: Watch, newcomer: nat, i: nat) {
    v.table.Keys == UpTo(i) + {newcomer} && v.accepted == w.accepted && v.clears == w.clears
  }

  lemma AddsKey(table: Table, token: nat, now: int, limit: nat)
    requires !Clears(table, token)
    ensures Checked(table, token, now, limit).0.Keys == table.Keys + {token}
  {
  }

  lemma FillObserved(w: Watch, v: Watch, newcomer: nat, n: nat, now: int, x: Subject)
    requires x.token == 0 && 0 < n && n + 2 <= MAX_TRACKED_TOKENS <= newcomer && FilledTo(w, v, newcomer, n - 1)
    ensures FilledTo(w, Observe(v, Call(n, now), x), newcomer, n)
  {
    KeysSize(v.table, n - 1, newcomer);
    AddsKey(v.table, n, now, x.limit);
    assert v.accepted + [] == v.accepted;
  }

  /** Tokens other than the watched one fill the table and change nothing else. */
  lemma Filled(w: Watch, newcomer: nat, n: nat, now: int, x: Subject)
    requires x.token == 0 && n + 2 <= MAX_TRACKED_TOKENS <= newcomer && w.table.Keys == UpTo(0) + {newcomer}
    ensures FilledTo(w, Watched(w, OneCallEach(n, now), x), newcomer, n)
  {
    var calls := OneCallEach(n, now);
    var p := (v: Watch, i: nat) => FilledTo(w, v, newcomer, i);
    forall v, i: nat | i < |calls| && p(v, i) ensures p(Watcher(x)(v, calls[i]), i + 1) {
      FillObserved(w, v, newcomer, i + 1, now, x);
    }
    FoldKeeps(Watcher(x), w, calls, p);
  }

  /** One round: a newcomer, a burst of token 0, and enough other tokens to fill the table. */
  function Round(newcomer: nat, limit: nat, others: nat): seq<Call> {
    [Call(newcomer, 0)] + Repeated(Call(0, 0), limit) + OneCallEach(others, 0)
  }

  /** A newcomer's first call, into an empty table or one that it empties. */
  lemma Joined(w: Watch, newcomer: nat, now: int, x: Subject)
    requires x.limit > 0 && newcomer != x.token && x.from <= now < x.to
    requires w.table == map[] || Clears(w.table, newcomer)
    ensures Watched(w, [Call(newcomer, now)], x)
         == Watch(map[newcomer := [now]], w.accepted, w.clears + if w.table == map[] then 0 else 1)
  {
    FoldOne(Watcher(x), w, Call(newcomer, now));
    assert Evict([], now) == [] && [] + [now] == [now];
    assert w.accepted + [] == w.accepted;
  }

  lemma RoundEffect(w: Watch, newcomer: nat, others: nat, x: Subject)
    requires others + 2 == MAX_TRACKED_TOKENS <= newcomer && x.limit > 0 && x.token == 0 && x.from <= 0 < x.to
    requires w.table == map[] || Clears(w.table, newcomer)
    ensures var after := Watched(w, Round(newcomer, x.limit, others), x);
            && after.table.Keys == UpTo(others) + {newcomer}
            && after.accepted == w.accepted + Same(x.limit, 0)
            && after.clears == w.clears + if w.table == map[] then 0 else 1
  {
    var burst := Repeated(Call(0, 0), x.limit);
    Joined(w, newcomer, 0, x);
    var joined := Watched(w, [Call(newcomer, 0)], x);
    BurstAccepted(joined, 0, x.limit, x);
    FoldConcat(Watcher(x), w, [Call(newcomer, 0)], burst);
    var full := Watched(joined, burst, x);
    assert full.table.Keys == UpTo(0) + {newcomer};
    Filled(full, newcomer, others, 0, x);
    FoldConcat(Watcher(x), w, [Call(newcomer, 0)] + burst, OneCallEach(others, 0));
  }

  /** Rounds whose newcomers are all different. */
  function Rounds(n: nat, limit: nat, others: nat): seq<Call> {
    if n == 0 then [] else Rounds(n - 1, limit, others) + Round(others + 2 + (n - 1), limit, others)
  }

  function Unseen(): Watch {
    Watch(map[], [], 0)
  }

  /** What is left by n rounds: a full table without the next newcomer. */
  ghost predicate AfterRounds(w: Watch, n: nat, others: nat, x: Subject) {
    && (if n == 0 then w.table == map[] else w.table.Keys == UpTo(others) + {others + 1 + n})
    && w.accepted == Same(Times(x.limit, n), 0) && w.clears == if n == 0 then 0 else n - 1
  }

  lemma NextNewcomerClears(table: Table, others: nat, newcomer: nat)
    requires others + 2 == MAX_TRACKED_TOKENS && newcomer > others && table.Keys == UpTo(others) + {newcomer}
    ensures Clears(table, newcomer + 1)
  {
    KeysSize(table, others, newcomer);
    UpToSize(others);
  }

  lemma SameAdds(limit: nat, n: nat)
    ensures Same(Times(limit, n), 0) + Same(limit, 0) == Same(Times(limit, n + 1), 0)
  {
  }

  lemma OneRoundMore(w: Watch, n: nat, others: nat, x: Subject)
    requires others + 2 == MAX_TRACKED_TOKENS && x.limit > 0 && x.token == 0 && x.from <= 0 < x.to
    requires AfterRounds(w, n, others, x)
    ensures AfterRounds(Watched(w, Round(others + 2 + n, x.limit, others), x), n + 1, others, x)
  {
    if n > 0 {
      NextNewcomerClears(w.table, others, others + 1 + n);
    }
    RoundEffect(w, others + 2 + n, others, x);
    SameAdds(x.limit, n);
  }

  lemma LastRound(n: nat, others: nat, x: Subject)
    ensures Watched(Unseen(), Rounds(n + 1, x.limit, others), x)
         == Watched(Watched(Unseen(), Rounds(n, x.limit, others), x), Round(others + 2 + n, x.limit, others), x)
  {
    FoldConcat(Watcher(x), Unseen(), Rounds(n, x.limit, others), Round(others + 2 + n, x.limit, others));
  }

  lemma NoRounds(others: nat, x: Subject)
    ensures AfterRounds(Watched(Unseen(), Rounds(0, x.limit, others), x), 0, others, x)
  {
    assert Watched(Unseen(), [], x) == Unseen();
  }

  lemma RoundsStep(n: nat, others: nat, x: Subject)
    requires others + 2 == MAX_TRACKED_TOKENS && x.limit > 0 && x.token == 0 && x.from <= 0 < x.to
    requires AfterRounds(Watched(Unseen(), Rounds(n, x.limit, others), x), n, others, x)
    ensures AfterRounds(Watched(Unseen(), Rounds(n + 1, x.limit, others), x), n + 1, others, x)
  {
    OneRoundMore(Watched(Unseen(), Rounds(n, x.limit, others), x), n, others, x);
    LastRound(n, others, x);
  }

  lemma {:induction false} RoundsEffect(n: nat, others: nat, x: Subject)
    requires others + 2 == MAX_TRACKED_TOKENS && x.limit > 0 && x.token == 0 && x.from <= 0 < x.to
    ensures AfterRounds(Watched(Unseen(), Rounds(n, x.limit, others), x), n, others, x)
  {
    if n == 0 {
      NoRounds(others, x);
    } else {
      RoundsEffect(n - 1, others, x);
      RoundsStep(n - 1, others, x);
    }
  }

  lemma {:induction false} AllAtZero(n: nat, limit: nat, others: nat)
    ensures forall c :: c in Rounds(n, limit, others) ==> c.now == 0
  {
    if n > 0 {
      AllAtZero(n - 1, limit, others);
    }
  }

  lemma {:induction false} CountSame(n: nat, t: int, from: int, to: int)
    requires from <= t < to
    ensures CountIn(Same(n, t), from, to) == n
  {
    if n > 0 {
      CountSame(n - 1, t, from, to);
      assert Same(n, t)[..n - 1] == Same(n - 1, t);
    }
  }

  lemma RoundsAtOnce(n: nat, limit: nat, others: nat)
    ensures WithinDrift(Rounds(n, limit, others), 0)
  {
    AllAtZero(n, limit, others);
    var calls := Rounds(n, limit, others);
    assert forall i :: 0 <= i < |calls| ==> calls[i] in calls;
  }

  lemma FromNothing(calls: seq<Call>, x: Subject)
    ensures Outcome(calls, x) == Watched(Unseen(), calls, x)
  {
    WatchedFrom([], calls, x);
    assert [] + calls == calls && Outcome([], x) == Unseen();
  }

  lemma RoundsCounted(n: nat, limit: nat, others: nat)
    requires others + 2 == MAX_TRACKED_TOKENS && limit > 0
    ensures AcceptedAt(Rounds(n + 1, limit, others), limit, 0) == Same(Times(limit, n + 1), 0)
    ensures ClearsIn(Rounds(n + 1, limit, others), limit, 0, WINDOW) == n
  {
    var x, calls := Subject(limit, 0, 0, WINDOW), Rounds(n + 1, limit, others);
    RoundsEffect(n + 1, others, x);
    FromNothing(calls, x);
  }

  /**
   * The bound is exact: for every limit and every number of clears there is a run, all at
   * one instant, in which one token gets `limit` calls in for each clear and `limit` more.
   */
  lemma BoundReached(limit: nat, clears: nat) returns (calls: seq<Call>)
    requires limit > 0
    ensures WithinDrift(calls, 0) && ClearsIn(calls, limit, 0, WINDOW) == clears
    ensures CountIn(AcceptedAt(calls, limit, 0), 0, WINDOW) == limit * (clears + 1)
  {
    var others: nat :| others + 2 == MAX_TRACKED_TOKENS;
    calls := Rounds(clears + 1, limit, others);
    RoundsAtOnce(clears + 1, limit, others);
    RoundsCounted(clears, limit, others);
    TimesMultiplies(limit, clears + 1);
    CountSame(Times(limit, clears + 1), 0, 0, WINDOW);
  }

  /**
   * What one clear costs, after any run: a newcomer that empties the table lets any other
   * token make `limit` further calls on top of those already accepted in the window.
   */
  lemma ClearAdmitsAgain(calls: seq<Call>, newcomer: nat, now: int, x: Subject)
    requires x.limit > 0 && newcomer != x.token && x.from <= now < x.to
    requires Clears(TableAfter(calls, x.limit), newcomer)
    ensures var after := calls + ([Call(newcomer, now)] + Repeated(Call(x.token, now), x.limit));
            CountIn(AcceptedAt(after, x.limit, x.token), x.from, x.to)
            == CountIn(AcceptedAt(calls, x.limit, x.token), x.from, x.to) + x.limit
  {
    var w, burst := Outcome(calls, x), Repeated(Call(x.token, now), x.limit);
    Joined(w, newcomer, now, x);
    BurstAccepted(Watched(w, [Call(newcomer, now)], x), now, x.limit, x);
    FoldConcat(Watcher(x), w, [Call(newcomer, now)], burst);
    WatchedFrom(calls, [Call(newcomer, now)] + burst, x);
    CountSame(x.limit, now, x.from, x.to);
    CountConcat(w.accepted, Same(x.limit, now), x.from, x.to);
  }

  lemma {:induction false} AllExpire(n: nat, t: int, now: int)
    requires now >= t + WINDOW
    ensures Evict(Same(n, t), now) == []
  {
    if n > 0 {
      assert Same(n, t)[1..] == Same(n - 1, t);
      AllExpire(n - 1, t, now);
    }
  }

  /** A full window of hits expires at one reading; the next reading lies `drift` before it. */
  lemma LateAndEarly(w: Watch, limit: nat, drift: nat, x: Subject)
    requires x.limit == limit >= 2 && x.token == 0 && drift <= WINDOW && w.table == map[0 := Same(limit, 0)]
    ensures var after := Watched(w, [Call(0, WINDOW), Call(0, WINDOW - drift)], x);
            after.accepted == w.accepted + [WINDOW, WINDOW - drift] && after.clears == w.clears
  {
    var c, e := Call(0, WINDOW), Call(0, WINDOW - drift);
    AllExpire(limit, 0, WINDOW);
    assert [] + [WINDOW] == [WINDOW];
    var v := Observe(w, c, x);
    assert v.table == map[0 := [WINDOW]] && v.accepted == w.accepted + [WINDOW];
    assert Evict([WINDOW], WINDOW - drift) == [WINDOW];
    FoldConcat(Watcher(x), w, [c], [e]);
    FoldOne(Watcher(x), w, c);
    FoldOne(Watcher(x), v, e);
    assert [c] + [e] == [c, e];
    assert w.accepted + [WINDOW] + [WINDOW - drift] == w.accepted + [WINDOW, WINDOW - drift];
  }

  /** A burst at 0, then one call a window later and one that reads the clock `drift` before that. */
  function DriftRun(limit: nat, drift: nat): seq<Call> {
    Repeated(Call(0, 0), limit) + [Call(0, WINDOW), Call(0, WINDOW - drift)]
  }

  lemma DriftRunWatched(limit: nat, drift: nat, x: Subject)
    requires x.limit == limit >= 2 && x.token == 0 && drift <= WINDOW
    ensures var w := Watched(Unseen(), DriftRun(limit, drift), x);
            w.accepted == Same(limit, 0) + [WINDOW, WINDOW - drift] && w.clears == 0
  {
    var burst, tail := Repeated(Call(0, 0), limit), [Call(0, WINDOW), Call(0, WINDOW - drift)];
    BurstAccepted(Unseen(), 0, limit, x);
    assert [] + Same(limit, 0) == Same(limit, 0);
    LateAndEarly(Watched(Unseen(), burst, x), limit, drift, x);
    FoldConcat(Watcher(x), Unseen(), burst, tail);
  }

  lemma DriftCounted(limit: nat, drift: nat)
    requires 0 < drift < WINDOW
    ensures CountIn(Same(limit, 0) + [WINDOW, WINDOW - drift], 0, WINDOW - drift + 1) == limit + 1
  {
    CountSame(limit, 0, 0, WINDOW - drift + 1);
    CountConcat(Same(limit, 0), [WINDOW, WINDOW - drift], 0, WINDOW - drift + 1);
    assert [WINDOW, WINDOW - drift][..1] == [WINDOW] && [WINDOW][..0] == [];
    assert CountIn([WINDOW], 0, WINDOW - drift + 1) == 0;
  }

  lemma DriftRunOrdered(limit: nat, drift: nat)
    requires drift <= WINDOW
    ensures WithinDrift(DriftRun(limit, drift), drift)
  {
  }

  lemma DriftRunOutcome(limit: nat, drift: nat)
    requires limit >= 2 && drift <= WINDOW
    ensures AcceptedAt(DriftRun(limit, drift), limit, 0) == Same(limit, 0) + [WINDOW, WINDOW - drift]
    ensures ClearsIn(DriftRun(limit, drift), limit, 0 - drift, WINDOW + 1) == 0
  {
    var x := Subject(limit, 0, 0 - drift, WINDOW + 1);
    DriftRunWatched(limit, drift, x);
    FromNothing(DriftRun(limit, drift), x);
  }

  /**
   * The drift has its price: from limit 2 on, readings that step back by `drift` get one
   * call more than the limit into a stretch one nanosecond longer than the bound allows.
   */
  lemma DriftReached(limit: nat, drift: nat) returns (calls: seq<Call>)
    requires limit >= 2 && 0 < drift < WINDOW
    ensures WithinDrift(calls, drift) && ClearsIn(calls, limit, 0 - drift, WINDOW + 1) == 0
    ensures CountIn(AcceptedAt(calls, limit, 0), 0, WINDOW - drift + 1) == limit + 1
  {
    calls := DriftRun(limit, drift);
    DriftRunOrdered(limit, drift);
    DriftRunOutcome(limit, drift);
    DriftCounted(limit, drift);
  }

  /**
   * Whom a call touches: with room in the table, or by a token that has an entry, only the
   * caller's own hits; the call of a new token that finds 10 000 others forgets them all.
   */
  lemma CheckTouches(table: Table, token: nat, now: int, limit: nat)
    ensures var after := Checked(table, token, now, limit).0;
            && token in after
            && (token in table || |table| < 10_000 ==>
                  forall other :: other != token ==>
                    (other in after <==> other in table) && (other in table ==> after[other] == table[other]))
            && (token !in table && |table| >= 10_000 ==> forall other :: other in after ==> other == token)
  {
  }
}
