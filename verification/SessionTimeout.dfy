/**
 * Session idle and absolute timeouts (src/auth/session_timeout.rs).
 * Instants and durations are integer nanoseconds; the guard's windows are
 * whole milliseconds, the unit in which the middleware compares them.
 */
module SessionTimeout {
  import opened Prelude

  const NS_PER_MS := 1_000_000

  datatype Guard = Guard(idleMs: nat, absoluteMs: nat)

  datatype State = State(created: Option<int>, lastSeen: Option<int>)

  datatype Outcome = Passed | Expired(idle: bool, absolute: bool)

  /** `whole_milliseconds`: truncates toward zero, also for negative durations. */
  function WholeMs(d: int): int {
    if d >= 0 then d / NS_PER_MS else -((-d) / NS_PER_MS)
  }

  predicate IdleExpired(g: Guard, s: State, now: int) {
    s.lastSeen.Some? && WholeMs(now - s.lastSeen.value) > g.idleMs
  }

  predicate AbsoluteExpired(g: Guard, s: State, now: int) {
    s.created.Some? && WholeMs(now - s.created.value) > g.absoluteMs
  }

  predicate ShouldRefresh(g: Guard, s: State, now: int) {
    s.lastSeen.Some? ==> WholeMs(now - s.lastSeen.value) >= g.idleMs / 2
  }

  /** One request seen by the middleware: the new session payload and the verdict. */
  function Enforce(g: Guard, s: State, now: int): (State, Outcome) {
    if IdleExpired(g, s, now) || AbsoluteExpired(g, s, now) then
      (State(None, None), Expired(IdleExpired(g, s, now), AbsoluteExpired(g, s, now)))
    else
      (if ShouldRefresh(g, s, now) then s.(lastSeen := Some(now)) else s, Passed)
  }

  class Session {
    var created: Option<int>
    var lastSeen: Option<int>

    ghost function Payload(): State
      reads this
    {
      State(created, lastSeen)
    }

    constructor ()
      ensures Payload() == State(None, None)
    {
      created, lastSeen := None, None;
    }

    method MarkAuthenticated(now: int)
      modifies this
      ensures Payload() == State(Some(now), Some(now))
    {
      created := Some(now);
      lastSeen := Some(now);
    }

    method EnforceTimeout(g: Guard, now: int) returns (o: Outcome)
      modifies this
      ensures (Payload(), o) == Enforce(g, old(Payload()), now)
    {
      var idle := lastSeen.Some? && WholeMs(now - lastSeen.value) > g.idleMs;
      var absolute := created.Some? && WholeMs(now - created.value) > g.absoluteMs;
      if idle || absolute {
        created, lastSeen := None, None;
        return Expired(idle, absolute);
      }
      if lastSeen == None || WholeMs(now - lastSeen.value) >= g.idleMs / 2 {
        lastSeen := Some(now);
      }
      return Passed;
    }
  }

  /** The clock never runs backwards over the requests that follow a login. */
  ghost predicate Monotone(login: int, times: seq<int>) {
    && (forall i :: 0 <= i < |times| ==> login <= times[i])
    && (forall i, j :: 0 <= i <= j < |times| ==> times[i] <= times[j])
  }

  /** Payload after a login and requests that all passed; None once one was refused. */
  function After(g: Guard, login: int, times: seq<int>): Option<State> {
    if times == [] then Some(State(Some(login), Some(login)))
    else
      var k := |times| - 1;
      match After(g, login, times[..k])
      case None => None
      case Some(s) =>
        var (s', o) := Enforce(g, s, times[k]);
        if o.Passed? then Some(s') else None
  }

  function LastActivity(login: int, times: seq<int>): int {
    if times == [] then login else times[|times| - 1]
  }

  /** The stored stamp trails the real last activity by less than half the idle window. */
  lemma {:induction false} StoredStampLag(g: Guard, login: int, times: seq<int>)
    requires Monotone(login, times) && After(g, login, times).Some?
    ensures var s := After(g, login, times).value; var a := LastActivity(login, times);
            && s.created == Some(login) && s.lastSeen.Some?
            && login <= s.lastSeen.value <= a
            && (s.lastSeen.value == a || WholeMs(a - s.lastSeen.value) < g.idleMs / 2)
  {
    if times != [] {
      var k := |times| - 1;
      assert Monotone(login, times[..k]);
      StoredStampLag(g, login, times[..k]);
    }
  }

  /** Real inactivity beyond the idle window always ends the session. */
  lemma InactivityExpires(g: Guard, login: int, times: seq<int>, now: int)
    requires Monotone(login, times) && After(g, login, times).Some?
    requires WholeMs(now - LastActivity(login, times)) > g.idleMs
    ensures var (s', o) := Enforce(g, After(g, login, times).value, now);
            o.Expired? && o.idle && s' == State(None, None)
  {
    StoredStampLag(g, login, times);
  }

  lemma {:induction false} PrefixPassed(g: Guard, login: int, times: seq<int>, n: nat)
    requires n <= |times| && After(g, login, times).Some?
    ensures After(g, login, times[..n]).Some?
  {
    if n < |times| {
      assert times[..|times| - 1][..n] == times[..n];
      PrefixPassed(g, login, times[..|times| - 1], n);
    } else {
      assert times[..n] == times;
    }
  }

  /** No request passes once the absolute window since login is over. */
  lemma AbsoluteLimitHolds(g: Guard, login: int, times: seq<int>, i: nat)
    requires Monotone(login, times) && After(g, login, times).Some?
    requires i < |times|
    ensures WholeMs(times[i] - login) <= g.absoluteMs
  {
    PrefixPassed(g, login, times, i + 1);
    assert times[..i + 1][..i] == times[..i];
    assert Monotone(login, times[..i]);
    StoredStampLag(g, login, times[..i]);
  }

  /** A pause of `gap` never trips the idle check, whatever requests came before it. */
  ghost predicate GapAlwaysSafe(g: Guard, gap: int) {
    forall login: int, times: seq<int> ::
      Monotone(login, times) && After(g, login, times).Some? ==>
        !IdleExpired(g, After(g, login, times).value, LastActivity(login, times) + gap)
  }

  /** The furthest the stored stamp can trail real activity, in nanoseconds. */
  function MaxLag(g: Guard): nat {
    var half := g.idleMs / 2;
    if half == 0 then 0 else (if half <= g.absoluteMs then half else g.absoluteMs + 1) * NS_PER_MS - 1
  }

  lemma LagBounded(g: Guard, login: int, times: seq<int>)
    requires Monotone(login, times) && After(g, login, times).Some?
    ensures LastActivity(login, times) - After(g, login, times).value.lastSeen.value <= MaxLag(g)
    ensures After(g, login, times).value.lastSeen.Some?
  {
    StoredStampLag(g, login, times);
    if times != [] {
      AbsoluteLimitHolds(g, login, times, |times| - 1);
    }
  }

  /** A login and, unless the stamp never lags, one request just before the next refresh or expiry. */
  lemma LagReached(g: Guard) returns (times: seq<int>)
    ensures Monotone(0, times) && After(g, 0, times) == Some(State(Some(0), Some(0)))
    ensures LastActivity(0, times) == MaxLag(g)
  {
    if MaxLag(g) == 0 {
      times := [];
    } else {
      times := [MaxLag(g)];
      assert After(g, 0, times[..0]) == Some(State(Some(0), Some(0)));
    }
  }

  /**
   * The exact price of the lazy refresh, for every setting: a pause is always safe if and
   * only if it fits the idle window together with the largest lag, which is about half of
   * that window unless the absolute window is shorter still.
   */
  lemma SafeGapExactly(g: Guard, gap: nat)
    ensures GapAlwaysSafe(g, gap) <==> gap + MaxLag(g) < (g.idleMs + 1) * NS_PER_MS
  {
    if gap + MaxLag(g) < (g.idleMs + 1) * NS_PER_MS {
      forall login: int, times: seq<int> | Monotone(login, times) && After(g, login, times).Some?
        ensures !IdleExpired(g, After(g, login, times).value, LastActivity(login, times) + gap)
      {
        LagBounded(g, login, times);
      }
    } else {
      var times := LagReached(g);
      assert IdleExpired(g, After(g, 0, times).value, LastActivity(0, times) + gap);
    }
  }

  /** Pauses of at most half the idle window are safe for every setting, even 0 and 1 ms. */
  lemma HalfWindowGapsSafe(g: Guard, gap: nat)
    requires gap <= g.idleMs / 2 * NS_PER_MS
    ensures GapAlwaysSafe(g, gap)
  {
    SafeGapExactly(g, gap);
  }

  /**
   * What a request meets after any requests that passed: it passes exactly while both
   * windows last, the absolute one since login and the idle one since the stored stamp; a
   * refusal names each window that is over and clears the session; and a request that
   * passes moves the stamp to itself exactly when half the idle window is over.
   */
  lemma RequestExactly(g: Guard, login: int, times: seq<int>, now: int)
    requires Monotone(login, times) && After(g, login, times).Some?
    ensures var s := After(g, login, times).value;
            && s.created == Some(login) && s.lastSeen.Some?
            && var idle, absolute := WholeMs(now - s.lastSeen.value) > g.idleMs, WholeMs(now - login) > g.absoluteMs;
               var (s', o) := Enforce(g, s, now);
               && o == (if idle || absolute then Expired(idle, absolute) else Passed)
               && (o.Expired? ==> s' == State(None, None))
               && (o.Passed? ==> s'.created == Some(login) && After(g, login, times + [now]) == Some(s'))
               && (o.Passed? ==> s'.lastSeen == if WholeMs(now - s.lastSeen.value) >= g.idleMs / 2 then Some(now)
                                                else s.lastSeen)
  {
    StoredStampLag(g, login, times);
    assert (times + [now])[..|times|] == times;
  }

  /** Whole milliseconds, cut off towards zero on both sides. */
  lemma WholeMsExactly(d: int)
    ensures d >= 0 ==> WholeMs(d) * NS_PER_MS <= d < (WholeMs(d) + 1) * NS_PER_MS
    ensures WholeMs(-d) == -WholeMs(d)
  {
  }
}
