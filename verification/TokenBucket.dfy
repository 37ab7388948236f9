/**
 * Per-address token bucket (src/ratelimit.rs). `f64` is taken as `real` and
 * instants are seconds.
 */
module TokenBucket {
  import opened Numbers

  datatype Bucket = Bucket(capacity: real, tokens: real, last: real)

  datatype Verdict = Allowed | RetryAfter(seconds: nat)

  ghost predicate Valid(b: Bucket) {
    b.capacity >= 1.0 && 0.0 <= b.tokens <= b.capacity
  }

  function Elapsed(b: Bucket, now: real): real {
    if now >= b.last then now - b.last else 0.0
  }

  /** Tokens that `d` seconds of refill are worth. */
  function Gain(capacity: real, d: real): real {
    d * capacity / 60.0
  }

  function Refilled(b: Bucket, now: real): real {
    Min(b.tokens + Gain(b.capacity, Elapsed(b, now)), b.capacity)
  }

  function Ceil(x: real): int {
    -((-x).Floor)
  }

  function Fresh(budget: nat, now: real): Bucket {
    var c := if budget > 1 then budget as real else 1.0;
    Bucket(c, c, now)
  }

  /** Seconds until a bucket holding `tokens` < 1 holds a whole token again. */
  function Wait(capacity: real, tokens: real): real
    requires capacity >= 1.0
  {
    (1.0 - tokens) * 60.0 / capacity
  }

  /** A minute's refill is the whole capacity. */
  lemma MinuteRefills(capacity: real)
    ensures Gain(capacity, 60.0) == capacity
  {
  }

  /** Refill adds up over time and grows with it. */
  lemma GainLaws(capacity: real, d: real, e: real)
    requires capacity >= 1.0
    ensures Gain(capacity, d) + Gain(capacity, e) == Gain(capacity, d + e)
    ensures d >= e <==> Gain(capacity, d) >= Gain(capacity, e)
    ensures Gain(capacity, 0.0) == 0.0
    ensures d >= 0.0 ==> Gain(capacity, d) >= 0.0
  {
    assert d * capacity + e * capacity == (d + e) * capacity;
    assert (d - e) * capacity == d * capacity - e * capacity;
    if d >= e {
      assert (d - e) * capacity >= 0.0;
    } else {
      assert (e - d) * capacity > 0.0;
    }
    if d >= 0.0 {
      assert d * capacity >= 0.0;
    }
  }

  lemma WaitLaws(capacity: real, tokens: real)
    requires capacity >= 1.0 && tokens < 1.0
    ensures Wait(capacity, tokens) > 0.0
    ensures Gain(capacity, Wait(capacity, tokens)) == 1.0 - tokens
  {
    var x := (1.0 - tokens) * 60.0;
    assert x > 0.0;
    assert x / capacity * capacity == x;
    assert x / capacity > 0.0;
  }

  function Checked(b: Bucket, now: real): (r: (Bucket, Verdict))
    requires Valid(b)
    ensures Valid(r.0) && r.0.capacity == b.capacity && r.0.last == now
  {
    var t := Refilled(b, now);
    assert t >= 0.0 by { GainLaws(b.capacity, Elapsed(b, now), 0.0); }
    if t >= 1.0 then (Bucket(b.capacity, t - 1.0, now), Allowed)
    else
      WaitLaws(b.capacity, t);
      (Bucket(b.capacity, t, now), RetryAfter(Ceil(Wait(b.capacity, t)) + 1))
  }

  class Limiter {
    var capacity: real
    var tokens: real
    var last: real

    ghost function State(): Bucket
      reads this
    {
      Bucket(capacity, tokens, last)
    }

    constructor (budget: nat, now: real)
      ensures State() == Fresh(budget, now) && Valid(State())
    {
      capacity := if budget > 1 then budget as real else 1.0;
      tokens := if budget > 1 then budget as real else 1.0;
      last := now;
    }

    method Check(now: real) returns (v: Verdict)
      requires Valid(State())
      modifies this
      ensures Valid(State())
      ensures (State(), v) == Checked(old(State()), now)
    {
      ghost var before := State();
      var elapsed := if now >= last then now - last else 0.0;
      var grown := tokens + elapsed * capacity / 60.0;
      tokens := if grown <= capacity then grown else capacity;
      last := now;
      assert tokens == Refilled(before, now);
      if tokens >= 1.0 {
        tokens := tokens - 1.0;
        v := Allowed;
      } else {
        var wait := (1.0 - tokens) * 60.0 / capacity;
        WaitLaws(capacity, tokens);
        v := RetryAfter(Ceil(wait) + 1);
      }
    }
  }

  ghost predicate Monotone(from: real, times: seq<real>) {
    && (forall i :: 0 <= i < |times| ==> from <= times[i])
    && (forall i, j :: 0 <= i <= j < |times| ==> times[i] <= times[j])
  }

  /** The bucket after checks at the given instants, and how many of them were allowed. */
  function Run(b: Bucket, times: seq<real>): (r: (Bucket, nat))
    requires Valid(b)
    ensures Valid(r.0) && r.0.capacity == b.capacity
    decreases |times|
  {
    if times == [] then (b, 0)
    else
      var (b1, v) := Checked(b, times[0]);
      var (b2, n) := Run(b1, times[1..]);
      (b2, n + if v.Allowed? then 1 else 0)
  }

  /** One check: what is left plus what was granted is at most what was there plus the refill. */
  lemma OneCheckSpends(b: Bucket, now: real)
    requires Valid(b) && b.last <= now
    ensures var (b', v) := Checked(b, now);
            b'.tokens + (if v.Allowed? then 1.0 else 0.0) <= b.tokens + Gain(b.capacity, now - b.last)
  {
  }

  /** Tokens left plus checks allowed never exceed the tokens at the start plus the refill. */
  lemma {:induction false} SpentWithinRefill(b: Bucket, times: seq<real>, end: real)
    requires Valid(b) && Monotone(b.last, times)
    requires b.last <= end && forall i :: 0 <= i < |times| ==> times[i] <= end
    ensures Run(b, times).0.tokens + Run(b, times).1 as real <= b.tokens + Gain(b.capacity, end - b.last)
    decreases |times|
  {
    GainLaws(b.capacity, end - b.last, 0.0);
    if times != [] {
      var b1 := Checked(b, times[0]).0;
      OneCheckSpends(b, times[0]);
      assert Monotone(times[0], times[1..]);
      SpentWithinRefill(b1, times[1..], end);
      GainLaws(b.capacity, end - times[0], times[0] - b.last);
    }
  }

  lemma RunBound(b: Bucket, times: seq<real>, start: real, span: real)
    requires Valid(b) && times != [] && span >= 0.0 && Monotone(times[0], times)
    requires forall i :: 0 <= i < |times| ==> start <= times[i] <= start + span
    ensures Run(b, times).1 as real <= b.capacity + Gain(b.capacity, span)
  {
    var b1 := Checked(b, times[0]).0;
    assert Monotone(b1.last, times[1..]);
    SpentWithinRefill(b1, times[1..], start + span);
    GainLaws(b.capacity, span, start + span - times[0]);
  }

  /**
   * In any interval of `span` seconds of any run, at most
   * capacity + capacity * span / 60 checks are allowed.
   */
  lemma IntervalBound(b: Bucket, before: seq<real>, inside: seq<real>, start: real, span: real)
    requires Valid(b) && Monotone(b.last, before + inside)
    requires forall i :: 0 <= i < |inside| ==> start <= inside[i] <= start + span
    requires span >= 0.0
    ensures Run(Run(b, before).0, inside).1 as real <= b.capacity + Gain(b.capacity, span)
  {
    if inside == [] {
      GainLaws(b.capacity, span, 0.0);
    } else {
      forall i, j | 0 <= i <= j < |inside| ensures inside[i] <= inside[j] {
        assert inside[i] == (before + inside)[|before| + i];
        assert inside[j] == (before + inside)[|before| + j];
      }
      RunBound(Run(b, before).0, inside, start, span);
    }
  }

  /** After a refusal the next check is allowed exactly once the missing fraction has refilled. */
  lemma RetryExactly(b: Bucket, now: real, later: real)
    requires Valid(b) && later >= now && Checked(b, now).1.RetryAfter?
    ensures Checked(Checked(b, now).0, later).1.Allowed?
            <==> later - now >= Wait(b.capacity, Refilled(b, now))
  {
    var t := Refilled(b, now);
    WaitLaws(b.capacity, t);
    GainLaws(b.capacity, later - now, Wait(b.capacity, t));
  }

  /** Waiting the advertised Retry-After delay is always enough, and overshoots by less than 2 s. */
  lemma RetryAfterSuffices(b: Bucket, now: real, later: real)
    requires Valid(b) && Checked(b, now).1.RetryAfter?
    ensures var s := Checked(b, now).1.seconds as real;
            && s < Wait(b.capacity, Refilled(b, now)) + 2.0
            && (later >= now + s ==> Checked(Checked(b, now).0, later).1.Allowed?)
  {
    if later >= now + Checked(b, now).1.seconds as real {
      RetryExactly(b, now, later);
    }
  }

  /** Nothing is lost below the brim: tokens left plus checks allowed are the tokens before plus the whole refill. */
  lemma OneCheckExactly(b: Bucket, now: real)
    requires Valid(b) && b.last <= now
    ensures var (b', v) := Checked(b, now); var full := b.tokens + Gain(b.capacity, now - b.last);
            b'.tokens + (if v.Allowed? then 1.0 else 0.0) == if full <= b.capacity then full else b.capacity
  {
  }

  /**
   * Exact accounting over every run too short to fill the bucket: the tokens at the last
   * check plus the checks allowed are the tokens at the start plus the refill in between.
   */
  lemma {:induction false} SpentExactly(b: Bucket, times: seq<real>)
    requires Valid(b) && Monotone(b.last, times) && times != []
    requires b.tokens + Gain(b.capacity, times[|times| - 1] - b.last) <= b.capacity
    ensures Run(b, times).0.tokens + Run(b, times).1 as real
         == b.tokens + Gain(b.capacity, times[|times| - 1] - b.last)
    decreases |times|
  {
    var last := times[|times| - 1];
    GainLaws(b.capacity, last - b.last, times[0] - b.last);
    OneCheckExactly(b, times[0]);
    var b1 := Checked(b, times[0]).0;
    GainLaws(b.capacity, last - times[0], times[0] - b.last);
    if |times| > 1 {
      assert times[1..][|times| - 2] == last && Monotone(times[0], times[1..]);
      SpentExactly(b1, times[1..]);
    }
  }

  function AtOnce(n: nat, now: real): seq<real> {
    if n == 0 then [] else [now] + AtOnce(n - 1, now)
  }

  /** A burst at one instant gets exactly as many checks allowed as there are whole tokens. */
  lemma {:induction false} BurstExactly(b: Bucket, n: nat)
    requires Valid(b)
    ensures Run(b, AtOnce(n, b.last)).1 == if n <= b.tokens.Floor then n else b.tokens.Floor
    decreases n
  {
    if n > 0 {
      var (b1, v) := Checked(b, b.last);
      GainLaws(b.capacity, 0.0, 0.0);
      assert AtOnce(n, b.last)[1..] == AtOnce(n - 1, b.last);
      BurstExactly(b1, n - 1);
    }
  }

  /** A new bucket allows exactly its budget, and at least one check, at once. */
  lemma FreshBurst(budget: nat, now: real, n: nat)
    ensures var most := if budget == 0 then 1 else budget;
            Valid(Fresh(budget, now)) && Run(Fresh(budget, now), AtOnce(n, now)).1 == if n <= most then n else most
  {
    BurstExactly(Fresh(budget, now), n);
  }
}
