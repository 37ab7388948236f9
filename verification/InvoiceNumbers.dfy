/**
 * Supplied and allocated invoice numbers together (the create handler of
 * src/handlers/invoices.rs over `next_invoice_number`). The handler locks the ledger row
 * first, so the creates of one ledger follow one another; here for one year.
 */
module InvoiceNumbers {
  import opened Prelude
  import opened InvoiceReport

  /** The invoice texts of the ledger, and the year's counter row if there is one. */
  datatype State = State(texts: seq<string>, row: Option<nat>)

  datatype Refusal = Taken | CheckViolation

  /** `own`: the invoice is dated in the year; otherwise its text leaves the counter alone. */
  datatype Event = Automatic | Supplied(num: string, own: bool)

  /** Length of the run of digits at the end. */
  function DigitTail(s: string): (k: nat)
    ensures k <= |s| && forall i :: |s| - k <= i < |s| ==> IsDigit(s[i])
  {
    if s != "" && IsDigit(s[|s| - 1]) then 1 + DigitTail(s[..|s| - 1]) else 0
  }

  /** `substring(invoice_number from '-(\d+)$')::INT`, without the range of the cast. */
  function SqlSuffix(s: string): Option<nat> {
    var k := DigitTail(s);
    if 0 < k < |s| && s[|s| - k - 1] == '-' then Some(Value(s[|s| - k..])) else None
  }

  /** The largest suffix among the year's texts, 0 without one. */
  function MaxSuffix(texts: seq<string>, prefix: string): nat {
    if texts == [] then 0
    else
      var rest, n := MaxSuffix(texts[1..], prefix), SqlSuffix(texts[0]);
      if prefix <= texts[0] && n.Some? && n.value > rest then n.value else rest
  }

  /** The number after which the next allocation counts. */
  function Last(s: State, year: nat): nat {
    if s.row.Some? then s.row.value else MaxSuffix(s.texts, Prefix(year))
  }

  /** Allocation; the unique index on the text refuses a number in use, and nothing changes. */
  function Allocate(s: State, year: nat): (State, Result<string, Refusal>) {
    var n := Last(s, year) + 1;
    var num := Number(year, n);
    if num in s.texts then (s, Err(Taken)) else (State(s.texts + [num], Some(n)), Ok(num))
  }

  /** The number that a supplied text moves the counter to. */
  function Reading(year: nat, e: Event): Option<int> {
    if e.Supplied? && e.own then SuffixNumber(e.num, Prefix(year)) else None
  }

  /** A supplied text: unique, and the counter is raised to its number, or created there. */
  function Supply(s: State, year: nat, e: Event): (State, Result<string, Refusal>)
    requires e.Supplied?
  {
    if e.num in s.texts then (s, Err(Taken))
    else
      match Reading(year, e)
      case None => (s.(texts := s.texts + [e.num]), Ok(e.num))
      case Some(n) =>
        if n < 0 then (s, Err(CheckViolation))
        else (State(s.texts + [e.num], Some(if s.row.Some? && s.row.value > n then s.row.value else n)), Ok(e.num))
  }

  function Created(s: State, year: nat, e: Event): (State, Result<string, Refusal>) {
    if e.Automatic? then Allocate(s, year) else Supply(s, year, e)
  }

  class Invoices {
    var texts: seq<string>
    var row: Option<nat>

    function Contents(): State
      reads this
    {
      State(texts, row)
    }

    constructor (start: State)
      ensures Contents() == start
    {
      texts, row := start.texts, start.row;
    }

    method Create(year: nat, e: Event) returns (r: Result<string, Refusal>)
      modifies this
      ensures (Contents(), r) == Created(old(Contents()), year, e)
    {
      match e
      case Supplied(num, own) =>
        if num in texts {
          return Err(Taken);
        }
        var n := if own then SuffixNumber(num, Prefix(year)) else None;
        if n.Some? {
          if n.value < 0 {
            return Err(CheckViolation);
          }
          if row == None || row.value < n.value {
            row := Some(n.value);
          }
        }
        texts := texts + [num];
        r := Ok(num);
      case Automatic =>
        var last := if row.Some? then row.value else MaxSuffix(texts, Prefix(year));
        var num := Number(year, last + 1);
        if num in texts {
          return Err(Taken);
        }
        texts, row := texts + [num], Some(last + 1);
        r := Ok(num);
    }
  }

  lemma {:induction false} DigitTailAfter(s: string, d: string)
    requires (forall i :: 0 <= i < |d| ==> IsDigit(d[i])) && s != "" && !IsDigit(s[|s| - 1])
    ensures DigitTail(s + d) == |d|
    decreases |d|
  {
    if d == "" {
      assert s + d == s;
    } else {
      assert (s + d)[..|s + d| - 1] == s + d[..|d| - 1];
      DigitTailAfter(s, d[..|d| - 1]);
    }
  }

  /** The database reads a padded number back. */
  lemma SuffixOfNumber(year: nat, n: nat)
    ensures Prefix(year) <= Number(year, n) && SqlSuffix(Number(year, n)) == Some(n)
  {
    var p, d := Prefix(year), Pad4(n);
    Pad4Parses(n);
    DigitTailAfter(p, d);
    assert (p + d)[|p|..] == d && (p + d)[|p| - 1] == '-';
  }

  lemma NumbersDiffer(year: nat, n: nat, k: nat)
    requires Number(year, n) == Number(year, k)
    ensures n == k
  {
    SuffixOfNumber(year, n);
    SuffixOfNumber(year, k);
  }

  lemma {:induction false} MaxSuffixBounds(texts: seq<string>, prefix: string, num: string)
    requires num in texts && prefix <= num && SqlSuffix(num).Some?
    ensures SqlSuffix(num).value <= MaxSuffix(texts, prefix)
  {
    if num != texts[0] { MaxSuffixBounds(texts[1..], prefix, num); }
  }

  /** No number above the counter is in use. */
  ghost predicate Clear(s: State, year: nat) {
    forall k: nat :: Number(year, k) in s.texts ==> k <= Last(s, year)
  }

  /** Before the first use of the counter there is nothing above it, whatever the texts. */
  lemma FreshIsClear(s: State, year: nat)
    requires s.row == None
    ensures Clear(s, year)
  {
    forall k: nat | Number(year, k) in s.texts ensures k <= Last(s, year) {
      SuffixOfNumber(year, k);
      MaxSuffixBounds(s.texts, Prefix(year), Number(year, k));
    }
  }

  lemma ClearAllocates(s: State, year: nat)
    requires Clear(s, year)
    ensures Allocate(s, year).1.Ok? && Clear(Allocate(s, year).0, year)
  {
    var n, after := Last(s, year) + 1, Allocate(s, year).0;
    assert Number(year, n) !in s.texts;
    forall k: nat | Number(year, k) in after.texts ensures k <= n {
      if Number(year, k) == Number(year, n) { NumbersDiffer(year, k, n); }
    }
  }

  /** n allocations one after the other all succeed. */
  predicate Succeeds(s: State, year: nat, n: nat)
    decreases n
  {
    n == 0 || (Allocate(s, year).1.Ok? && Succeeds(Allocate(s, year).0, year, n - 1))
  }

  lemma {:induction false} ClearSucceeds(s: State, year: nat, n: nat)
    requires Clear(s, year)
    ensures Succeeds(s, year, n)
    decreases n
  {
    if n > 0 {
      ClearAllocates(s, year);
      ClearSucceeds(Allocate(s, year).0, year, n - 1);
    }
  }

  /** A number in use above the counter is reached sooner or later, and then refused. */
  lemma {:induction false} CollidesAt(s: State, year: nat, k: nat)
    requires Number(year, k) in s.texts && k > Last(s, year)
    ensures !Succeeds(s, year, k - Last(s, year))
    decreases k - Last(s, year)
  {
    var after := Allocate(s, year).0;
    if Allocate(s, year).1.Ok? {
      assert k != Last(s, year) + 1;
      CollidesAt(after, year, k);
    }
  }

  /** Allocation never collides, however often it is asked, exactly when no number above the counter is in use. */
  lemma AllocationSafeExactly(s: State, year: nat)
    ensures (forall n: nat :: Succeeds(s, year, n)) <==> Clear(s, year)
  {
    if Clear(s, year) {
      forall n: nat ensures Succeeds(s, year, n) {
        ClearSucceeds(s, year, n);
      }
    } else {
      var k: nat :| Number(year, k) in s.texts && k > Last(s, year);
      CollidesAt(s, year, k);
    }
  }

  /**
   * What a supplied text must satisfy: as the first use of the counter its number is at
   * least every number in use, because the handler does not look at them; and if it
   * leaves the counter alone, it is no padded number of the year above it.
   */
  ghost predicate Harmless(s: State, year: nat, e: Event) {
    match Reading(year, e)
    case Some(n) => s.row == None ==> forall k: nat :: Number(year, k) in s.texts ==> k <= n
    case None => e.Supplied? && s.row.Some? ==> forall k: nat :: e.num == Number(year, k) ==> k <= s.row.value
  }

  lemma ReadsItsNumber(year: nat, k: nat)
    ensures SuffixNumber(Number(year, k), Prefix(year)).Some? ==> SuffixNumber(Number(year, k), Prefix(year)) == Some(k)
  {
    Pad4Parses(k);
    SuffixOf(Prefix(year), Pad4(k));
    assert IsDigit(Pad4(k)[0]);
  }

  lemma SupplyClearExactly(s: State, year: nat, e: Event)
    requires Clear(s, year) && e.Supplied? && Supply(s, year, e).1.Ok?
    ensures Clear(Supply(s, year, e).0, year) <==> Harmless(s, year, e)
  {
    var after := Supply(s, year, e).0;
    assert forall t :: t in after.texts <==> t in s.texts || t == e.num;
    if after.row == None {
      FreshIsClear(after, year);
    }
    if Reading(year, e).Some? {
      forall k: nat | e.num == Number(year, k) ensures Reading(year, e) == Some(k) {
        ReadsItsNumber(year, k);
      }
    }
  }

  function Run(s: State, year: nat, events: seq<Event>): State
    decreases |events|
  {
    if events == [] then s else Run(Created(s, year, events[0]).0, year, events[1..])
  }

  ghost predicate HarmlessRun(s: State, year: nat, events: seq<Event>)
    decreases |events|
  {
    events != [] ==>
      Harmless(s, year, events[0]) && HarmlessRun(Created(s, year, events[0]).0, year, events[1..])
  }

  /**
   * The promise of the handler's comment, with its condition: over any run of creates that
   * starts without a counter and in which every supplied text is harmless when it comes,
   * later allocations never collide.
   */
  lemma {:induction false} RunStaysClear(s: State, year: nat, events: seq<Event>)
    requires Clear(s, year) && HarmlessRun(s, year, events)
    ensures Clear(Run(s, year, events), year)
    decreases |events|
  {
    if events != [] {
      var after := Created(s, year, events[0]).0;
      if events[0].Automatic? {
        ClearAllocates(s, year);
      } else if Supply(s, year, events[0]).1.Ok? {
        SupplyClearExactly(s, year, events[0]);
      }
      RunStaysClear(after, year, events[1..]);
    }
  }

  /**
   * The promise fails for a whole family: with invoices numbered up to m and no counter
   * yet, supplying any free number j below m makes some later allocation fail.
   */
  lemma SmallFirstNumberCollides(s: State, year: nat, j: nat, m: nat)
    requires s.row == None && Number(year, m) in s.texts && Number(year, j) !in s.texts && j < m && j <= I32_MAX
    ensures var (after, r) := Supply(s, year, Supplied(Number(year, j), true));
            r.Ok? && !forall n: nat :: Succeeds(after, year, n)
  {
    var e := Supplied(Number(year, j), true);
    NumberRoundTrip(year, j);
    FreshIsClear(s, year);
    SupplyClearExactly(s, year, e);
    AllocationSafeExactly(Supply(s, year, e).0, year);
  }

  /**
   * What a create hands out and stores: on success one new text, the supplied one or the
   * padded number after the counter, and the counter where the text leads; on a refusal
   * nothing changes, and it is refused exactly when its text is in use or reads negative.
   */
  lemma CreatedExactly(s: State, year: nat, e: Event)
    ensures var (after, r) := Created(s, year, e);
            var num := if e.Automatic? then Number(year, Last(s, year) + 1) else e.num;
            && (r.Ok? <==> num !in s.texts && (Reading(year, e).Some? ==> Reading(year, e).value >= 0))
            && (r.Err? ==> after == s && (r.error == Taken <==> num in s.texts))
            && (r.Ok? ==>
                 && r.value == num && after.texts == s.texts + [num]
                 && (e.Automatic? ==> SqlSuffix(num) == Some(Last(s, year) + 1) && after.row == SqlSuffix(num))
                 && (e.Supplied? && Reading(year, e) == None ==> after.row == s.row)
                 && (Reading(year, e).Some? ==>
                       && after.row.Some? && after.row.value >= Reading(year, e).value
                       && (after.row == s.row || after.row.value == Reading(year, e).value)
                       && (s.row.Some? ==> after.row.value >= s.row.value)))
  {
    SuffixOfNumber(year, Last(s, year) + 1);
  }
}
