/**
 * Invoice number text and the gap report (src/domain/close_controls.rs).
 */
module InvoiceReport {
  import opened Prelude
  import InvoiceSequence

  const I32_MAX := 0x7FFF_FFFF

  function Digit(d: int): char
    requires 0 <= d < 10
  {
    "0123456789"[d]
  }

  predicate IsDigit(c: char) {
    '0' <= c <= '9'
  }

  function Digits(n: nat): string {
    if n < 10 then [Digit(n)] else Digits(n / 10) + [Digit(n % 10)]
  }

  function Zeros(k: nat): string {
    seq(k, _ => '0')
  }

  /** `{n:04}`. */
  function Pad4(n: nat): string {
    var d := Digits(n);
    (if |d| < 4 then Zeros(4 - |d|) else "") + d
  }

  function Prefix(year: nat): string {
    Digits(year) + "-"
  }

  function Number(year: nat, n: nat): string {
    Prefix(year) + Pad4(n)
  }

  predicate AllDigits(s: string) {
    s != "" && forall i :: 0 <= i < |s| ==> IsDigit(s[i])
  }

  function Value(s: string): nat
    requires forall i :: 0 <= i < |s| ==> IsDigit(s[i])
  {
    if s == "" then 0
    else
      assert IsDigit(s[|s| - 1]);
      10 * Value(s[..|s| - 1]) + (s[|s| - 1] as int - '0' as int)
  }

  /** `parse::<i32>`: an optional sign, at least one digit, within range. */
  function ParseI32(s: string): Option<int> {
    var negative := s != "" && s[0] == '-';
    var body := if s != "" && (s[0] == '-' || s[0] == '+') then s[1..] else s;
    if !AllDigits(body) then None
    else
      var v: int := Value(body);
      if negative then if v <= I32_MAX + 1 then Some(-v) else None
      else if v <= I32_MAX then Some(v) else None
  }

  function SuffixNumber(num: string, prefix: string): Option<int> {
    if prefix <= num then ParseI32(num[|prefix|..]) else None
  }

  lemma AppendDigit(s: string, d: int)
    requires AllDigits(s) && 0 <= d < 10
    ensures AllDigits(s + [Digit(d)]) && Value(s + [Digit(d)]) == 10 * Value(s) + d
  {
    var t := s + [Digit(d)];
    assert IsDigit(Digit(d)) && Digit(d) as int - '0' as int == d;
    assert t[..|t| - 1] == s && t[|t| - 1] == Digit(d);
  }

  lemma OneDigit(d: int)
    requires 0 <= d < 10
    ensures AllDigits([Digit(d)]) && Value([Digit(d)]) == d
  {
    assert IsDigit(Digit(d)) && Digit(d) as int - '0' as int == d;
    assert [Digit(d)][..0] == "";
  }

  lemma {:induction false} DigitsParse(n: nat)
    ensures AllDigits(Digits(n)) && Value(Digits(n)) == n
  {
    if n < 10 {
      OneDigit(n);
    } else {
      DigitsParse(n / 10);
      AppendDigit(Digits(n / 10), n % 10);
    }
  }

  lemma {:induction false} ZerosParse(k: nat, s: string)
    requires forall i :: 0 <= i < |s| ==> IsDigit(s[i])
    ensures forall i :: 0 <= i < |Zeros(k) + s| ==> IsDigit((Zeros(k) + s)[i])
    ensures Value(Zeros(k) + s) == Value(s)
    decreases k, |s|
  {
    var t := Zeros(k) + s;
    if s != "" {
      ZerosParse(k, s[..|s| - 1]);
      assert t[..|t| - 1] == Zeros(k) + s[..|s| - 1];
    } else if k > 0 {
      ZerosParse(k - 1, "");
      assert t[..|t| - 1] == Zeros(k - 1) + "";
    }
  }

  lemma Pad4Parses(n: nat)
    ensures AllDigits(Pad4(n)) && Value(Pad4(n)) == n
  {
    DigitsParse(n);
    var d := Digits(n);
    if |d| < 4 {
      ZerosParse(4 - |d|, d);
    } else {
      assert "" + d == d;
    }
  }

  lemma UnsignedParses(s: string)
    requires AllDigits(s) && Value(s) <= I32_MAX
    ensures ParseI32(s) == Some(Value(s))
  {
    assert IsDigit(s[0]);
  }

  lemma SuffixOf(prefix: string, s: string)
    ensures SuffixNumber(prefix + s, prefix) == ParseI32(s)
  {
    assert (prefix + s)[|prefix|..] == s;
  }

  /** Reading back a formatted number gives the number, padding and all. */
  lemma NumberRoundTrip(year: nat, n: nat)
    requires n <= I32_MAX
    ensures SuffixNumber(Number(year, n), Prefix(year)) == Some(n)
  {
    Pad4Parses(n);
    UnsignedParses(Pad4(n));
    SuffixOf(Prefix(year), Pad4(n));
  }

  /** The ordered map `used`, as its entries in ascending key order. */
  type Used = seq<(int, string)>

  function Put(m: Used, k: int, v: string): Used {
    if m == [] || k < m[0].0 then [(k, v)] + m
    else if k == m[0].0 then [(k, v)] + m[1..]
    else [m[0]] + Put(m[1..], k, v)
  }

  ghost predicate Ascending(m: Used) {
    forall i, j :: 0 <= i < j < |m| ==> m[i].0 < m[j].0
  }

  predicate HasKey(m: Used, k: int) {
    exists i :: 0 <= i < |m| && m[i].0 == k
  }

  function UsedBy(rows: seq<(string, string)>, prefix: string): Used {
    if rows == [] then []
    else
      var front, num := UsedBy(rows[..|rows| - 1], prefix), rows[|rows| - 1].0;
      match SuffixNumber(num, prefix)
      case Some(n) => Put(front, n, num)
      case None => front
  }

  function VoidsOf(rows: seq<(string, string)>, prefix: string): seq<string> {
    if rows == [] then []
    else
      var r := rows[|rows| - 1];
      VoidsOf(rows[..|rows| - 1], prefix)
      + if SuffixNumber(r.0, prefix).Some? && r.1 == "void" then [r.0] else []
  }

  function MaxKey(m: Used): int {
    if m == [] then 0 else m[|m| - 1].0
  }

  /** The numbers 1..n that no key covers. */
  function MissingUpTo(m: Used, year: nat, n: int): seq<string> {
    if n <= 0 then [] else MissingUpTo(m, year, n - 1) + if HasKey(m, n) then [] else [Number(year, n)]
  }

  function ValuesOf(m: Used): seq<string> {
    seq(|m|, i requires 0 <= i < |m| => m[i].1)
  }

  method GapReport(rows: seq<(string, string)>, year: nat)
    returns (taken: seq<string>, voids: seq<string>, missing: seq<string>)
    ensures taken == ValuesOf(UsedBy(rows, Prefix(year)))
    ensures voids == VoidsOf(rows, Prefix(year))
    ensures missing == MissingUpTo(UsedBy(rows, Prefix(year)), year, MaxKey(UsedBy(rows, Prefix(year))))
  {
    var prefix := Prefix(year);
    var used: Used := [];
    voids := [];
    for i := 0 to |rows|
      invariant used == UsedBy(rows[..i], prefix) && voids == VoidsOf(rows[..i], prefix)
    {
      assert rows[..i + 1][..i] == rows[..i];
      var (num, status) := rows[i];
      if prefix <= num {
        var n := ParseI32(num[|prefix|..]);
        if n.Some? {
          used := Put(used, n.value, num);
          if status == "void" {
            voids := voids + [num];
          }
        }
      }
    }
    assert rows[..|rows|] == rows;
    var max := MaxKey(used);
    missing := [];
    var n := 1;
    while n <= max
      invariant 1 <= n && (n <= max + 1 || n == 1)
      invariant missing == MissingUpTo(used, year, n - 1)
      decreases max - n
    {
      if !HasKey(used, n) {
        missing := missing + [Number(year, n)];
      }
      n := n + 1;
    }
    assert max <= 0 ==> MissingUpTo(used, year, max) == [];
    taken := ValuesOf(used);
  }

  /** Some row's text is read as n. */
  ghost predicate ReadAs(rows: seq<(string, string)>, prefix: string, n: int) {
    exists i :: 0 <= i < |rows| && SuffixNumber(rows[i].0, prefix) == Some(n)
  }

  /** The text of the last row that is read as n; several spellings may be. */
  function LastText(rows: seq<(string, string)>, prefix: string, n: int): Option<string> {
    if rows == [] then None
    else
      var num := rows[|rows| - 1].0;
      if SuffixNumber(num, prefix) == Some(n) then Some(num) else LastText(rows[..|rows| - 1], prefix, n)
  }

  ghost predicate SpelledLast(rows: seq<(string, string)>, prefix: string, n: int, num: string) {
    LastText(rows, prefix, n) == Some(num)
  }

  lemma ReadAsStep(rows: seq<(string, string)>, prefix: string, n: int)
    requires rows != []
    ensures ReadAs(rows, prefix, n)
            <==> SuffixNumber(rows[|rows| - 1].0, prefix) == Some(n) || ReadAs(rows[..|rows| - 1], prefix, n)
  {
    var front := rows[..|rows| - 1];
    assert forall i :: 0 <= i < |front| ==> front[i] == rows[i];
    if i :| 0 <= i < |front| && SuffixNumber(front[i].0, prefix) == Some(n) {
      assert rows[i] == front[i];
    }
  }

  lemma {:induction false} LastTextFacts(rows: seq<(string, string)>, prefix: string, n: int)
    ensures LastText(rows, prefix, n).Some? <==> ReadAs(rows, prefix, n)
    ensures LastText(rows, prefix, n).Some? ==> SuffixNumber(LastText(rows, prefix, n).value, prefix) == Some(n)
  {
    if rows != [] {
      LastTextFacts(rows[..|rows| - 1], prefix, n);
      ReadAsStep(rows, prefix, n);
    }
  }

  lemma {:induction false} PutFacts(m: Used, k: int, v: string)
    requires Ascending(m)
    ensures Ascending(Put(m, k, v))
    ensures forall e :: e in Put(m, k, v) <==> e == (k, v) || (e in m && e.0 != k)
  {
    if m != [] && k > m[0].0 {
      PutFacts(m[1..], k, v);
      var p := Put(m[1..], k, v);
      forall j | 0 <= j < |p| ensures m[0].0 < p[j].0 {
        assert p[j] in p;
      }
      assert forall e :: e in m <==> e == m[0] || e in m[1..];
      assert forall e :: e in [m[0]] + p <==> e == m[0] || e in p;
    } else if m != [] {
      assert m == [m[0]] + m[1..];
      assert forall e :: e in m[1..] ==> exists j :: 1 <= j < |m| && m[j] == e;
    }
  }

  /** The entries of `used`: for every number read from some row, the last text it was read from. */
  lemma {:induction false} UsedFacts(rows: seq<(string, string)>, prefix: string)
    ensures var m := UsedBy(rows, prefix);
            Ascending(m) && forall e :: e in m <==> LastText(rows, prefix, e.0) == Some(e.1)
  {
    if rows != [] {
      var front, num := rows[..|rows| - 1], rows[|rows| - 1].0;
      UsedFacts(front, prefix);
      if SuffixNumber(num, prefix).Some? {
        PutFacts(UsedBy(front, prefix), SuffixNumber(num, prefix).value, num);
      }
    }
  }

  lemma ReadInRange(num: string, prefix: string)
    ensures SuffixNumber(num, prefix).Some? ==> SuffixNumber(num, prefix).value <= I32_MAX
  {
  }

  /** A number is a key exactly when some row is read as it, and then its last text is listed. */
  lemma KeyMeansRead(rows: seq<(string, string)>, prefix: string, k: int)
    ensures var m := UsedBy(rows, prefix);
            && (HasKey(m, k) <==> ReadAs(rows, prefix, k))
            && (HasKey(m, k) ==> k <= MaxKey(m) && k <= I32_MAX)
  {
    var m := UsedBy(rows, prefix);
    UsedFacts(rows, prefix);
    LastTextFacts(rows, prefix, k);
    if HasKey(m, k) {
      var i :| 0 <= i < |m| && m[i].0 == k;
      assert m[i] in m;
      ReadInRange(m[i].1, prefix);
    }
    if ReadAs(rows, prefix, k) {
      var e := (k, LastText(rows, prefix, k).value);
      assert e in m;
      var i :| 0 <= i < |m| && m[i] == e;
      assert m[i].0 == k;
    }
  }

  /** The largest key is zero, for an empty report, or the number of some row. */
  lemma MaxIsRead(rows: seq<(string, string)>, prefix: string)
    ensures var max := MaxKey(UsedBy(rows, prefix));
            max <= I32_MAX && (max > 0 ==> ReadAs(rows, prefix, max))
  {
    var m := UsedBy(rows, prefix);
    if m != [] {
      assert m[|m| - 1].0 == MaxKey(m);
      KeyMeansRead(rows, prefix, MaxKey(m));
    }
  }

  /** What is listed as allocated: exactly the last text of every number read from a row. */
  lemma AllocatedExactly(rows: seq<(string, string)>, prefix: string, num: string)
    ensures num in ValuesOf(UsedBy(rows, prefix)) <==> exists k :: SpelledLast(rows, prefix, k, num)
  {
    var m := UsedBy(rows, prefix);
    UsedFacts(rows, prefix);
    if num in ValuesOf(m) {
      var i :| 0 <= i < |m| && ValuesOf(m)[i] == num;
      assert m[i] == (m[i].0, num) && m[i] in m;
      assert SpelledLast(rows, prefix, m[i].0, num);
    }
    if k :| SpelledLast(rows, prefix, k, num) {
      assert (k, num) in m;
      var i :| 0 <= i < |m| && m[i] == (k, num);
      assert ValuesOf(m)[i] == num;
    }
  }

  ghost predicate IsGap(m: Used, year: nat, num: string, k: nat) {
    k >= 1 && !HasKey(m, k) && num == Number(year, k)
  }

  lemma {:induction false} MissingIsGap(m: Used, year: nat, n: int, num: string) returns (k: nat)
    requires num in MissingUpTo(m, year, n)
    ensures k <= n && IsGap(m, year, num, k)
    decreases n
  {
    if num in MissingUpTo(m, year, n - 1) {
      k := MissingIsGap(m, year, n - 1, num);
    } else {
      k := n;
    }
  }

  lemma {:induction false} GapIsMissing(m: Used, year: nat, n: int, k: nat)
    requires 1 <= k <= n && !HasKey(m, k)
    ensures Number(year, k) in MissingUpTo(m, year, n)
    decreases n
  {
    if k < n {
      GapIsMissing(m, year, n - 1, k);
    }
  }

  /** Some listed text is read as k. */
  ghost predicate Listed(texts: seq<string>, prefix: string, k: int) {
    exists t :: t in texts && SuffixNumber(t, prefix) == Some(k)
  }

  lemma ListedMeansRead(rows: seq<(string, string)>, prefix: string, k: int)
    ensures Listed(ValuesOf(UsedBy(rows, prefix)), prefix, k) <==> ReadAs(rows, prefix, k)
  {
    var texts := ValuesOf(UsedBy(rows, prefix));
    LastTextFacts(rows, prefix, k);
    if Listed(texts, prefix, k) {
      var t :| t in texts && SuffixNumber(t, prefix) == Some(k);
      AllocatedExactly(rows, prefix, t);
      var j :| SpelledLast(rows, prefix, j, t);
      LastTextFacts(rows, prefix, j);
    }
    if ReadAs(rows, prefix, k) {
      var t := LastText(rows, prefix, k).value;
      AllocatedExactly(rows, prefix, t);
      assert SpelledLast(rows, prefix, k, t);
    }
  }

  lemma NumberInjective(year: nat, n: nat, k: nat)
    requires n <= I32_MAX && k <= I32_MAX && Number(year, n) == Number(year, k)
    ensures n == k
  {
    NumberRoundTrip(year, n);
    NumberRoundTrip(year, k);
  }

  lemma MissingMeansNoKey(m: Used, year: nat, n: int, k: nat)
    requires 1 <= k <= n <= I32_MAX
    ensures Number(year, k) in MissingUpTo(m, year, n) <==> !HasKey(m, k)
  {
    var num := Number(year, k);
    if num in MissingUpTo(m, year, n) {
      var j := MissingIsGap(m, year, n, num);
      NumberInjective(year, j, k);
    }
    if !HasKey(m, k) {
      GapIsMissing(m, year, n, k);
    }
  }

  /**
   * The report partitions 1..max by number, whatever texts the rows carry: each such
   * number is read from an allocated text if some invoice has it and its padded text is
   * missing if none does, never both.
   */
  lemma ReportPartitions(rows: seq<(string, string)>, year: nat, k: nat)
    ensures var prefix := Prefix(year); var m := UsedBy(rows, prefix);
            1 <= k <= MaxKey(m) ==>
              && (Listed(ValuesOf(m), prefix, k) <==> ReadAs(rows, prefix, k))
              && (Number(year, k) in MissingUpTo(m, year, MaxKey(m)) <==> !ReadAs(rows, prefix, k))
  {
    var prefix := Prefix(year);
    var m := UsedBy(rows, prefix);
    if 1 <= k <= MaxKey(m) {
      MaxIsRead(rows, prefix);
      KeyMeansRead(rows, prefix, k);
      MissingMeansNoKey(m, year, MaxKey(m), k);
      ListedMeansRead(rows, prefix, k);
    }
  }

  /** What is listed as missing: exactly the padded texts of the numbers in 1..max that no row is read as. */
  lemma MissingExactly(rows: seq<(string, string)>, year: nat, num: string)
    ensures var m := UsedBy(rows, Prefix(year));
            num in MissingUpTo(m, year, MaxKey(m))
            <==> exists k: nat :: 1 <= k <= MaxKey(m) && num == Number(year, k) && !ReadAs(rows, Prefix(year), k)
  {
    var m := UsedBy(rows, Prefix(year));
    if num in MissingUpTo(m, year, MaxKey(m)) {
      var k := MissingIsGap(m, year, MaxKey(m), num);
      KeyMeansRead(rows, Prefix(year), k);
    }
    if k: nat :| 1 <= k <= MaxKey(m) && num == Number(year, k) && !ReadAs(rows, Prefix(year), k) {
      KeyMeansRead(rows, Prefix(year), k);
      GapIsMissing(m, year, MaxKey(m), k);
    }
  }

  lemma {:induction false} VoidRow(rows: seq<(string, string)>, prefix: string, num: string) returns (i: nat)
    requires num in VoidsOf(rows, prefix)
    ensures i < |rows| && rows[i] == (num, "void") && SuffixNumber(num, prefix).Some?
  {
    var front := rows[..|rows| - 1];
    if num in VoidsOf(front, prefix) {
      i := VoidRow(front, prefix, num);
      assert rows[i] == front[i];
    } else {
      i := |rows| - 1;
    }
  }

  lemma ReadIsNotMissing(rows: seq<(string, string)>, year: nat, num: string, n: int)
    requires SuffixNumber(num, Prefix(year)) == Some(n) && ReadAs(rows, Prefix(year), n)
    ensures var m := UsedBy(rows, Prefix(year)); num !in MissingUpTo(m, year, MaxKey(m))
  {
    var m := UsedBy(rows, Prefix(year));
    if num in MissingUpTo(m, year, MaxKey(m)) {
      MissingExactly(rows, year, num);
      var k: nat :| 1 <= k <= MaxKey(m) && num == Number(year, k) && !ReadAs(rows, Prefix(year), k);
      MaxIsRead(rows, Prefix(year));
      NumberRoundTrip(year, k);
    }
  }

  /**
   * A void keeps its number: neither its text nor the padded text of its number is ever
   * missing. Its text is listed as allocated exactly when no later row spells the same
   * number differently.
   */
  lemma VoidsAllocatedExactly(rows: seq<(string, string)>, year: nat, num: string)
    requires num in VoidsOf(rows, Prefix(year))
    ensures var prefix := Prefix(year); var m := UsedBy(rows, prefix); var n := SuffixNumber(num, prefix);
            && n.Some?
            && (num in ValuesOf(m) <==> SpelledLast(rows, prefix, n.value, num))
            && num !in MissingUpTo(m, year, MaxKey(m))
            && (n.value >= 0 ==> Number(year, n.value) !in MissingUpTo(m, year, MaxKey(m)))
  {
    var prefix := Prefix(year);
    var i := VoidRow(rows, prefix, num);
    var n := SuffixNumber(num, prefix).value;
    assert ReadAs(rows, prefix, n);
    AllocatedExactly(rows, prefix, num);
    if k :| SpelledLast(rows, prefix, k, num) {
      LastTextFacts(rows, prefix, k);
    }
    ReadIsNotMissing(rows, year, num, n);
    if n >= 0 {
      ReadInRange(num, prefix);
      NumberRoundTrip(year, n);
      ReadIsNotMissing(rows, year, Number(year, n), n);
    }
  }

  /** No row spells a number in any way but the padded one, as when all numbers come from the sequence. */
  ghost predicate Padded(rows: seq<(string, string)>, year: nat) {
    forall i :: 0 <= i < |rows| ==> exists n: nat :: 1 <= n <= I32_MAX && rows[i].0 == Number(year, n)
  }

  lemma {:induction false} PaddedText(rows: seq<(string, string)>, year: nat, n: int)
    requires Padded(rows, year) && ReadAs(rows, Prefix(year), n)
    ensures n >= 1 && SpelledLast(rows, Prefix(year), n, Number(year, n))
  {
    var front, num := rows[..|rows| - 1], rows[|rows| - 1].0;
    var k: nat :| 1 <= k <= I32_MAX && num == Number(year, k);
    NumberRoundTrip(year, k);
    if k != n {
      assert Padded(front, year);
      LastTextFacts(front, Prefix(year), n);
      LastTextFacts(rows, Prefix(year), n);
      PaddedText(front, year, n);
    }
  }

  /** Over padded numbers the listed texts themselves partition 1..max, and every void is allocated. */
  lemma PaddedReport(rows: seq<(string, string)>, year: nat, k: nat, num: string)
    requires Padded(rows, year)
    ensures var m := UsedBy(rows, Prefix(year)); var missing := MissingUpTo(m, year, MaxKey(m));
            && (1 <= k <= MaxKey(m) ==> (Number(year, k) in ValuesOf(m) <==> Number(year, k) !in missing))
            && (num in VoidsOf(rows, Prefix(year)) ==> num in ValuesOf(m))
  {
    var prefix := Prefix(year);
    var m := UsedBy(rows, prefix);
    if 1 <= k <= MaxKey(m) {
      MaxIsRead(rows, prefix);
      ReportPartitions(rows, year, k);
      AllocatedExactly(rows, prefix, Number(year, k));
      NumberRoundTrip(year, k);
      if ReadAs(rows, prefix, k) {
        PaddedText(rows, year, k);
      }
      if j :| SpelledLast(rows, prefix, j, Number(year, k)) {
        LastTextFacts(rows, prefix, j);
      }
    }
    if num in VoidsOf(rows, prefix) {
      VoidsAllocatedExactly(rows, year, num);
      var i := VoidRow(rows, prefix, num);
      var n: nat :| 1 <= n <= I32_MAX && rows[i].0 == Number(year, n);
      NumberRoundTrip(year, n);
      PaddedText(rows, year, n);
    }
  }

  lemma {:induction false} ShortIsSmall(n: nat)
    ensures |Digits(n)| < 4 ==> n < 1000
  {
    if n >= 1000 {
      assert n / 10 >= 100 && n / 10 / 10 >= 10;
      assert |Digits(n / 10 / 10 / 10)| >= 1;
      assert |Digits(n / 10 / 10)| >= 2 && |Digits(n / 10)| >= 3;
    }
  }

  /** A void typed in without padding is hidden by a later invoice with the padded number. */
  lemma UnpaddedVoidHidden(year: nat, n: nat)
    requires |Digits(n)| < 4
    ensures var typed := Prefix(year) + Digits(n);
            var rows := [(typed, "void"), (Number(year, n), "sent")];
            typed in VoidsOf(rows, Prefix(year)) && typed !in ValuesOf(UsedBy(rows, Prefix(year)))
  {
    var prefix := Prefix(year);
    var typed, padded := prefix + Digits(n), Number(year, n);
    var rows := [(typed, "void"), (padded, "sent")];
    ShortIsSmall(n);
    DigitsParse(n);
    UnsignedParses(Digits(n));
    SuffixOf(prefix, Digits(n));
    NumberRoundTrip(year, n);
    assert |typed| < |padded|;
    assert rows[..1] == [(typed, "void")] && rows[..1][..0] == [];
    assert VoidsOf(rows[..1], prefix) == [typed];
    assert typed in VoidsOf(rows, prefix);
    VoidsAllocatedExactly(rows, year, typed);
  }

  /** When every number above `seed` up to the maximum was used, only numbers up to the seed can be missing. */
  lemma GaplessRunReportsNoGap(rows: seq<(string, string)>, year: nat, seed: int, num: string)
    ensures var m := UsedBy(rows, Prefix(year));
            && (forall k :: seed < k <= MaxKey(m) ==> ReadAs(rows, Prefix(year), k))
            && num in MissingUpTo(m, year, MaxKey(m)) ==>
              exists k: nat :: 1 <= k <= seed && num == Number(year, k)
  {
    MissingExactly(rows, year, num);
  }

  lemma BelowIsIssued(issued: seq<int>, seed: int, max: int, k: int)
    requires issued == InvoiceSequence.From(seed, |issued|) && max in issued && seed < k <= max
    ensures k in issued
  {
    assert issued[k - seed - 1] == k;
  }

  /**
   * Sequence and report together. Take any interleaved run from any seed, and any table,
   * in any order, whose numbers above the seed are exactly the committed ones: the report
   * misses exactly the numbers up to the seed that no row carries, so none from zero.
   */
  lemma CommittedRunHasNoGaps(row: Option<int>, base: int, events: seq<InvoiceSequence.Event>, year: nat,
                              rows: seq<(string, string)>, num: string)
    requires var seed := InvoiceSequence.Seed(row, base);
             var issued := InvoiceSequence.Run(InvoiceSequence.Init(row, base), events).issued;
             forall k :: k > seed ==> (ReadAs(rows, Prefix(year), k) <==> k in issued)
    ensures var seed := InvoiceSequence.Seed(row, base); var m := UsedBy(rows, Prefix(year));
            num in MissingUpTo(m, year, MaxKey(m))
            <==> exists k: nat :: && 1 <= k <= seed && k <= MaxKey(m) && num == Number(year, k)
                                  && !ReadAs(rows, Prefix(year), k)
  {
    var seed, m := InvoiceSequence.Seed(row, base), UsedBy(rows, Prefix(year));
    var issued := InvoiceSequence.Run(InvoiceSequence.Init(row, base), events).issued;
    InvoiceSequence.GaplessNumbering(row, base, events);
    MissingExactly(rows, year, num);
    MaxIsRead(rows, Prefix(year));
    forall k: nat | 1 <= k <= MaxKey(m) && k > seed ensures ReadAs(rows, Prefix(year), k) {
      BelowIsIssued(issued, seed, MaxKey(m), k);
    }
  }

  /** The voids listed are exactly the texts of void rows that are read as a number. */
  lemma {:induction false} VoidsExactly(rows: seq<(string, string)>, prefix: string, num: string)
    ensures num in VoidsOf(rows, prefix) <==> (num, "void") in rows && SuffixNumber(num, prefix).Some?
  {
    if rows != [] {
      VoidsExactly(rows[..|rows| - 1], prefix, num);
      assert rows == rows[..|rows| - 1] + [rows[|rows| - 1]];
    }
  }

  /** The allocated texts are listed in the order of their numbers. */
  lemma AllocatedAscends(rows: seq<(string, string)>, prefix: string, i: nat, j: nat)
    requires i < j < |ValuesOf(UsedBy(rows, prefix))|
    ensures var texts := ValuesOf(UsedBy(rows, prefix));
            && SuffixNumber(texts[i], prefix).Some? && SuffixNumber(texts[j], prefix).Some?
            && SuffixNumber(texts[i], prefix).value < SuffixNumber(texts[j], prefix).value
  {
    var m := UsedBy(rows, prefix);
    UsedFacts(rows, prefix);
    assert m[i] in m && m[j] in m;
    LastTextFacts(rows, prefix, m[i].0);
    LastTextFacts(rows, prefix, m[j].0);
  }

  /** A padded number has four digits, more only when it needs them, and zeros only in front. */
  lemma {:induction false} PaddedWidth(n: nat)
    ensures |Pad4(n)| == if |Digits(n)| < 4 then 4 else |Digits(n)|
    ensures forall i :: 0 <= i < |Pad4(n)| - |Digits(n)| ==> Pad4(n)[i] == '0'
    ensures n > 0 ==> Digits(n)[0] != '0'
  {
    if n >= 10 {
      PaddedWidth(n / 10);
      assert Digits(n)[0] == Digits(n / 10)[0];
    }
  }

  /** What the number parser makes of digits, with and without a sign: the value, within the 32-bit range. */
  lemma ParsesDigits(s: string)
    requires AllDigits(s)
    ensures ParseI32(s) == if Value(s) <= I32_MAX then Some(Value(s)) else None
    ensures ParseI32("+" + s) == ParseI32(s)
    ensures ParseI32("-" + s) == if Value(s) <= I32_MAX + 1 then Some(0 - Value(s)) else None
  {
    assert ("+" + s)[1..] == s && ("-" + s)[1..] == s;
    assert IsDigit(s[0]);
  }

  /** And it accepts nothing else. */
  lemma ParsesOnlyDigits(s: string)
    requires ParseI32(s).Some?
    ensures AllDigits(s) || (s != "" && (s[0] == '+' || s[0] == '-') && AllDigits(s[1..]))
  {
  }
}
