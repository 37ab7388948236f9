/**
 * The part of the `regex` crate's language that matters to
 * src/domain/reconciliation_rules.rs: literals, escapes, `.`, `*`, counted
 * repetition and the two anchors, with a parser and a matching relation.
 * Any other operator is outside this fragment and does not parse here.
 */
module RegexSyntax {
  import opened Prelude

  datatype Node =
    | Lit(c: char)
    | Any
    | Bol
    | Eol
    | Repeat(node: Node, min: nat, max: Option<nat>)

  predicate IsMeta(c: char) {
    c in {'.', '(', ')', '[', ']', '{', '}', '\\', '+', '*', '?', '|', '^', '$'}
  }

  predicate IsDigit(c: char) {
    '0' <= c <= '9'
  }

  /** `char::is_whitespace`. */
  predicate IsBlank(c: char) {
    || '\t' <= c <= '\r' || c == ' ' || c == '\U{85}' || c == '\U{A0}' || c == '\U{1680}'
    || '\U{2000}' <= c <= '\U{200A}' || c in {'\U{2028}', '\U{2029}', '\U{202F}', '\U{205F}', '\U{3000}'}
  }

  function SkipBlanks(r: string): string {
    if r != "" && IsBlank(r[0]) then SkipBlanks(r[1..]) else r
  }

  function SkipDigits(r: string): string {
    if r != "" && IsDigit(r[0]) then SkipDigits(r[1..]) else r
  }

  function DigitsValue(r: string, acc: nat): nat {
    if r != "" && IsDigit(r[0]) then DigitsValue(r[1..], 10 * acc + (r[0] as int - '0' as int)) else acc
  }

  /** A decimal with blanks around it: its value and the text after it. */
  function Decimal(r: string): Option<(nat, string)> {
    var d := SkipBlanks(r);
    if d == "" || !IsDigit(d[0]) || DigitsValue(d, 0) >= 0x1_0000_0000 then None
    else Some((DigitsValue(d, 0), SkipBlanks(SkipDigits(d))))
  }

  datatype Count = Count(min: nat, max: Option<nat>, rest: string)

  /** What follows an opening brace: `n}`, `n,}` or `n,m}` with n <= m; blanks only around a number. */
  function Counted(r: string): Option<Count> {
    match Decimal(r)
    case None => None
    case Some((n, r1)) =>
      if r1 != "" && r1[0] == '}' then Some(Count(n, Some(n), r1[1..]))
      else if r1 == "" || r1[0] != ',' then None
      else
        var r2 := r1[1..];
        if r2 != "" && r2[0] == '}' then Some(Count(n, None, r2[1..]))
        else
          match Decimal(r2)
          case None => None
          case Some((m, r3)) =>
            if r3 != "" && r3[0] == '}' && n <= m then Some(Count(n, Some(m), r3[1..])) else None
  }

  lemma {:induction false} SkipsShrink(r: string)
    ensures |SkipBlanks(r)| <= |r| && |SkipDigits(r)| <= |r|
  {
    if r != "" { SkipsShrink(r[1..]); }
  }

  lemma DecimalShrinks(r: string)
    ensures Decimal(r).Some? ==> |Decimal(r).value.1| <= |r|
  {
    SkipsShrink(r);
    SkipsShrink(SkipBlanks(r));
    SkipsShrink(SkipDigits(SkipBlanks(r)));
  }

  lemma CountedShrinks(r: string)
    ensures Counted(r).Some? ==> |Counted(r).value.rest| < |r|
  {
    DecimalShrinks(r);
    if Decimal(r).Some? && Decimal(r).value.1 != "" {
      var r1 := Decimal(r).value.1;
      DecimalShrinks(r1[1..]);
    }
  }

  /** Replace the last node by a repetition of it. */
  function Wrap(acc: seq<Node>, min: nat, max: Option<nat>): (r: seq<Node>)
    requires acc != []
    ensures |r| == |acc|
  {
    acc[|acc| - 1 := Repeat(acc[|acc| - 1], min, max)]
  }

  /** Left-to-right parse of `r` onto the nodes already read; None is a compile error. */
  function ParseOnto(acc: seq<Node>, r: string): Option<seq<Node>>
    decreases |r|
  {
    if r == "" then Some(acc)
    else if r[0] == '\\' then
      if |r| >= 2 && IsMeta(r[1]) then ParseOnto(acc + [Lit(r[1])], r[2..]) else None
    else if r[0] == '.' then ParseOnto(acc + [Any], r[1..])
    else if r[0] == '^' then ParseOnto(acc + [Bol], r[1..])
    else if r[0] == '$' then ParseOnto(acc + [Eol], r[1..])
    else if r[0] == '*' then
      if acc == [] then None else ParseOnto(Wrap(acc, 0, None), r[1..])
    else if r[0] == '{' then
      CountedShrinks(r[1..]);
      match Counted(r[1..])
      case None => None
      case Some(Count(min, max, rest)) => if acc == [] then None else ParseOnto(Wrap(acc, min, max), rest)
    else if r[0] in {'+', '?', '(', ')', '[', '|'} then None
    else ParseOnto(acc + [Lit(r[0])], r[1..])
  }

  /** k consecutive matches of the node cover s[i..j]. */
  ghost predicate Times(n: Node, k: nat, s: string, i: nat, j: nat)
    requires i <= j <= |s|
    decreases n, k
  {
    if k == 0 then i == j
    else exists m: nat :: i <= m <= j && Matches(n, s, i, m) && Times(n, k - 1, s, m, j)
  }

  /** The node matches s[i..j]; `.` does not match a line feed. */
  ghost predicate Matches(n: Node, s: string, i: nat, j: nat)
    requires i <= j <= |s|
    decreases n, 0
  {
    match n
    case Lit(c) => j == i + 1 && s[i] == c
    case Any => j == i + 1 && s[i] != '\n'
    case Bol => i == j == 0
    case Eol => i == j == |s|
    case Repeat(m, min, max) =>
      exists k: nat :: min <= k && (max.Some? ==> k <= max.value) && Times(m, k, s, i, j)
  }

  ghost predicate SeqMatches(nodes: seq<Node>, s: string, i: nat, j: nat)
    requires i <= j <= |s|
    decreases |nodes|
  {
    if nodes == [] then i == j
    else exists m: nat :: i <= m <= j && Matches(nodes[0], s, i, m) && SeqMatches(nodes[1..], s, m, j)
  }

  /** `Regex::new(r).map(|r| r.is_match(s)).unwrap_or(false)`: an unanchored search. */
  ghost predicate IsMatch(r: string, s: string) {
    var nodes := ParseOnto([], r);
    nodes.Some? && exists i: nat, j: nat :: i <= j <= |s| && SeqMatches(nodes.value, s, i, j)
  }

  lemma SeqMatchesCons(n: Node, nodes: seq<Node>, s: string, i: nat, m: nat, j: nat)
    requires i <= m <= j <= |s| && Matches(n, s, i, m) && SeqMatches(nodes, s, m, j)
    ensures SeqMatches([n] + nodes, s, i, j)
  {
    assert ([n] + nodes)[1..] == nodes;
  }

  /** `.*` covers exactly the stretches without a line feed. */
  lemma {:induction false} AnyTimes(k: nat, s: string, i: nat, j: nat)
    requires i <= j <= |s|
    ensures Times(Any, k, s, i, j) <==> j == i + k && '\n' !in s[i..j]
  {
    if k > 0 {
      if i < j {
        AnyTimes(k - 1, s, i + 1, j);
        assert s[i..j] == [s[i]] + s[i + 1..j];
        if j == i + k && '\n' !in s[i..j] {
          assert Matches(Any, s, i, i + 1) && Times(Any, k - 1, s, i + 1, j);
        }
      }
    }
  }

  lemma AnyStar(s: string, i: nat, j: nat)
    requires i <= j <= |s|
    ensures Matches(Repeat(Any, 0, None), s, i, j) <==> '\n' !in s[i..j]
  {
    AnyTimes(j - i, s, i, j);
    if Matches(Repeat(Any, 0, None), s, i, j) {
      var k: nat :| Times(Any, k, s, i, j);
      AnyTimes(k, s, i, j);
    }
  }
}
