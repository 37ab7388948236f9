/**
 * `sql_like_match` (src/domain/reconciliation_rules.rs): a LIKE pattern is
 * compiled to an anchored regular expression. The theorem says for exactly
 * which patterns that compilation keeps the pattern's meaning.
 */
module LikePattern {
  import opened Prelude
  import opened RegexSyntax

  /** The characters the compiler escapes; braces are not among them. */
  predicate IsEscaped(c: char) {
    c in {'.', '(', ')', '[', ']', '\\', '+', '*', '?', '|', '^', '$'}
  }

  function Emit(c: char): string {
    if c == '%' then ".*"
    else if c == '_' then "."
    else if IsEscaped(c) then ['\\', c]
    else [c]
  }

  function Body(p: string): string {
    if p == "" then "" else Emit(p[0]) + Body(p[1..])
  }

  function Compiled(p: string): string {
    "^" + Body(p) + "$"
  }

  lemma BodyStep(regex: string, p: string, k: nat)
    requires k < |p|
    ensures regex + Body(p[k..]) == regex + Emit(p[k]) + Body(p[k + 1..])
  {
    assert p[k..][1..] == p[k + 1..];
  }

  /** The compiler's loop. */
  method Compile(p: string) returns (regex: string)
    ensures regex == Compiled(p)
  {
    regex := "^";
    for k := 0 to |p|
      invariant regex + Body(p[k..]) == "^" + Body(p)
    {
      var c := p[k];
      BodyStep(regex, p, k);
      if c == '%' {
        regex := regex + ".*";
      } else if c == '_' {
        regex := regex + ".";
      } else if IsEscaped(c) {
        regex := regex + ['\\', c];
      } else {
        regex := regex + [c];
      }
    }
    assert regex + "" == regex;
    regex := regex + "$";
  }

  ghost predicate SqlLikeMatch(p: string, s: string) {
    IsMatch(Compiled(p), s)
  }

  /** SQL LIKE: `%` any run, `_` any one character, everything else itself. */
  predicate Like(p: string, s: string)
    decreases |p|, |s|
  {
    if p == "" then s == ""
    else if p[0] == '%' then Like(p[1..], s) || (s != "" && Like(p, s[1..]))
    else s != "" && (p[0] == '_' || p[0] == s[0]) && Like(p[1..], s[1..])
  }

  /** LIKE whose wildcards stay within one line. */
  predicate LikeLine(p: string, s: string)
    decreases |p|, |s|
  {
    if p == "" then s == ""
    else if p[0] == '%' then LikeLine(p[1..], s) || (s != "" && s[0] != '\n' && LikeLine(p, s[1..]))
    else s != "" && (if p[0] == '_' then s[0] != '\n' else p[0] == s[0]) && LikeLine(p[1..], s[1..])
  }

  function LineFeeds(s: string): nat {
    if s == "" then 0 else (if s[0] == '\n' then 1 else 0) + LineFeeds(s[1..])
  }

  /**
   * How the two readings of LIKE relate: an accepted text has at least the line feeds of
   * the pattern, and it is accepted line by line exactly when it has no more than those.
   */
  lemma {:induction false} LineReading(p: string, s: string)
    ensures Like(p, s) ==> LineFeeds(s) >= LineFeeds(p)
    ensures LikeLine(p, s) <==> Like(p, s) && LineFeeds(s) == LineFeeds(p)
    decreases |p|, |s|
  {
    if p != "" {
      if p[0] == '%' {
        LineReading(p[1..], s);
        if s != "" { LineReading(p, s[1..]); }
      } else if s != "" {
        LineReading(p[1..], s[1..]);
      }
    }
  }

  /* ---------- patterns without an opening brace ---------- */

  function NodeOf(c: char): Node {
    if c == '%' then Repeat(Any, 0, None) else if c == '_' then Any else Lit(c)
  }

  function NodesOf(p: string): seq<Node> {
    if p == "" then [] else [NodeOf(p[0])] + NodesOf(p[1..])
  }

  lemma EmitOnto(acc: seq<Node>, c: char, rest: string)
    requires c != '{'
    ensures ParseOnto(acc, Emit(c) + rest) == ParseOnto(acc + [NodeOf(c)], rest)
  {
    if c == '%' {
      assert (".*" + rest)[1..] == "*" + rest && ("*" + rest)[1..] == rest;
      assert Wrap(acc + [Any], 0, None) == acc + [Repeat(Any, 0, None)];
    } else if c == '_' {
      assert ("." + rest)[1..] == rest;
    } else if IsEscaped(c) {
      assert (['\\', c] + rest)[2..] == rest;
    } else {
      assert ([c] + rest)[1..] == rest;
    }
  }

  lemma {:induction false} BodyParses(acc: seq<Node>, p: string)
    requires '{' !in p
    ensures ParseOnto(acc, Body(p) + "$") == Some(acc + NodesOf(p) + [Eol])
    decreases |p|
  {
    if p == "" {
      assert Body(p) + "$" == "$" && "$"[1..] == "";
      assert acc + [] + [Eol] == acc + [Eol];
    } else {
      assert Body(p) + "$" == Emit(p[0]) + (Body(p[1..]) + "$");
      EmitOnto(acc, p[0], Body(p[1..]) + "$");
      BodyParses(acc + [NodeOf(p[0])], p[1..]);
      assert acc + [NodeOf(p[0])] + NodesOf(p[1..]) + [Eol] == acc + NodesOf(p) + [Eol];
    }
  }

  /** `%` followed by p: some line-feed-free stretch is skipped, then p matches the rest. */
  lemma {:induction false} PercentSplits(p: string, s: string) returns (m: nat)
    requires p != "" && p[0] == '%' && LikeLine(p, s)
    ensures m <= |s| && '\n' !in s[..m] && LikeLine(p[1..], s[m..])
    decreases |s|
  {
    if LikeLine(p[1..], s) {
      m := 0;
      assert s[0..] == s;
    } else {
      var k := PercentSplits(p, s[1..]);
      m := k + 1;
      assert s[m..] == s[1..][k..] && s[..m] == [s[0]] + s[1..][..k];
    }
  }

  lemma {:induction false} PercentJoins(p: string, s: string, m: nat)
    requires p != "" && p[0] == '%' && m <= |s| && '\n' !in s[..m] && LikeLine(p[1..], s[m..])
    ensures LikeLine(p, s)
    decreases m
  {
    if m == 0 {
      assert s[0..] == s;
    } else {
      assert s[1..][m - 1..] == s[m..] && s[..m] == [s[0]] + s[1..][..m - 1];
      assert s[0] in s[..m];
      PercentJoins(p, s[1..], m - 1);
    }
  }

  lemma PercentSound(p: string, s: string, i: nat, m: nat)
    requires i <= m <= |s| && p != "" && p[0] == '%'
    requires Matches(Repeat(Any, 0, None), s, i, m) && LikeLine(p[1..], s[m..])
    ensures LikeLine(p, s[i..])
  {
    AnyStar(s, i, m);
    assert s[i..][..m - i] == s[i..m] && s[i..][m - i..] == s[m..];
    PercentJoins(p, s[i..], m - i);
  }

  lemma PercentComplete(p: string, s: string, i: nat) returns (m: nat)
    requires i <= |s| && p != "" && p[0] == '%' && LikeLine(p, s[i..])
    ensures i <= m <= |s| && Matches(Repeat(Any, 0, None), s, i, m) && LikeLine(p[1..], s[m..])
  {
    var t := s[i..];
    var k := PercentSplits(p, t);
    m := i + k;
    assert t[..k] == s[i..m] && t[k..] == s[m..];
    AnyStar(s, i, m);
  }

  lemma PercentCase(p: string, s: string, i: nat, j: nat)
    requires i <= j <= |s| && p != "" && p[0] == '%'
    requires forall m: nat :: i <= m <= j ==>
      (SeqMatches(NodesOf(p[1..]) + [Eol], s, m, j) <==> j == |s| && LikeLine(p[1..], s[m..]))
    ensures SeqMatches(NodesOf(p) + [Eol], s, i, j) <==> j == |s| && LikeLine(p, s[i..])
  {
    var rest := NodesOf(p[1..]) + [Eol];
    var star := Repeat(Any, 0, None);
    assert NodesOf(p) + [Eol] == [star] + rest && ([star] + rest)[1..] == rest;
    if SeqMatches([star] + rest, s, i, j) {
      var m: nat :| i <= m <= j && Matches(star, s, i, m) && SeqMatches(rest, s, m, j);
      PercentSound(p, s, i, m);
    }
    if j == |s| && LikeLine(p, s[i..]) {
      var m := PercentComplete(p, s, i);
      SeqMatchesCons(star, rest, s, i, m, j);
    }
  }

  lemma {:induction false} NodesMatchLine(p: string, s: string, i: nat, j: nat)
    requires i <= j <= |s|
    ensures SeqMatches(NodesOf(p) + [Eol], s, i, j) <==> j == |s| && LikeLine(p, s[i..])
    decreases |p|
  {
    var nodes := NodesOf(p) + [Eol];
    if p == "" {
      assert nodes == [Eol];
      if i == j == |s| { SeqMatchesCons(Eol, [], s, i, j, j); assert [Eol] + [] == [Eol]; }
    } else {
      var rest := NodesOf(p[1..]) + [Eol];
      assert nodes[1..] == rest && nodes == [NodeOf(p[0])] + rest;
      forall m: nat | i <= m <= j
        ensures SeqMatches(rest, s, m, j) <==> j == |s| && LikeLine(p[1..], s[m..])
      {
        NodesMatchLine(p[1..], s, m, j);
      }
      if p[0] == '%' {
        PercentCase(p, s, i, j);
      } else if i < |s| {
        assert s[i..][0] == s[i] && s[i..][1..] == s[i + 1..];
        if j == |s| && LikeLine(p, s[i..]) {
          SeqMatchesCons(NodeOf(p[0]), rest, s, i, i + 1, j);
        }
      }
    }
  }

  /** Without an opening brace the compiled expression means what the pattern means. */
  lemma BraceFreeFaithful(p: string, s: string)
    requires '{' !in p
    ensures SqlLikeMatch(p, s) <==> LikeLine(p, s)
  {
    var rest := NodesOf(p) + [Eol];
    assert Compiled(p)[1..] == Body(p) + "$";
    BodyParses([Bol], p);
    assert [] + [Bol] == [Bol];
    assert [Bol] + NodesOf(p) + [Eol] == [Bol] + rest && ([Bol] + rest)[1..] == rest;
    assert ParseOnto([], Compiled(p)) == Some([Bol] + rest);
    assert s[0..] == s;
    NodesMatchLine(p, s, 0, |s|);
    if SqlLikeMatch(p, s) {
      var i: nat, j: nat :| i <= j <= |s| && SeqMatches([Bol] + rest, s, i, j);
      NodesMatchLine(p, s, 0, j);
    }
    if LikeLine(p, s) {
      SeqMatchesCons(Bol, rest, s, 0, 0, |s|);
      assert SeqMatches([Bol] + rest, s, 0, |s|);
    }
  }

  /* ---------- patterns with an opening brace ---------- */

  lemma {:induction false} LikeNeedsBrace(p: string, s: string)
    requires '{' in p && Like(p, s)
    ensures '{' in s
    decreases |p|, |s|
  {
    if p[0] == '%' {
      if Like(p[1..], s) {
        LikeNeedsBrace(p[1..], s);
      } else {
        LikeNeedsBrace(p, s[1..]);
      }
    } else if p[0] != '{' {
      LikeNeedsBrace(p[1..], s[1..]);
    }
  }

  /** A shortest text the pattern accepts. */
  function Sample(p: string): string {
    if p == "" then ""
    else (if p[0] == '%' then "" else if p[0] == '_' then "x" else [p[0]]) + Sample(p[1..])
  }

  lemma {:induction false} SampleAccepted(p: string)
    ensures LikeLine(p, Sample(p))
  {
    if p != "" {
      SampleAccepted(p[1..]);
      if p[0] == '%' {
        assert Sample(p) == Sample(p[1..]);
      } else {
        assert Sample(p)[1..] == Sample(p[1..]);
      }
    }
  }

  /** `r` is what the compiler still has to emit for some rest of the pattern. */
  ghost predicate Emitted(r: string) {
    exists q: string :: r == Body(q) + "$"
  }

  lemma PlainPeels(r: string)
    requires Emitted(r) && r[0] !in {'.', '\\', '$'}
    ensures Emitted(r[1..])
  {
    var q: string :| r == Body(q) + "$";
    assert q != "";
    assert r == Emit(q[0]) + (Body(q[1..]) + "$");
    assert r[1..] == Body(q[1..]) + "$";
  }

  lemma {:induction false} SkipsEmitted(r: string)
    requires Emitted(r)
    ensures Emitted(SkipBlanks(r)) && Emitted(SkipDigits(r))
  {
    if r != "" && (IsBlank(r[0]) || IsDigit(r[0])) {
      PlainPeels(r);
      SkipsEmitted(r[1..]);
    }
  }

  lemma DecimalEmitted(r: string)
    requires Emitted(r) && Decimal(r).Some?
    ensures Emitted(Decimal(r).value.1)
  {
    SkipsEmitted(r);
    SkipsEmitted(SkipBlanks(r));
    SkipsEmitted(SkipDigits(SkipBlanks(r)));
  }

  lemma CountedEmitted(r: string)
    requires Emitted(r) && Counted(r).Some?
    ensures Emitted(Counted(r).value.rest)
  {
    DecimalEmitted(r);
    var r1 := Decimal(r).value.1;
    PlainPeels(r1);
    if r1[0] == ',' {
      var r2 := r1[1..];
      if r2[0] == '}' {
        PlainPeels(r2);
      } else {
        DecimalEmitted(r2);
        PlainPeels(Decimal(r2).value.1);
      }
    }
  }

  /** Nodes that consume text and can always do so without an opening brace. */
  predicate Plain(n: Node) {
    match n
    case Lit(c) => c != '{'
    case Any => true
    case Bol => false
    case Eol => false
    case Repeat(m, min, max) => Plain(m) && (max.Some? ==> min <= max.value)
  }

  /** The start anchor, possibly repeated. */
  predicate Anchor(n: Node) {
    match n
    case Bol => true
    case Repeat(m, min, max) => Anchor(m) && (max.Some? ==> min <= max.value)
    case _ => false
  }

  predicate Shaped(nodes: seq<Node>) {
    nodes != [] && Anchor(nodes[0]) && forall i :: 1 <= i < |nodes| ==> Plain(nodes[i])
  }

  lemma CountedRange(r: string)
    ensures Counted(r).Some? && Counted(r).value.max.Some? ==> Counted(r).value.min <= Counted(r).value.max.value
  {
  }

  /** An unescaped brace is read as a repetition of the node before it, never as a literal. */
  lemma BraceOnto(acc: seq<Node>, q: string) returns (acc': seq<Node>, q': string)
    requires Shaped(acc) && ParseOnto(acc, "{" + (Body(q) + "$")).Some?
    ensures Shaped(acc') && |Body(q')| <= |Body(q)|
    ensures ParseOnto(acc, "{" + (Body(q) + "$")) == ParseOnto(acc', Body(q') + "$")
  {
    var tail := Body(q) + "$";
    assert ("{" + tail)[1..] == tail;
    var c := Counted(tail).value;
    CountedEmitted(tail);
    CountedRange(tail);
    CountedShrinks(tail);
    q' :| c.rest == Body(q') + "$";
    acc' := Wrap(acc, c.min, c.max);
  }

  /** Whatever parses is the anchor, brace-free nodes and the end anchor. */
  lemma {:induction false} BodyShape(acc: seq<Node>, q: string)
    requires Shaped(acc) && ParseOnto(acc, Body(q) + "$").Some?
    ensures var nodes := ParseOnto(acc, Body(q) + "$").value;
            nodes != [] && nodes[|nodes| - 1] == Eol && Shaped(nodes[..|nodes| - 1])
    decreases |Body(q)|
  {
    var r := Body(q) + "$";
    if q == "" {
      assert r == "$" && "$"[1..] == "";
      assert (acc + [Eol])[..|acc|] == acc;
    } else {
      var tail := Body(q[1..]) + "$";
      assert r == Emit(q[0]) + tail;
      if q[0] != '{' {
        EmitOnto(acc, q[0], tail);
        BodyShape(acc + [NodeOf(q[0])], q[1..]);
      } else {
        var acc', q' := BraceOnto(acc, q[1..]);
        BodyShape(acc', q');
      }
    }
  }

  function Copies(x: string, k: nat): string {
    if k == 0 then "" else x + Copies(x, k - 1)
  }

  /** A shortest text the node accepts. */
  function Instance(n: Node): string {
    match n
    case Lit(c) => [c]
    case Any => "x"
    case Bol => ""
    case Eol => ""
    case Repeat(m, min, _) => Copies(Instance(m), min)
  }

  function Instances(nodes: seq<Node>): string {
    if nodes == [] then "" else Instance(nodes[0]) + Instances(nodes[1..])
  }

  lemma {:induction false} CopiesMatch(n: Node, k: nat, a: string, b: string)
    requires Plain(n)
    ensures '{' !in Copies(Instance(n), k)
    ensures Times(n, k, a + Copies(Instance(n), k) + b, |a|, |a| + |Copies(Instance(n), k)|)
    decreases n, k
  {
    if k > 0 {
      var x, more := Instance(n), Copies(Instance(n), k - 1);
      InstanceMatches(n, a, more + b);
      CopiesMatch(n, k - 1, a + x, b);
      assert a + x + (more + b) == a + Copies(x, k) + b == (a + x) + more + b;
      assert Matches(n, a + Copies(x, k) + b, |a|, |a| + |x|);
      assert Times(n, k - 1, a + Copies(x, k) + b, |a| + |x|, |a| + |Copies(x, k)|);
    }
  }

  lemma {:induction false} InstanceMatches(n: Node, a: string, b: string)
    requires Plain(n)
    ensures '{' !in Instance(n)
    ensures Matches(n, a + Instance(n) + b, |a|, |a| + |Instance(n)|)
    decreases n, 0
  {
    if n.Repeat? {
      CopiesMatch(n.node, n.min, a, b);
    }
  }

  lemma {:induction false} AnchorTimes(n: Node, k: nat, s: string)
    requires Anchor(n)
    ensures Times(n, k, s, 0, 0)
    decreases n, k
  {
    if k > 0 {
      AnchorMatches(n, s);
      AnchorTimes(n, k - 1, s);
    }
  }

  lemma {:induction false} AnchorMatches(n: Node, s: string)
    requires Anchor(n)
    ensures Matches(n, s, 0, 0)
    decreases n, 0
  {
    if n.Repeat? {
      AnchorTimes(n.node, n.min, s);
    }
  }

  lemma {:induction false} InstancesMatch(nodes: seq<Node>, a: string)
    requires forall i :: 0 <= i < |nodes| ==> Plain(nodes[i])
    ensures '{' !in Instances(nodes)
    ensures SeqMatches(nodes + [Eol], a + Instances(nodes), |a|, |a + Instances(nodes)|)
    decreases |nodes|
  {
    var s := a + Instances(nodes);
    if nodes == [] {
      SeqMatchesCons(Eol, [], s, |a|, |a|, |a|);
      assert [Eol] + [] == nodes + [Eol];
    } else {
      var x, more := Instance(nodes[0]), Instances(nodes[1..]);
      InstanceMatches(nodes[0], a, more);
      InstancesMatch(nodes[1..], a + x);
      assert a + x + more == s;
      SeqMatchesCons(nodes[0], nodes[1..] + [Eol], s, |a|, |a| + |x|, |s|);
      assert [nodes[0]] + (nodes[1..] + [Eol]) == nodes + [Eol];
    }
  }

  /** A brace-free text that the parsed expression matches. */
  lemma Misread(nodes: seq<Node>) returns (s: string)
    requires nodes != [] && nodes[|nodes| - 1] == Eol && Shaped(nodes[..|nodes| - 1])
    ensures '{' !in s && SeqMatches(nodes, s, 0, |s|)
  {
    var front := nodes[..|nodes| - 1];
    s := Instances(front[1..]);
    InstancesMatch(front[1..], "");
    assert "" + s == s;
    AnchorMatches(front[0], s);
    SeqMatchesCons(front[0], front[1..] + [Eol], s, 0, 0, |s|);
    assert nodes == [front[0]] + (front[1..] + [Eol]);
  }

  /** With an opening brace in the pattern the compiled expression is wrong on some text, in either reading. */
  lemma BraceMisread(p: string) returns (s: string)
    requires '{' in p
    ensures SqlLikeMatch(p, s) != Like(p, s) && SqlLikeMatch(p, s) != LikeLine(p, s)
  {
    var r := Compiled(p);
    assert r[1..] == Body(p) + "$" && [] + [Bol] == [Bol];
    var parsed := ParseOnto([Bol], Body(p) + "$");
    assert ParseOnto([], r) == parsed;
    if parsed == None {
      s := Sample(p);
      SampleAccepted(p);
    } else {
      BodyShape([Bol], p);
      var nodes := parsed.value;
      s := Misread(nodes);
      if Like(p, s) {
        LikeNeedsBrace(p, s);
      }
    }
    LineReading(p, s);
  }

  /* ---------- line feeds ---------- */

  predicate IsWildcard(c: char) {
    c == '%' || c == '_'
  }

  /** A text the pattern accepts, with a line feed for every wildcard. */
  function FeedSample(p: string): string {
    if p == "" then "" else [if IsWildcard(p[0]) then '\n' else p[0]] + FeedSample(p[1..])
  }

  predicate HasWildcard(p: string) {
    '%' in p || '_' in p
  }

  lemma {:induction false} FeedSampleAccepted(p: string)
    ensures Like(p, FeedSample(p)) && LineFeeds(FeedSample(p)) >= LineFeeds(p)
    ensures HasWildcard(p) ==> LineFeeds(FeedSample(p)) > LineFeeds(p)
  {
    if p != "" {
      FeedSampleAccepted(p[1..]);
      var s := FeedSample(p);
      assert s[1..] == FeedSample(p[1..]);
      if p[0] == '%' {
        assert Like(p, s[1..]);
      }
    }
  }

  lemma {:induction false} ExactWithoutWildcards(p: string, s: string)
    requires !HasWildcard(p)
    ensures Like(p, s) <==> s == p
    decreases |p|
  {
    if p != "" && s != "" {
      ExactWithoutWildcards(p[1..], s[1..]);
      assert p == [p[0]] + p[1..] && s == [s[0]] + s[1..];
    }
  }

  /**
   * What the matcher computes for a pattern without an opening brace, on every text: LIKE,
   * restricted to texts with exactly as many line feeds as the pattern itself.
   */
  lemma MatchesExactly(p: string, s: string)
    requires '{' !in p
    ensures SqlLikeMatch(p, s) <==> Like(p, s) && LineFeeds(s) == LineFeeds(p)
  {
    BraceFreeFaithful(p, s);
    LineReading(p, s);
  }

  /** A wildcard does not cross a line feed: this text is accepted by LIKE and not by the matcher. */
  lemma FeedMisread(p: string) returns (s: string)
    requires '{' !in p && HasWildcard(p)
    ensures Like(p, s) && !SqlLikeMatch(p, s)
  {
    s := FeedSample(p);
    FeedSampleAccepted(p);
    MatchesExactly(p, s);
  }

  /**
   * The matcher is SQL LIKE on every text exactly for the patterns that have no opening
   * brace and no wildcard, that is, for plain equality.
   */
  lemma FaithfulExactly(p: string)
    ensures (forall s :: SqlLikeMatch(p, s) <==> Like(p, s)) <==> '{' !in p && !HasWildcard(p)
  {
    if '{' in p {
      var s := BraceMisread(p);
      assert SqlLikeMatch(p, s) != Like(p, s);
    } else if HasWildcard(p) {
      var s := FeedMisread(p);
      assert SqlLikeMatch(p, s) != Like(p, s);
    } else {
      forall s ensures SqlLikeMatch(p, s) <==> Like(p, s) {
        MatchesExactly(p, s);
        ExactWithoutWildcards(p, s);
      }
    }
  }

  /** With wildcards read within a line, it is right on every text exactly for the patterns without an opening brace. */
  lemma LineFaithfulExactly(p: string)
    ensures (forall s :: SqlLikeMatch(p, s) <==> LikeLine(p, s)) <==> '{' !in p
  {
    if '{' in p {
      var s := BraceMisread(p);
      assert SqlLikeMatch(p, s) != LikeLine(p, s);
    } else {
      forall s ensures SqlLikeMatch(p, s) <==> LikeLine(p, s) {
        BraceFreeFaithful(p, s);
      }
    }
  }

  lemma {:induction false} NoFeeds(s: string)
    ensures '\n' !in s <==> LineFeeds(s) == 0
  {
    if s != "" { NoFeeds(s[1..]); }
  }

  /** On text with no more line feeds than the pattern, none in particular, a brace-free pattern is SQL LIKE. */
  lemma FaithfulOnLines(p: string, s: string)
    requires '{' !in p && ('\n' !in s || LineFeeds(s) <= LineFeeds(p))
    ensures SqlLikeMatch(p, s) <==> Like(p, s)
  {
    MatchesExactly(p, s);
    NoFeeds(s);
    LineReading(p, s);
  }
}
