/**
 * The canonical byte form of an audit row (src/audit/chain.rs): flag bytes for
 * optional fields, 8-byte little-endian lengths, 16-byte ids, and an 8-byte
 * two's-complement timestamp. JSON values are taken as their serialized bytes.
 */
module AuditEncoding {
  import opened Prelude

  type Byte = x: int | 0 <= x < 256

  type Bytes = seq<Byte>

  const U64 := 0x1_0000_0000_0000_0000
  const I64_MAX := 0x7FFF_FFFF_FFFF_FFFF

  /** Bytes in a length or a timestamp. */
  const WORD: nat := 8

  /** The hashed columns of an audit row. */
  datatype Content = Content(
    ledgerId: Option<Bytes>,
    actorId: Bytes,
    action: Bytes,
    entityType: Bytes,
    entityId: Option<Bytes>,
    oldValue: Option<Bytes>,
    newValue: Option<Bytes>,
    createdAt: int)

  predicate IsUuid(b: Bytes) {
    |b| == 16
  }

  predicate Fits(b: Bytes) {
    |b| < U64
  }

  /** What the column and machine types guarantee: 16-byte ids, 64-bit lengths and timestamp. */
  predicate WellFormed(c: Content) {
    && IsUuid(c.actorId)
    && (c.ledgerId.Some? ==> IsUuid(c.ledgerId.value))
    && (c.entityId.Some? ==> IsUuid(c.entityId.value))
    && Fits(c.action) && Fits(c.entityType)
    && (c.oldValue.Some? ==> Fits(c.oldValue.value))
    && (c.newValue.Some? ==> Fits(c.newValue.value))
    && -I64_MAX - 1 <= c.createdAt <= I64_MAX
  }

  /** k little-endian bytes of n, wrapping; division floors, so negatives come out in two's complement. */
  function Le(n: int, k: nat): (b: Bytes)
    ensures |b| == k
    decreases k
  {
    if k == 0 then [] else [n % 256] + Le(n / 256, k - 1)
  }

  function FromLe(b: Bytes): nat {
    if b == [] then 0 else b[0] + 256 * FromLe(b[1..])
  }

  function EncOptUuid(v: Option<Bytes>): Bytes {
    match v
    case Some(u) => [1] + u
    case None => [0]
  }

  function EncStr(s: Bytes): Bytes {
    Le(|s|, WORD) + s
  }

  function EncOptJson(v: Option<Bytes>): Bytes {
    match v
    case Some(j) => [1] + EncStr(j)
    case None => [0]
  }

  function Canonical(c: Content): Bytes {
    EncOptUuid(c.ledgerId) + (c.actorId + (EncStr(c.action) + (EncStr(c.entityType) + (EncOptUuid(c.entityId)
    + (EncOptJson(c.oldValue) + (EncOptJson(c.newValue) + Le(c.createdAt, WORD)))))))
  }

  lemma Associate(a: Bytes, b: Bytes, c: Bytes)
    ensures a + b + c == a + (b + c)
  {
  }

  /** The buffer the push helpers write to. */
  class ByteBuffer {
    var out: Bytes

    constructor ()
      ensures out == []
    {
      out := [];
    }

    method Extend(b: Bytes)
      modifies this
      ensures out == old(out) + b
    {
      out := out + b;
    }

    method PushOptUuid(v: Option<Bytes>)
      modifies this
      ensures out == old(out) + EncOptUuid(v)
    {
      match v
      case Some(u) =>
        out := out + [1];
        out := out + u;
      case None =>
        out := out + [0];
    }

    method PushStr(s: Bytes)
      modifies this
      ensures out == old(out) + EncStr(s)
    {
      out := out + Le(|s|, WORD);
      out := out + s;
    }

    method PushOptJson(v: Option<Bytes>)
      modifies this
      ensures out == old(out) + EncOptJson(v)
    {
      match v
      case Some(j) =>
        ghost var before := out;
        out := out + [1];
        PushStr(j);
        Associate(before, [1], EncStr(j));
      case None =>
        out := out + [0];
    }
  }

  lemma Reassociate(a: Bytes, b: Bytes, c: Bytes, d: Bytes, e: Bytes, f: Bytes, g: Bytes, h: Bytes)
    ensures [] + a + b + c + d + e + f + g + h == a + (b + (c + (d + (e + (f + (g + h))))))
  {
  }

  method CanonicalBytes(c: Content) returns (r: Bytes)
    ensures r == Canonical(c)
  {
    var b := new ByteBuffer();
    b.PushOptUuid(c.ledgerId);
    b.Extend(c.actorId);
    b.PushStr(c.action);
    b.PushStr(c.entityType);
    b.PushOptUuid(c.entityId);
    b.PushOptJson(c.oldValue);
    b.PushOptJson(c.newValue);
    b.Extend(Le(c.createdAt, WORD));
    r := b.out;
    Reassociate(EncOptUuid(c.ledgerId), c.actorId, EncStr(c.action), EncStr(c.entityType),
                EncOptUuid(c.entityId), EncOptJson(c.oldValue), EncOptJson(c.newValue), Le(c.createdAt, WORD));
  }

  /* ---------- decoding ---------- */

  function Take(b: Bytes, n: nat): Option<(Bytes, Bytes)> {
    if |b| >= n then Some((b[..n], b[n..])) else None
  }

  function DecOptUuid(b: Bytes): Option<(Option<Bytes>, Bytes)> {
    if b == [] then None
    else if b[0] == 0 then Some((None, b[1..]))
    else if b[0] == 1 then
      var (u, rest) :- Take(b[1..], 16);
      Some((Some(u), rest))
    else None
  }

  function DecStr(b: Bytes): Option<(Bytes, Bytes)> {
    var (len, rest) :- Take(b, WORD);
    Take(rest, FromLe(len))
  }

  function DecOptJson(b: Bytes): Option<(Option<Bytes>, Bytes)> {
    if b == [] then None
    else if b[0] == 0 then Some((None, b[1..]))
    else if b[0] == 1 then
      var (j, rest) :- DecStr(b[1..]);
      Some((Some(j), rest))
    else None
  }

  function Signed(n: nat): int {
    if n > I64_MAX then n - U64 else n
  }

  /** Reads the eight fields back and insists that nothing is left over. */
  function Decode(b: Bytes): Option<Content> {
    var (ledgerId, b1) :- DecOptUuid(b);
    var (actorId, b2) :- Take(b1, 16);
    var (action, b3) :- DecStr(b2);
    var (entityType, b4) :- DecStr(b3);
    var (entityId, b5) :- DecOptUuid(b4);
    var (oldValue, b6) :- DecOptJson(b5);
    var (newValue, b7) :- DecOptJson(b6);
    if |b7| == WORD then
      Some(Content(ledgerId, actorId, action, entityType, entityId, oldValue, newValue, Signed(FromLe(b7))))
    else None
  }

  function Pow256(k: nat): (p: nat)
    ensures p > 0
  {
    if k == 0 then 1 else 256 * Pow256(k - 1)
  }

  lemma {:induction false} LeOfNat(n: nat, k: nat)
    requires n < Pow256(k)
    ensures FromLe(Le(n, k)) == n
  {
    if k > 0 {
      LeOfNat(n / 256, k - 1);
      assert Le(n, k)[1..] == Le(n / 256, k - 1);
    }
  }

  /** Adding 256^k does not change the low k bytes. */
  lemma {:induction false} LeWraps(n: int, k: nat)
    ensures Le(n + Pow256(k), k) == Le(n, k)
    decreases k
  {
    if k > 0 {
      LeWraps(n / 256, k - 1);
      assert (n + 256 * Pow256(k - 1)) / 256 == n / 256 + Pow256(k - 1);
      assert (n + 256 * Pow256(k - 1)) % 256 == n % 256;
    }
  }

  lemma SplitLow(low: Byte, high: nat)
    ensures (low + 256 * high) % 256 == low && (low + 256 * high) / 256 == high
  {
  }

  lemma Grows(m: int, a: int, b: int)
    requires m > 0 && a < b
    ensures m * a + m <= m * b
  {
    assert m * (b - a - 1) >= 0;
    assert m * (b - a - 1) == m * b - m * a - m;
  }

  lemma Quotient(n: int, m: int, q: int, r: int)
    requires n == m * q + r && 0 <= r < m
    ensures n / m == q
  {
    var k, t := n / m, n % m;
    assert n == m * k + t && 0 <= t < m;
    if k < q {
      Grows(m, k, q);
    } else if q < k {
      Grows(m, q, k);
    }
  }

  lemma DivDiv(n: int, a: nat)
    requires a > 0
    ensures n / 256 / a == n / (256 * a)
  {
    var q := n / 256 / a;
    var r := 256 * (n / 256 - a * q) + n % 256;
    assert n / 256 == a * q + (n / 256) % a;
    assert 0 <= r < 256 * a;
    assert 256 * a * q == 256 * (a * q);
    Quotient(n, 256 * a, q, r);
  }

  lemma NextByte(n: int, k: nat, i: nat)
    requires 0 < i < k
    ensures Le(n, k)[i] == Le(n / 256, k - 1)[i - 1]
  {
  }

  /** Byte i of the little-endian form is the i-th digit of n to base 256. */
  lemma {:induction false} LeDigits(n: int, k: nat, i: nat)
    requires i < k
    ensures Le(n, k)[i] == (n / Pow256(i)) % 256
    decreases k
  {
    if i > 0 {
      LeDigits(n / 256, k - 1, i - 1);
      DivDiv(n, Pow256(i - 1));
      NextByte(n, k, i);
    }
  }

  lemma {:induction false} FromLeInverse(b: Bytes)
    ensures FromLe(b) < Pow256(|b|) && Le(FromLe(b), |b|) == b
  {
    if b != [] {
      FromLeInverse(b[1..]);
      SplitLow(b[0], FromLe(b[1..]));
      assert b == [b[0]] + b[1..];
    }
  }

  lemma Pow256Is64Bits()
    ensures Pow256(WORD) == U64
  {
    assert Pow256(4) == 0x1_0000_0000 by {
      assert Pow256(2) == 0x1_0000;
    }
    assert Pow256(6) == 0x1_0000_0000_0000;
  }

  lemma TimestampRoundTrip(t: int)
    requires -I64_MAX - 1 <= t <= I64_MAX
    ensures Signed(FromLe(Le(t, WORD))) == t
  {
    Pow256Is64Bits();
    if t >= 0 {
      LeOfNat(t, WORD);
    } else {
      LeWraps(t, WORD);
      LeOfNat(t + U64, WORD);
    }
  }

  lemma OptUuidRoundTrip(v: Option<Bytes>, rest: Bytes)
    requires v.Some? ==> IsUuid(v.value)
    ensures DecOptUuid(EncOptUuid(v) + rest) == Some((v, rest))
  {
    match v
    case Some(u) =>
      assert ([1] + u + rest)[1..] == u + rest;
      assert (u + rest)[..16] == u && (u + rest)[16..] == rest;
    case None =>
      assert ([0] + rest)[1..] == rest;
  }

  lemma StrLayout(len: Bytes, s: Bytes, rest: Bytes)
    requires |len| == WORD && FromLe(len) == |s|
    ensures DecStr(len + s + rest) == Some((s, rest))
  {
    var b := len + s + rest;
    assert b[..WORD] == len && b[WORD..] == s + rest;
    assert (s + rest)[..|s|] == s && (s + rest)[|s|..] == rest;
  }

  lemma StrRoundTrip(s: Bytes, rest: Bytes)
    requires Fits(s)
    ensures DecStr(EncStr(s) + rest) == Some((s, rest))
  {
    assert FromLe(Le(|s|, WORD)) == |s| by {
      Pow256Is64Bits();
      LeOfNat(|s|, WORD);
    }
    StrLayout(Le(|s|, WORD), s, rest);
  }

  lemma AfterFlag(flag: Byte, s: Bytes, rest: Bytes)
    ensures var b := [flag] + s + rest; b != [] && b[0] == flag && b[1..] == s + rest
  {
  }

  lemma OptJsonRoundTrip(v: Option<Bytes>, rest: Bytes)
    requires v.Some? ==> Fits(v.value)
    ensures DecOptJson(EncOptJson(v) + rest) == Some((v, rest))
  {
    match v
    case Some(j) =>
      StrRoundTrip(j, rest);
      AfterFlag(1, EncStr(j), rest);
    case None =>
      assert ([0] + rest)[1..] == rest;
  }

  /** Every well-formed row content is recovered from its encoding. */
  lemma DecodeCanonical(c: Content)
    requires WellFormed(c)
    ensures Decode(Canonical(c)) == Some(c)
  {
    var b7 := Le(c.createdAt, WORD);
    var b6 := EncOptJson(c.newValue) + b7;
    var b5 := EncOptJson(c.oldValue) + b6;
    var b4 := EncOptUuid(c.entityId) + b5;
    var b3 := EncStr(c.entityType) + b4;
    var b2 := EncStr(c.action) + b3;
    var b1 := c.actorId + b2;
    OptUuidRoundTrip(c.ledgerId, b1);
    assert b1[..16] == c.actorId && b1[16..] == b2;
    StrRoundTrip(c.action, b3);
    StrRoundTrip(c.entityType, b4);
    OptUuidRoundTrip(c.entityId, b5);
    OptJsonRoundTrip(c.oldValue, b6);
    OptJsonRoundTrip(c.newValue, b7);
    TimestampRoundTrip(c.createdAt);
  }

  /** Rows that differ in any field never share an encoding. */
  lemma CanonicalInjective(c: Content, d: Content)
    requires WellFormed(c) && WellFormed(d) && Canonical(c) == Canonical(d)
    ensures c == d
  {
    DecodeCanonical(c);
    DecodeCanonical(d);
  }

  lemma OptUuidExact(b: Bytes)
    requires DecOptUuid(b).Some?
    ensures var (v, rest) := DecOptUuid(b).value;
            (v.Some? ==> IsUuid(v.value)) && b == EncOptUuid(v) + rest
  {
    if b[0] == 1 {
      assert b == [b[0]] + (b[1..][..16] + b[1..][16..]);
    }
  }

  lemma Regroup(b: Bytes, n: nat)
    requires |b| >= WORD + n
    ensures |b[WORD..][..n]| == n && b == b[..WORD] + b[WORD..][..n] + b[WORD..][n..]
  {
  }

  lemma StrExact(b: Bytes)
    requires DecStr(b).Some?
    ensures var (s, rest) := DecStr(b).value; Fits(s) && b == EncStr(s) + rest
  {
    var len, tail := b[..WORD], b[WORD..];
    var n := FromLe(len);
    assert Le(n, WORD) == len && n < U64 by {
      FromLeInverse(len);
      Pow256Is64Bits();
    }
    Regroup(b, n);
  }

  lemma Flagged(b: Bytes, e: Bytes, rest: Bytes)
    requires b != [] && b[1..] == e + rest
    ensures b == [b[0]] + e + rest
  {
  }

  lemma OptJsonExact(b: Bytes)
    requires DecOptJson(b).Some?
    ensures var (v, rest) := DecOptJson(b).value;
            (v.Some? ==> Fits(v.value)) && b == EncOptJson(v) + rest
  {
    if b[0] == 1 {
      StrExact(b[1..]);
      var (s, rest) := DecStr(b[1..]).value;
      Flagged(b, EncStr(s), rest);
    }
  }

  lemma LeUnwraps(n: int, k: nat)
    ensures Le(n - Pow256(k), k) == Le(n, k)
  {
    LeWraps(n - Pow256(k), k);
  }

  lemma SignedLe(n: nat, k: nat)
    requires n < Pow256(k) == U64
    ensures -I64_MAX - 1 <= Signed(n) <= I64_MAX && Le(Signed(n), k) == Le(n, k)
  {
    LeUnwraps(n, k);
  }

  lemma TimestampExact(b: Bytes)
    requires |b| == WORD
    ensures var t := Signed(FromLe(b)); -I64_MAX - 1 <= t <= I64_MAX && Le(t, |b|) == b
  {
    FromLeInverse(b);
    Pow256Is64Bits();
    SignedLe(FromLe(b), |b|);
  }

  /** Only encodings decode: the decoder accepts no second spelling of a row. */
  lemma DecodeExact(b: Bytes)
    requires Decode(b).Some?
    ensures WellFormed(Decode(b).value) && Canonical(Decode(b).value) == b
  {
    var (ledgerId, b1) := DecOptUuid(b).value;
    OptUuidExact(b);
    var (actorId, b2) := Take(b1, 16).value;
    assert b1 == actorId + b2;
    var (action, b3) := DecStr(b2).value;
    StrExact(b2);
    var (entityType, b4) := DecStr(b3).value;
    StrExact(b3);
    var (entityId, b5) := DecOptUuid(b4).value;
    OptUuidExact(b4);
    var (oldValue, b6) := DecOptJson(b5).value;
    OptJsonExact(b5);
    var (newValue, b7) := DecOptJson(b6).value;
    OptJsonExact(b6);
    TimestampExact(b7);
  }

  lemma Placed(a: Bytes, b: Bytes, rest: Bytes)
    ensures (a + (b + rest))[|a|..|a| + |b|] == b && (a + (b + rest))[|a| + |b|..] == rest
  {
  }

  lemma StartsWith(front: Bytes, len: Bytes, s: Bytes, rest: Bytes)
    ensures var b := front + (len + s + rest);
            && b[|front|..|front| + |len|] == len
            && b[|front| + |len|..|front| + |len| + |s|] == s
  {
  }

  /** Where the fixed parts stand: ledger flag and id, actor id, then the length and bytes of the action. */
  lemma CanonicalStart(c: Content)
    requires WellFormed(c)
    ensures var b, o := Canonical(c), if c.ledgerId.Some? then 17 else 1;
            && |b| > o + 24 + |c.action|
            && b[0] == (if c.ledgerId.Some? then 1 else 0)
            && (c.ledgerId.Some? ==> b[1..17] == c.ledgerId.value)
            && b[o..o + 16] == c.actorId
            && b[o + 16..o + 24] == Le(|c.action|, WORD)
            && b[o + 24..o + 24 + |c.action|] == c.action
  {
    var ledger, action := EncOptUuid(c.ledgerId), EncStr(c.action);
    var rest := EncStr(c.entityType) + (EncOptUuid(c.entityId)
                + (EncOptJson(c.oldValue) + (EncOptJson(c.newValue) + Le(c.createdAt, WORD))));
    Placed(ledger, c.actorId, action + rest);
    StartsWith(ledger + c.actorId, Le(|c.action|, WORD), c.action, rest);
    assert Canonical(c) == ledger + c.actorId + (Le(|c.action|, WORD) + c.action + rest);
  }
}
