/** Addresses, prefix sets and the /24 and /64 keys that stand for a bucket of addresses. */
module IpSets {
  import opened ByteSeq

  /** A `net.IP`: any byte slice; only lengths 4 and 16 are addresses. */
  type IP = bytes

  datatype Addr = V4(b: bytes) | V6(b: bytes)

  const MAPPED_PREFIX: bytes := [0, 0, 0, 0, 0, 0, 0, 0, 0, 0, 0xff, 0xff]

  function To4(ip: IP): (r: Option<bytes>)
    ensures r.Some? ==> |r.value| == 4
  {
    if |ip| == 4 then Some(ip)
    else if |ip| == 16 && ip[..12] == MAPPED_PREFIX then Some(ip[12..])
    else None
  }

  /** The address that a byte slice stands for; IPv4 in IPv6 form is IPv4. */
  function FromStdIP(ip: IP): (r: Option<Addr>)
    ensures r.Some? ==> |r.value.b| == (if r.value.V4? then 4 else 16)
  {
    if To4(ip).Some? then Some(V4(To4(ip).value))
    else if |ip| == 16 then Some(V6(ip))
    else None
  }

  predicate Valid(ip: IP) {
    FromStdIP(ip).Some?
  }

  /** The family, and the first 24 bits of an IPv4 or the first 64 bits of an IPv6 address. */
  datatype Key = Key(family: int, bits: bytes)

  function PrefixKeyFromIP(ip: IP): Option<Key> {
    if To4(ip).Some? then Some(Key(4, To4(ip).value[..3]))
    else if |ip| == 16 then Some(Key(6, ip[..8]))
    else None
  }

  lemma KeyIffValid(ip: IP)
    ensures PrefixKeyFromIP(ip).Some? <==> Valid(ip)
    ensures Valid(ip) ==> (PrefixKeyFromIP(ip).value.family == 4 <==> FromStdIP(ip).value.V4?)
    ensures Valid(ip) ==> PrefixKeyFromIP(ip).value.family in {4, 6}
  {
  }

  // ---------------------------------------------------------------------------------------------

  function Pow2(n: nat): (r: nat)
    ensures r > 0
  {
    if n == 0 then 1 else 2 * Pow2(n - 1)
  }

  /** Bit `i` of an address, counted from the most significant. */
  function Bit(b: bytes, i: nat): int
    requires i < 8 * |b|
  {
    (b[i / 8] / Pow2(7 - i % 8)) % 2
  }

  datatype Prefix = Prefix(b: bytes, bits: nat)

  predicate WellFormed(p: Prefix, len: nat) {
    |p.b| == len && p.bits <= 8 * len
  }

  predicate InPrefix(p: Prefix, b: bytes) {
    p.bits <= 8 * |p.b| && |b| == |p.b| && forall i: nat :: i < p.bits ==> Bit(p.b, i) == Bit(b, i)
  }

  predicate Contains(ps: seq<Prefix>, b: bytes) {
    exists k :: 0 <= k < |ps| && InPrefix(ps[k], b)
  }

  /** Addresses that agree on the first bytes lie in the same prefixes no longer than those bytes. */
  lemma SamePrefixes(ps: seq<Prefix>, a: bytes, b: bytes, n: nat)
    requires |a| == |b| && n <= |a| && a[..n] == b[..n]
    requires forall k :: 0 <= k < |ps| ==> ps[k].bits <= 8 * n
    ensures Contains(ps, a) <==> Contains(ps, b)
  {
    forall k | 0 <= k < |ps|
      ensures InPrefix(ps[k], a) <==> InPrefix(ps[k], b)
    {
      forall i: nat | i < ps[k].bits
        ensures Bit(a, i) == Bit(b, i)
      {
        assert i / 8 < n && a[i / 8] == a[..n][i / 8] && b[i / 8] == b[..n][i / 8];
      }
    }
  }

  /** No prefix of the family, or only the one of length zero. */
  const NO_PREFIX := 0xff
  const ONLY_ZERO := 0xfe

  /** The prefixes of both families and the length of the longest of each. */
  datatype IPSet = IPSet(v4: seq<Prefix>, v6: seq<Prefix>, max4: int, max6: int)

  ghost predicate LongestIs(ps: seq<Prefix>, max: int) {
    if ps == [] then max == NO_PREFIX
    else if forall k :: 0 <= k < |ps| ==> ps[k].bits == 0 then max == ONLY_ZERO
    else && (forall k :: 0 <= k < |ps| ==> ps[k].bits <= max)
         && (exists k :: 0 <= k < |ps| && ps[k].bits == max)
  }

  ghost predicate ValidSet(s: IPSet) {
    && (forall k :: 0 <= k < |s.v4| ==> WellFormed(s.v4[k], 4))
    && (forall k :: 0 <= k < |s.v6| ==> WellFormed(s.v6[k], 16))
    && LongestIs(s.v4, s.max4) && LongestIs(s.v6, s.max6)
  }

  /** The length recorded for a family. */
  method Longest(ps: seq<Prefix>) returns (max: int)
    ensures LongestIs(ps, max)
  {
    var has := false;
    max := 0;
    for i := 0 to |ps|
      invariant has <==> i > 0
      invariant forall k :: 0 <= k < i ==> ps[k].bits <= max
      invariant max == 0 || exists k :: 0 <= k < i && ps[k].bits == max
      invariant max >= 0
    {
      has := true;
      if ps[i].bits > max {
        max := ps[i].bits;
      }
    }
    if !has {
      max := NO_PREFIX;
    } else if max == 0 {
      max := ONLY_ZERO;
    }
  }

  /** The set over the prefixes that the builders hand out. */
  method CreateFrom(v4: seq<Prefix>, v6: seq<Prefix>) returns (s: IPSet)
    requires forall k :: 0 <= k < |v4| ==> WellFormed(v4[k], 4)
    requires forall k :: 0 <= k < |v6| ==> WellFormed(v6[k], 16)
    ensures ValidSet(s) && s.v4 == v4 && s.v6 == v6
  {
    var max4 := Longest(v4);
    var max6 := Longest(v6);
    s := IPSet(v4, v6, max4, max6);
  }

  /** Pointwise membership, reversed or not; a family without prefixes never matches, not even reversed. */
  predicate MatchAddr(s: IPSet, reverse: bool, a: Addr) {
    match a
    case V4(b) => s.max4 != NO_PREFIX && Contains(s.v4, b) != reverse
    case V6(b) => s.max6 != NO_PREFIX && Contains(s.v6, b) != reverse
  }

  /** The prefixes of an address's family. */
  function PrefixesFor(s: IPSet, a: Addr): seq<Prefix> {
    if a.V4? then s.v4 else s.v6
  }

  /** What a matcher accepts: what some prefix of the family contains; reversed, what none does, if there are any. */
  lemma MatchMeans(s: IPSet, a: Addr)
    requires ValidSet(s)
    ensures MatchAddr(s, false, a) <==> exists p :: p in PrefixesFor(s, a) && InPrefix(p, a.b)
    ensures MatchAddr(s, true, a) <==>
              PrefixesFor(s, a) != [] && forall p :: p in PrefixesFor(s, a) ==> !InPrefix(p, a.b)
  {
    var ps := PrefixesFor(s, a);
    assert forall k :: 0 <= k < |ps| ==> ps[k] in ps;
    if Contains(ps, a.b) {
      var k :| 0 <= k < |ps| && InPrefix(ps[k], a.b);
      assert ps[k] in ps;
    }
  }

  /** A matcher and its reverse: opposite answers, but none for a family without prefixes. */
  lemma ReverseMeans(s: IPSet, reverse: bool, a: Addr)
    requires ValidSet(s)
    ensures PrefixesFor(s, a) != [] ==> (MatchAddr(s, !reverse, a) <==> !MatchAddr(s, reverse, a))
    ensures PrefixesFor(s, a) == [] ==> !MatchAddr(s, reverse, a)
  {
  }

  /** The number that the bytes spell, the first one most significant. */
  function Number(b: bytes): nat {
    if b == [] then 0 else 256 * Number(b[..|b| - 1]) + b[|b| - 1]
  }

  /** The number that the first `n` bits spell. */
  function Top(b: bytes, n: nat): nat
    requires n <= 8 * |b|
  {
    if n == 0 then 0 else 2 * Top(b, n - 1) + Bit(b, n - 1)
  }

  /** A number without its last `m` bits. */
  function Shifted(x: nat, m: nat): nat {
    if m == 0 then x else Shifted(x / 2, m - 1)
  }

  /** A prefix contains the addresses whose first bits, as a number, are its own. */
  lemma InPrefixIsNumeric(p: Prefix, b: bytes)
    requires p.bits <= 8 * |p.b| && |b| == |p.b|
    ensures InPrefix(p, b) <==> Number(b) / Pow2(8 * |b| - p.bits) == Number(p.b) / Pow2(8 * |b| - p.bits)
  {
    hide Bit, Pow2;
    Halved(Number(b), 8 * |b| - p.bits);
    Halved(Number(p.b), 8 * |b| - p.bits);
    TopIsShifted(b, p.bits);
    TopIsShifted(p.b, p.bits);
    TopDecides(p.b, b, p.bits);
  }

  lemma {:induction false} TopDecides(a: bytes, b: bytes, n: nat)
    requires |a| == |b| && n <= 8 * |a|
    ensures Top(a, n) == Top(b, n) <==> forall i: nat :: i < n ==> Bit(a, i) == Bit(b, i)
  {
    hide Pow2;
    if n > 0 {
      TopDecides(a, b, n - 1);
    }
  }

  lemma {:induction false} TopIsShifted(b: bytes, n: nat)
    requires n <= 8 * |b|
    ensures Top(b, n) == Shifted(Number(b), 8 * |b| - n)
    decreases |b|, n
  {
    hide Bit, Shifted;
    if b == [] {
      ShiftedAgain(0, 0, 0);
      return;
    }
    var front, last := b[..|b| - 1], b[|b| - 1];
    if n <= 8 * |front| {
      TopOfFront(b, n);
      TopIsShifted(front, n);
      ShiftedAgain(Number(b), 8, 8 * |front| - n);
      ByteGone(Number(front), last);
    } else {
      TopIsShifted(b, n - 1);
      var j := 8 * |b| - n;
      ShiftedAgain(Number(b), j, 1);
      ShiftedAgain(Shifted(Number(b), j), 1, 0);
      LastBit(Number(front), last, 8, j);
      BitOfByte(b, n - 1);
      assert (n - 1) / 8 == |front| && 7 - (n - 1) % 8 == j;
    }
  }

  lemma {:induction false} TopOfFront(b: bytes, n: nat)
    requires b != [] && n <= 8 * (|b| - 1)
    ensures Top(b, n) == Top(b[..|b| - 1], n)
  {
    hide Pow2;
    if n > 0 {
      TopOfFront(b, n - 1);
    }
  }

  lemma {:induction false} ShiftedAgain(x: nat, i: nat, j: nat)
    ensures Shifted(x, i + j) == Shifted(Shifted(x, i), j)
    ensures Shifted(x, 0) == x && Shifted(x, 1) == x / 2
  {
    assert Shifted(x / 2, 0) == x / 2;
    if i > 0 {
      ShiftedAgain(x / 2, i - 1, j);
    }
  }

  lemma ByteGone(front: nat, last: byte)
    ensures Shifted(256 * front + last, 8) == front
  {
    hide Shifted;
    Halved(256 * front + last, 8);
    assert Pow2(8) == 16 * Pow2(4) == 256;
  }

  /** What stands further left does not change a bit. */
  lemma {:induction false} LastBit(front: nat, last: nat, k: nat, j: nat)
    requires j < k
    ensures Shifted(Pow2(k) * front + last, j) % 2 == Shifted(last, j) % 2
    ensures k == 8 ==> Pow2(k) == 256
    decreases j
  {
    var t := Pow2(k - 1) * front;
    assert Pow2(k) * front == 2 * t;
    assert k == 8 ==> Pow2(k) == 16 * Pow2(4) == 256;
    if j > 0 {
      assert (2 * t + last) / 2 == t + last / 2;
      LastBit(front, last / 2, k - 1, j - 1);
    }
  }

  lemma BitOfByte(b: bytes, i: nat)
    requires i < 8 * |b|
    ensures Bit(b, i) == Shifted(b[i / 8], 7 - i % 8) % 2
  {
    var j := 7 - i % 8;
    Halved(b[i / 8], j);
  }

  lemma {:induction false} Halved(x: nat, j: nat)
    ensures x / Pow2(j) == Shifted(x, j)
  {
    if j > 0 {
      Halved(x / 2, j - 1);
      HalveFirst(x, Pow2(j - 1));
    }
  }

  lemma HalveFirst(x: nat, p: nat)
    requires p > 0
    ensures x / (2 * p) == x / 2 / p
  {
    var q := x / 2;
    var u, v := q / p, q % p;
    QuotientAndRest(q, p);
    Twice(p, u);
    QuotientIs(x, 2 * p, u, 2 * v + x % 2);
  }

  lemma QuotientAndRest(q: nat, p: nat)
    requires p > 0
    ensures q == p * (q / p) + q % p && 0 <= q % p < p
  {
  }

  lemma Twice(p: nat, u: nat)
    ensures (2 * p) * u == 2 * (p * u)
  {
  }

  lemma QuotientIs(x: nat, d: nat, q: nat, r: nat)
    requires d > 0 && x == d * q + r && r < d
    ensures x / d == q
  {
    QuotientAndRest(x, d);
    Difference(d, x / d, q);
    Multiple(d, x / d - q);
  }

  lemma Difference(d: nat, a: int, b: int)
    ensures d * (a - b) == d * a - d * b
  {
  }

  lemma Multiple(d: nat, e: int)
    ensures e >= 1 ==> d * e >= d
    ensures e <= -1 ==> d * e <= -(d as int)
  {
  }

  /** Whether buckets may stand for their addresses. */
  predicate Heuristic(s: IPSet, family: int) {
    (family == 4 && s.max4 <= 24) || (family == 6 && s.max6 <= 64)
  }

  /** One address decides for its whole bucket. */
  lemma BucketDecides(s: IPSet, reverse: bool, x: IP, y: IP)
    requires ValidSet(s) && Valid(x) && PrefixKeyFromIP(x) == PrefixKeyFromIP(y)
    requires Heuristic(s, PrefixKeyFromIP(x).value.family)
    ensures Valid(y)
    ensures MatchAddr(s, reverse, FromStdIP(x).value) <==> MatchAddr(s, reverse, FromStdIP(y).value)
  {
    var a, b := FromStdIP(x).value.b, FromStdIP(y).value.b;
    if To4(x).Some? {
      SamePrefixes(s.v4, a, b, 3);
    } else {
      SamePrefixes(s.v6, a, b, 8);
    }
  }

  /** The bound is tight: one bit more and a bucket can hold both a member and a stranger. */
  lemma LongerPrefixesSplitBuckets()
    ensures var s := IPSet([Prefix([10, 0, 0, 0], 25)], [], 25, NO_PREFIX);
            var x: IP, y: IP := [10, 0, 0, 0], [10, 0, 0, 128];
            && ValidSet(s) && PrefixKeyFromIP(x) == PrefixKeyFromIP(y)
            && MatchAddr(s, false, FromStdIP(x).value) && !MatchAddr(s, false, FromStdIP(y).value)
  {
    var p := Prefix([10, 0, 0, 0], 25);
    var s := IPSet([p], [], 25, NO_PREFIX);
    var x: IP, y: IP := [10, 0, 0, 0], [10, 0, 0, 128];
    assert s.v4[0] == p;
    assert InPrefix(s.v4[0], x);
    assert Pow2(0) == 1 && Pow2(1) == 2 && Pow2(2) == 4 && Pow2(3) == 8 && Pow2(4) == 16 && Pow2(5) == 32;
    assert Pow2(7) == 2 * Pow2(6) == 4 * Pow2(5) == 128;
    assert Bit(p.b, 24) == 0 && Bit(y, 24) == 1;
    assert !InPrefix(p, y);
    assert x[..3] == y[..3];
  }
}
