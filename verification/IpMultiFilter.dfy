/** Splitting a list of addresses by several heuristic matchers at once. */
module IpMultiFilters {
  import opened ByteSeq
  import opened IpSets
  import opened IpMatchers
  import opened IpMultiMatchers

  /** The addresses that a list stands for. */
  ghost function AddrsOf(ips: seq<IP>): set<Addr> {
    set ip | ip in ips && Valid(ip) :: FromStdIP(ip).value
  }

  /** One of the first `j` matchers accepts the address. */
  ghost predicate AcceptedBy(ms: seq<HeuristicIPMatcher>, j: int, ip: IP)
    reads ms
  {
    exists i :: 0 <= i < j <= |ms| && ms[i].Accepts(ip)
  }

  /** One of the first `j` matchers that look at the family through this kind of view accepts the address. */
  ghost predicate AcceptedIn(ms: seq<HeuristicIPMatcher>, j: int, family: int, byBuckets: bool, ip: IP)
    reads ms
  {
    exists i :: 0 <= i < j <= |ms| && Heuristic(ms[i].ipset, family) == byBuckets && ms[i].Accepts(ip)
  }

  lemma AcceptedInMore(ms: seq<HeuristicIPMatcher>, j: nat, family: int)
    requires j < |ms|
    ensures forall h, ip :: AcceptedIn(ms, j, family, h, ip) ==> AcceptedIn(ms, j + 1, family, h, ip)
  {
    hide Heuristic;
  }

  /** A bucket still open has not been accepted by a matcher that looks at buckets; a closed one was, and is out. */
  ghost predicate BucketEntry(ips: seq<IP>, ms: seq<HeuristicIPMatcher>, j: int, family: int, k: Key,
                              e: Option<Bucket>, out: seq<IP>)
    reads ms
  {
    match e
    case Some(b) =>
      && PrefixKeyFromIP(b.rep) == Some(k) && b.ips == WithKey(ips, k)
      && forall i :: 0 <= i < j <= |ms| && Heuristic(ms[i].ipset, family) ==> !ms[i].Accepts(b.rep)
    case None =>
      forall ip :: ip in ips && PrefixKeyFromIP(ip) == Some(k) ==> AcceptedIn(ms, j, family, true, ip) && ip in out
  }

  ghost predicate PreciseEntry(ips: seq<IP>, ms: seq<HeuristicIPMatcher>, j: int, family: int, a: Addr,
                               e: Option<IP>, out: seq<IP>)
    reads ms
  {
    match e
    case Some(ip) =>
      && ip in ips && FromStdIP(ip) == Some(a)
      && forall i :: 0 <= i < j <= |ms| && !Heuristic(ms[i].ipset, family) ==> !ms[i].Accepts(ip)
    case None =>
      (forall ip :: ip in ips && FromStdIP(ip) == Some(a) ==> AcceptedIn(ms, j, family, false, ip)) && a in AddrsOf(out)
  }

  class FilterViews {
    const family: int
    var buckets: Option<map<Key, Option<Bucket>>>
    var precise: Option<map<Addr, Option<IP>>>

    constructor (family: int)
      ensures this.family == family && buckets.None? && precise.None?
    {
      this.family := family;
      buckets, precise := None, None;
    }

    /** The views after the first `j` matchers, with `out` accepted so far. */
    ghost predicate ValidFor(ips: seq<IP>, ms: seq<HeuristicIPMatcher>, j: int, out: seq<IP>)
      reads this, ms
    {
      && 0 <= j <= |ms|
      && (buckets.None? ==> forall i :: 0 <= i < j ==> !Heuristic(ms[i].ipset, family))
      && (precise.None? ==> forall i :: 0 <= i < j ==> Heuristic(ms[i].ipset, family))
      && (buckets.Some? ==>
            && (exists i :: 0 <= i < |ms| && Heuristic(ms[i].ipset, family))
            && (forall k :: k in buckets.value ==>
                k.family == family && BucketEntry(ips, ms, j, family, k, buckets.value[k], out))
            && (forall ip :: ip in ips && InFamily(ip, family) ==> PrefixKeyFromIP(ip).value in buckets.value))
      && (precise.Some? ==>
            && (exists i :: 0 <= i < |ms| && !Heuristic(ms[i].ipset, family))
            && (forall a :: a in precise.value ==> PreciseEntry(ips, ms, j, family, a, precise.value[a], out))
            && (forall a :: a in precise.value && precise.value[a].Some? ==> InFamily(precise.value[a].value, family))
            && (forall ip :: ip in ips && InFamily(ip, family) ==>
                FromStdIP(ip).Some? && FromStdIP(ip).value in precise.value))
    }

    /** Collects the buckets of the family. */
    method BuildBuckets(ips: seq<IP>) returns (b: map<Key, Option<Bucket>>)
      ensures forall k :: k in b ==>
                k.family == family && b[k].Some? && PrefixKeyFromIP(b[k].value.rep) == Some(k)
                  && b[k].value.ips == WithKey(ips, k)
      ensures forall ip :: ip in ips && InFamily(ip, family) ==> PrefixKeyFromIP(ip).value in b
    {
      hide PrefixKeyFromIP;
      b := map[];
      for i := 0 to |ips|
        invariant forall k :: k in b ==>
                    && k.family == family && b[k].Some? && PrefixKeyFromIP(b[k].value.rep) == Some(k)
                    && b[k].value.ips == WithKey(ips[..i], k)
        invariant forall m :: 0 <= m < i && InFamily(ips[m], family) ==> PrefixKeyFromIP(ips[m]).value in b
      {
        var ip := ips[i];
        assert ips[..i + 1][..i] == ips[..i];
        if InFamily(ip, family) {
          var key := PrefixKeyFromIP(ip).value;
          if key !in b {
            NoneWithKey(ips[..i], key);
            b := b[key := Some(Bucket(ip, []))];
          }
          b := b[key := Some(b[key].value.(ips := b[key].value.ips + [ip]))];
        }
      }
      assert ips[..|ips|] == ips;
    }

    /** Collects the addresses of the family, one entry for each. */
    method BuildPrecise(ips: seq<IP>) returns (p: map<Addr, Option<IP>>)
      ensures forall a :: a in p ==>
                p[a].Some? && p[a].value in ips && FromStdIP(p[a].value) == Some(a) && InFamily(p[a].value, family)
      ensures forall ip :: ip in ips && InFamily(ip, family) ==> FromStdIP(ip).Some? && FromStdIP(ip).value in p
    {
      hide PrefixKeyFromIP, FromStdIP, To4;
      p := map[];
      for i := 0 to |ips|
        invariant forall a :: a in p ==>
                    p[a].Some? && p[a].value in ips && FromStdIP(p[a].value) == Some(a) && InFamily(p[a].value, family)
        invariant forall m :: 0 <= m < i && InFamily(ips[m], family) ==>
                    FromStdIP(ips[m]).Some? && FromStdIP(ips[m]).value in p
      {
        var ip := ips[i];
        KeyIffValid(ip);
        if InFamily(ip, family) {
          p := p[FromStdIP(ip).value := Some(ip)];
        }
      }
    }

    method EnsureForMatcher(ips: seq<IP>, ms: seq<HeuristicIPMatcher>, j: nat, ghost out: seq<IP>)
      requires j < |ms| && ValidFor(ips, ms, j, out)
      modifies this
      ensures ValidFor(ips, ms, j, out)
      ensures if Heuristic(ms[j].ipset, family) then buckets.Some? else precise.Some?
    {
      hide InFamily, FromStdIP, PrefixKeyFromIP, AcceptedBy, Heuristic;
      if Heuristic(ms[j].ipset, family) {
        if buckets.None? {
          var b := BuildBuckets(ips);
          buckets := Some(b);
        }
      } else if precise.None? {
        var p := BuildPrecise(ips);
        precise := Some(p);
      }
    }

    /** Takes the buckets that the matcher accepts. */
    method TakeBuckets(ghost ips: seq<IP>, ms: seq<HeuristicIPMatcher>, j: nat, b0: map<Key, Option<Bucket>>,
                       out: seq<IP>)
      returns (b: map<Key, Option<Bucket>>, out': seq<IP>)
      requires j < |ms| && ValidSet(ms[j].ipset) && Heuristic(ms[j].ipset, family)
      requires forall k :: k in b0 ==> k.family == family && BucketEntry(ips, ms, j, family, k, b0[k], out)
      requires forall ip :: ip in out ==> ip in ips && AcceptedBy(ms, |ms|, ip)
      ensures b.Keys == b0.Keys && forall k :: k in b ==> BucketEntry(ips, ms, j + 1, family, k, b[k], out')
      ensures out <= out' && forall ip :: ip in out' ==> ip in ips && AcceptedBy(ms, |ms|, ip)
    {
      hide MatchAddr, ValidSet, FromStdIP, To4, PrefixKeyFromIP, BucketEntry, AcceptedBy, Heuristic;
      var m := ms[j];
      b, out' := b0, out;
      var left := b.Keys;
      while left != {}
        invariant left <= b.Keys == b0.Keys && out <= out'
        invariant forall k :: k in left ==> b[k] == b0[k] && BucketEntry(ips, ms, j, family, k, b[k], out')
        invariant forall k :: k in b && k !in left ==> BucketEntry(ips, ms, j + 1, family, k, b[k], out')
        invariant forall ip :: ip in out' ==> ip in ips && AcceptedBy(ms, |ms|, ip)
        decreases left
      {
        var k :| k in left;
        left := left - {k};
        if b[k].Some? {
          RepHasKey(ips, ms, j, family, k, b[k].value, out');
        }
        if b[k].Some? && m.Accepts(b[k].value.rep) {
          BucketCloses(ips, ms, j, family, k, b[k].value, out');
          BucketsGrow(ips, ms, j, family, out', out' + b[k].value.ips);
          out' := out' + b[k].value.ips;
          b := b[k := None];
        } else {
          BucketStays(ips, ms, j, family, k, b[k], out');
        }
      }
    }

    /** Takes the single addresses that the matcher accepts. */
    method TakePrecise(ghost ips: seq<IP>, ms: seq<HeuristicIPMatcher>, j: nat, p0: map<Addr, Option<IP>>, out: seq<IP>)
      returns (p: map<Addr, Option<IP>>, out': seq<IP>)
      requires j < |ms| && !Heuristic(ms[j].ipset, family)
      requires forall a :: a in p0 ==> PreciseEntry(ips, ms, j, family, a, p0[a], out)
      requires forall ip :: ip in out ==> ip in ips && AcceptedBy(ms, |ms|, ip)
      ensures p.Keys == p0.Keys && forall a :: a in p ==> PreciseEntry(ips, ms, j + 1, family, a, p[a], out')
      ensures forall a :: a in p && p[a].Some? ==> p[a] == p0[a]
      ensures out <= out' && forall ip :: ip in out' ==> ip in ips && AcceptedBy(ms, |ms|, ip)
    {
      hide MatchAddr, FromStdIP, To4, PrefixKeyFromIP, PreciseEntry, AcceptedBy, Heuristic;
      var m := ms[j];
      p, out' := p0, out;
      var left := p.Keys;
      while left != {}
        invariant left <= p.Keys == p0.Keys && out <= out'
        invariant forall a :: a in p && p[a].Some? ==> p[a] == p0[a]
        invariant forall a :: a in left ==> PreciseEntry(ips, ms, j, family, a, p[a], out')
        invariant forall a :: a in p && a !in left ==> PreciseEntry(ips, ms, j + 1, family, a, p[a], out')
        invariant forall ip :: ip in out' ==> ip in ips && AcceptedBy(ms, |ms|, ip)
        decreases left
      {
        var a :| a in left;
        left := left - {a};
        if p[a].Some? {
          RepHasAddr(ips, ms, j, family, a, p[a].value, out');
        }
        if p[a].Some? && m.Accepts(p[a].value) {
          PreciseCloses(ips, ms, j, family, a, p[a].value, out');
          PreciseGrow(ips, ms, j, family, out', out' + [p[a].value]);
          out' := out' + [p[a].value];
          p := p[a := None];
        } else {
          PreciseStays(ips, ms, j, family, a, p[a], out');
        }
      }
    }

    /** More accepted addresses do not disturb the views. */
    lemma Grow(ips: seq<IP>, ms: seq<HeuristicIPMatcher>, j: nat, out: seq<IP>, out': seq<IP>)
      requires ValidFor(ips, ms, j, out) && out <= out'
      ensures ValidFor(ips, ms, j, out')
    {
      hide Heuristic, InFamily, BucketEntry, PreciseEntry;
      BucketsGrow(ips, ms, j, family, out, out');
      PreciseGrow(ips, ms, j, family, out, out');
    }

    /** What one matcher accepts of the family. */
    method Take(ips: seq<IP>, ms: seq<HeuristicIPMatcher>, j: nat, out: seq<IP>) returns (out': seq<IP>)
      requires j < |ms| && ValidFor(ips, ms, j, out) && ValidSet(ms[j].ipset)
      requires forall ip :: ip in out ==> ip in ips && AcceptedBy(ms, |ms|, ip)
      modifies this
      ensures ValidFor(ips, ms, j + 1, out') && out <= out'
      ensures forall ip :: ip in out' ==> ip in ips && AcceptedBy(ms, |ms|, ip)
    {
      hide BucketEntry, PreciseEntry, AcceptedBy, Heuristic, ValidSet, InFamily, FromStdIP, PrefixKeyFromIP;
      EnsureForMatcher(ips, ms, j, out);
      if Heuristic(ms[j].ipset, family) {
        var b;
        b, out' := TakeBuckets(ips, ms, j, buckets.value, out);
        PreciseUntouched(ips, ms, j, family, out, out');
        assert precise.Some? ==> forall a :: a in precise.value ==>
                 PreciseEntry(ips, ms, j, family, a, precise.value[a], out);
        label Bucketed:
        buckets := Some(b);
        assert forall k :: k in b ==> old@Bucketed(BucketEntry(ips, ms, j + 1, family, k, b[k], out'));
        assert precise.Some? ==> forall a :: a in precise.value ==>
                 old@Bucketed(PreciseEntry(ips, ms, j + 1, family, a, precise.value[a], out'));
      } else {
        var p;
        p, out' := TakePrecise(ips, ms, j, precise.value, out);
        BucketsUntouched(ips, ms, j, family, out, out');
        assert buckets.Some? ==> forall k :: k in buckets.value ==>
                 BucketEntry(ips, ms, j, family, k, buckets.value[k], out);
        label Listed:
        precise := Some(p);
        assert forall a :: a in p ==> old@Listed(PreciseEntry(ips, ms, j + 1, family, a, p[a], out'));
        assert buckets.Some? ==> forall k :: k in buckets.value ==>
                 old@Listed(BucketEntry(ips, ms, j + 1, family, k, buckets.value[k], out'));
      }
    }
  }

  /** Entries of the precise view do not mind a matcher that looks at buckets. */
  lemma PreciseUntouched(ips: seq<IP>, ms: seq<HeuristicIPMatcher>, j: nat, family: int, out: seq<IP>, out': seq<IP>)
    requires j < |ms| && Heuristic(ms[j].ipset, family) && out <= out'
    ensures forall a, e :: PreciseEntry(ips, ms, j, family, a, e, out) ==>
              PreciseEntry(ips, ms, j + 1, family, a, e, out')
  {
    hide Heuristic, FromStdIP;
    AcceptedInMore(ms, j, family);
    assert AddrsOf(out) <= AddrsOf(out');
  }

  lemma BucketsUntouched(ips: seq<IP>, ms: seq<HeuristicIPMatcher>, j: nat, family: int, out: seq<IP>, out': seq<IP>)
    requires j < |ms| && !Heuristic(ms[j].ipset, family) && out <= out'
    ensures forall k, e :: BucketEntry(ips, ms, j, family, k, e, out) ==>
              BucketEntry(ips, ms, j + 1, family, k, e, out')
  {
    hide Heuristic, PrefixKeyFromIP;
    AcceptedInMore(ms, j, family);
  }

  lemma BucketsGrow(ips: seq<IP>, ms: seq<HeuristicIPMatcher>, j: nat, family: int, out: seq<IP>, out': seq<IP>)
    requires out <= out'
    ensures forall n, k, e :: BucketEntry(ips, ms, n, family, k, e, out) ==> BucketEntry(ips, ms, n, family, k, e, out')
  {
    hide Heuristic, PrefixKeyFromIP, AcceptedBy;
  }

  lemma PreciseGrow(ips: seq<IP>, ms: seq<HeuristicIPMatcher>, j: nat, family: int, out: seq<IP>, out': seq<IP>)
    requires out <= out'
    ensures forall n, a, e :: PreciseEntry(ips, ms, n, family, a, e, out) ==>
              PreciseEntry(ips, ms, n, family, a, e, out')
  {
    hide Heuristic, FromStdIP, AcceptedBy;
    assert AddrsOf(out) <= AddrsOf(out');
  }

  lemma RepHasKey(ips: seq<IP>, ms: seq<HeuristicIPMatcher>, j: nat, family: int, k: Key, b: Bucket, out: seq<IP>)
    requires BucketEntry(ips, ms, j, family, k, Some(b), out)
    ensures PrefixKeyFromIP(b.rep) == Some(k) && b.ips == WithKey(ips, k)
  {
  }

  lemma RepHasAddr(ips: seq<IP>, ms: seq<HeuristicIPMatcher>, j: nat, family: int, a: Addr, ip: IP, out: seq<IP>)
    requires PreciseEntry(ips, ms, j, family, a, Some(ip), out)
    ensures ip in ips && FromStdIP(ip) == Some(a)
  {
  }

  /** A bucket that the matcher accepts goes out as a whole. */
  lemma BucketCloses(ips: seq<IP>, ms: seq<HeuristicIPMatcher>, j: nat, family: int, k: Key, b: Bucket, out: seq<IP>)
    requires j < |ms| && ValidSet(ms[j].ipset) && Heuristic(ms[j].ipset, family) && k.family == family
    requires BucketEntry(ips, ms, j, family, k, Some(b), out) && ms[j].Accepts(b.rep)
    ensures BucketEntry(ips, ms, j + 1, family, k, None, out + b.ips)
    ensures forall ip :: ip in b.ips ==> ip in ips && AcceptedBy(ms, |ms|, ip)
  {
    hide MatchAddr, ValidSet, FromStdIP, To4, PrefixKeyFromIP;
    BucketAccepted(ips, ms[j], k, b);
    assert forall ip :: ms[j].Accepts(ip) ==> AcceptedBy(ms, j + 1, ip) && AcceptedBy(ms, |ms|, ip);
  }

  lemma BucketStays(ips: seq<IP>, ms: seq<HeuristicIPMatcher>, j: nat, family: int, k: Key, e: Option<Bucket>,
                    out: seq<IP>)
    requires j < |ms| && BucketEntry(ips, ms, j, family, k, e, out)
    requires e.Some? ==> !ms[j].Accepts(e.value.rep)
    ensures BucketEntry(ips, ms, j + 1, family, k, e, out)
  {
    AcceptedInMore(ms, j, family);
  }

  lemma PreciseCloses(ips: seq<IP>, ms: seq<HeuristicIPMatcher>, j: nat, family: int, a: Addr, ip: IP, out: seq<IP>)
    requires j < |ms| && !Heuristic(ms[j].ipset, family) && PreciseEntry(ips, ms, j, family, a, Some(ip), out)
             && ms[j].Accepts(ip)
    ensures PreciseEntry(ips, ms, j + 1, family, a, None, out + [ip])
    ensures AcceptedBy(ms, |ms|, ip)
  {
    hide MatchAddr, FromStdIP;
    assert forall x :: x in ips && FromStdIP(x) == Some(a) ==> ms[j].Accepts(x);
    assert (out + [ip])[|out|] == ip;
  }

  lemma PreciseStays(ips: seq<IP>, ms: seq<HeuristicIPMatcher>, j: nat, family: int, a: Addr, e: Option<IP>,
                     out: seq<IP>)
    requires j < |ms| && PreciseEntry(ips, ms, j, family, a, e, out)
    requires e.Some? ==> !ms[j].Accepts(e.value)
    ensures PreciseEntry(ips, ms, j + 1, family, a, e, out)
  {
    AcceptedInMore(ms, j, family);
  }

  lemma {:induction false} WithKeyMembers(ips: seq<IP>, key: Key)
    ensures forall ip :: ip in WithKey(ips, key) <==> ip in ips && PrefixKeyFromIP(ip) == Some(key)
  {
    if ips != [] {
      WithKeyMembers(ips[..|ips| - 1], key);
      assert ips == ips[..|ips| - 1] + [ips[|ips| - 1]];
    }
  }

  lemma BucketAccepted(ips: seq<IP>, m: HeuristicIPMatcher, k: Key, b: Bucket)
    requires ValidSet(m.ipset) && Heuristic(m.ipset, k.family) && m.Accepts(b.rep)
    requires PrefixKeyFromIP(b.rep) == Some(k) && b.ips == WithKey(ips, k)
    ensures forall ip :: ip in ips && PrefixKeyFromIP(ip) == Some(k) ==> m.Accepts(ip) && ip in b.ips
    ensures forall ip :: ip in b.ips ==> ip in ips && m.Accepts(ip)
  {
    WithKeyMembers(ips, k);
    forall ip | ip in ips && PrefixKeyFromIP(ip) == Some(k)
      ensures m.Accepts(ip)
    {
      KeyIffValid(ip);
      KeyIffValid(b.rep);
      BucketDecides(m.ipset, m.reverse, b.rep, ip);
    }
  }

  /** No matcher that looks at the family through this kind of view accepts the address. */
  ghost predicate PassedOver(ms: seq<HeuristicIPMatcher>, family: int, byBuckets: bool, ip: IP)
    reads ms
  {
    forall i :: 0 <= i < |ms| && Heuristic(ms[i].ipset, family) == byBuckets ==> !ms[i].Accepts(ip)
  }

  /** What a bucket's representative is spared, the whole bucket is spared. */
  lemma BucketPassedOver(ips: seq<IP>, ms: seq<HeuristicIPMatcher>, family: int, k: Key, b: Bucket, out: seq<IP>)
    requires forall i :: 0 <= i < |ms| ==> ValidSet(ms[i].ipset)
    requires k.family == family && BucketEntry(ips, ms, |ms|, family, k, Some(b), out)
    ensures forall ip :: ip in b.ips <==> ip in ips && PrefixKeyFromIP(ip) == Some(k)
    ensures forall ip :: ip in b.ips ==> PassedOver(ms, family, true, ip)
  {
    WithKeyMembers(ips, k);
    forall ip, i | ip in b.ips && 0 <= i < |ms| && Heuristic(ms[i].ipset, family)
      ensures !ms[i].Accepts(ip)
    {
      KeyIffValid(ip);
      KeyIffValid(b.rep);
      BucketDecides(ms[i].ipset, ms[i].reverse, b.rep, ip);
    }
  }

  /** The buckets still open. */
  method OpenBuckets(ghost ips: seq<IP>, ghost ms: seq<HeuristicIPMatcher>, ghost family: int,
                     b: map<Key, Option<Bucket>>, ghost out: seq<IP>)
    returns (rest: seq<IP>)
    requires forall i :: 0 <= i < |ms| ==> ValidSet(ms[i].ipset)
    requires forall k :: k in b ==> k.family == family && BucketEntry(ips, ms, |ms|, family, k, b[k], out)
    ensures forall ip :: ip in rest ==> ip in ips && InFamily(ip, family) && PassedOver(ms, family, true, ip)
    ensures forall ip :: (&& ip in ips && PrefixKeyFromIP(ip).Some? && PrefixKeyFromIP(ip).value in b
                          && b[PrefixKeyFromIP(ip).value].Some?) ==> ip in rest
  {
    hide BucketEntry, PassedOver, PrefixKeyFromIP, ValidSet;
    rest := [];
    var left := b.Keys;
    while left != {}
      invariant left <= b.Keys
      invariant forall ip :: ip in rest ==> ip in ips && InFamily(ip, family) && PassedOver(ms, family, true, ip)
      invariant forall ip :: (&& ip in ips && PrefixKeyFromIP(ip).Some? && PrefixKeyFromIP(ip).value in b
                              && PrefixKeyFromIP(ip).value !in left && b[PrefixKeyFromIP(ip).value].Some?) ==>
                                ip in rest
      decreases left
    {
      var k :| k in left;
      left := left - {k};
      if b[k].Some? {
        BucketPassedOver(ips, ms, family, k, b[k].value, out);
        rest := rest + b[k].value.ips;
      }
    }
  }

  /** The single addresses still open. */
  method OpenAddresses(ghost ips: seq<IP>, ghost ms: seq<HeuristicIPMatcher>, ghost family: int,
                       p: map<Addr, Option<IP>>, ghost out: seq<IP>)
    returns (rest: seq<IP>)
    requires forall a :: a in p ==> PreciseEntry(ips, ms, |ms|, family, a, p[a], out)
    requires forall a :: a in p && p[a].Some? ==> InFamily(p[a].value, family)
    ensures forall ip :: ip in rest ==> ip in ips && InFamily(ip, family) && PassedOver(ms, family, false, ip)
    ensures forall a :: a in p && p[a].Some? ==> a in AddrsOf(rest)
  {
    hide PrefixKeyFromIP, FromStdIP;
    rest := [];
    var left := p.Keys;
    while left != {}
      invariant left <= p.Keys
      invariant forall ip :: ip in rest ==> ip in ips && InFamily(ip, family) && PassedOver(ms, family, false, ip)
      invariant forall a :: a in p && a !in left && p[a].Some? ==> a in AddrsOf(rest)
      decreases left
    {
      var a :| a in left;
      left := left - {a};
      if p[a].Some? {
        ghost var before := rest;
        rest := rest + [p[a].value];
        assert rest[|before|] == p[a].value;
        assert AddrsOf(before) <= AddrsOf(rest);
      }
    }
  }

  /** All matchers look at each family through the same kind of view. */
  predicate SameViews(ms: seq<HeuristicIPMatcher>) {
    forall i, j :: 0 <= i < |ms| && 0 <= j < |ms| ==>
      && Heuristic(ms[i].ipset, 4) == Heuristic(ms[j].ipset, 4)
      && Heuristic(ms[i].ipset, 6) == Heuristic(ms[j].ipset, 6)
  }

  /** A kind of view that some matcher uses has left the address. */
  ghost predicate Spared(ms: seq<HeuristicIPMatcher>, family: int, ip: IP)
    reads ms
  {
    exists i :: 0 <= i < |ms| && PassedOver(ms, family, Heuristic(ms[i].ipset, family), ip)
  }

  /** What is left of a family after all matchers. */
  method Leftover(v: FilterViews, ghost ips: seq<IP>, ghost ms: seq<HeuristicIPMatcher>, ghost out: seq<IP>)
    returns (rest: seq<IP>)
    requires v.ValidFor(ips, ms, |ms|, out)
    requires forall i :: 0 <= i < |ms| ==> ValidSet(ms[i].ipset)
    ensures forall ip :: ip in rest ==> ip in ips && InFamily(ip, v.family)
    ensures forall ip :: ip in rest ==> Spared(ms, v.family, ip)
    ensures forall ip :: ip in ips && InFamily(ip, v.family) && Spared(ms, v.family, ip) ==>
              Valid(ip) && FromStdIP(ip).value in AddrsOf(rest)
    ensures forall ip :: ip in ips && InFamily(ip, v.family) && AcceptedBy(ms, |ms|, ip) ==>
              Valid(ip) && FromStdIP(ip).value in AddrsOf(out)
  {
    hide PrefixKeyFromIP, FromStdIP, To4, ValidSet, MatchAddr;
    var r1, r2: seq<IP> := [], [];
    if v.buckets.Some? {
      r1 := OpenBuckets(ips, ms, v.family, v.buckets.value, out);
    }
    if v.precise.Some? {
      r2 := OpenAddresses(ips, ms, v.family, v.precise.value, out);
    }
    rest := r1 + r2;
    assert AddrsOf(r1) <= AddrsOf(rest) && AddrsOf(r2) <= AddrsOf(rest);
    forall ip | ip in ips && InFamily(ip, v.family)
      ensures Valid(ip)
      ensures Spared(ms, v.family, ip) ==> FromStdIP(ip).value in AddrsOf(rest)
      ensures AcceptedBy(ms, |ms|, ip) ==> FromStdIP(ip).value in AddrsOf(out)
    {
      KeyIffValid(ip);
      WhereIs(v, ips, ms, out, ip);
      if v.buckets.Some? && v.buckets.value[PrefixKeyFromIP(ip).value].Some? {
        assert ip in r1;
      }
    }
  }

  /** Where an address of the family has gone: out if accepted, and still open in the views that have left it. */
  lemma WhereIs(v: FilterViews, ips: seq<IP>, ms: seq<HeuristicIPMatcher>, out: seq<IP>, ip: IP)
    requires v.ValidFor(ips, ms, |ms|, out) && ip in ips && InFamily(ip, v.family)
    requires forall i :: 0 <= i < |ms| ==> ValidSet(ms[i].ipset)
    ensures Valid(ip)
    ensures v.buckets.Some? ==> PrefixKeyFromIP(ip).value in v.buckets.value
    ensures v.precise.Some? ==> FromStdIP(ip).value in v.precise.value
    ensures AcceptedBy(ms, |ms|, ip) ==> FromStdIP(ip).value in AddrsOf(out)
    ensures PassedOver(ms, v.family, true, ip) && v.buckets.Some? ==> v.buckets.value[PrefixKeyFromIP(ip).value].Some?
    ensures PassedOver(ms, v.family, false, ip) && v.precise.Some? ==> v.precise.value[FromStdIP(ip).value].Some?
    ensures Spared(ms, v.family, ip) ==>
              || (v.buckets.Some? && PassedOver(ms, v.family, true, ip))
              || (v.precise.Some? && PassedOver(ms, v.family, false, ip))
  {
    hide To4, ValidSet, MatchAddr, PrefixKeyFromIP, FromStdIP;
    KeyIffValid(ip);
    if AcceptedBy(ms, |ms|, ip) {
      var i :| 0 <= i < |ms| && ms[i].Accepts(ip);
      if Heuristic(ms[i].ipset, v.family) {
        var k := PrefixKeyFromIP(ip).value;
        var e := v.buckets.value[k];
        if e.Some? {
          BucketPassedOver(ips, ms, v.family, k, e.value, out);
          assert false;
        }
      } else {
        var a := FromStdIP(ip).value;
        var e := v.precise.value[a];
        if e.Some? {
          assert false;
        }
      }
    }
  }

  /** All matchers take what they accept, one after another. */
  method TakeAll(ips: seq<IP>, ms: seq<HeuristicIPMatcher>)
    returns (views4: FilterViews, views6: FilterViews, matched: seq<IP>)
    requires forall i :: 0 <= i < |ms| ==> ValidSet(ms[i].ipset)
    ensures fresh(views4) && fresh(views6) && views4.family == 4 && views6.family == 6
    ensures views4.ValidFor(ips, ms, |ms|, matched) && views6.ValidFor(ips, ms, |ms|, matched)
    ensures forall ip :: ip in matched ==> ip in ips && AcceptedBy(ms, |ms|, ip)
  {
    hide ValidSet, Heuristic, InFamily, BucketEntry, PreciseEntry, AcceptedBy;
    views4 := new FilterViews(4);
    views6 := new FilterViews(6);
    matched := [];
    for j := 0 to |ms|
      invariant fresh(views4) && fresh(views6) && views4 != views6 && views4.family == 4 && views6.family == 6
      invariant views4.ValidFor(ips, ms, j, matched) && views6.ValidFor(ips, ms, j, matched)
      invariant forall ip :: ip in matched ==> ip in ips && AcceptedBy(ms, |ms|, ip)
    {
      hide FilterViews.ValidFor;
      var out4 := views4.Take(ips, ms, j, matched);
      views6.Grow(ips, ms, j, matched, out4);
      var out6 := views6.Take(ips, ms, j, out4);
      views4.Grow(ips, ms, j + 1, out4, out6);
      matched := out6;
    }
  }

  /** The family whose views an address is in. */
  function FamilyOf(a: Addr): int {
    if a.V4? then 4 else 6
  }

  /** The addresses of both families together. */
  lemma BothFamilies(ips: seq<IP>, ms: seq<HeuristicIPMatcher>, matched: seq<IP>, rest4: seq<IP>, rest6: seq<IP>)
    requires forall ip :: ip in matched ==> ip in ips && AcceptedBy(ms, |ms|, ip)
    requires forall ip :: ip in rest4 ==> ip in ips && InFamily(ip, 4) && Spared(ms, 4, ip)
    requires forall ip :: ip in rest6 ==> ip in ips && InFamily(ip, 6) && Spared(ms, 6, ip)
    requires forall ip :: ip in ips && InFamily(ip, 4) && Spared(ms, 4, ip) ==>
               Valid(ip) && FromStdIP(ip).value in AddrsOf(rest4)
    requires forall ip :: ip in ips && InFamily(ip, 6) && Spared(ms, 6, ip) ==>
               Valid(ip) && FromStdIP(ip).value in AddrsOf(rest6)
    requires forall ip :: ip in ips && InFamily(ip, 4) && AcceptedBy(ms, |ms|, ip) ==>
               Valid(ip) && FromStdIP(ip).value in AddrsOf(matched)
    requires forall ip :: ip in ips && InFamily(ip, 6) && AcceptedBy(ms, |ms|, ip) ==>
               Valid(ip) && FromStdIP(ip).value in AddrsOf(matched)
    ensures forall ip :: ip in matched + (rest4 + rest6) ==> ip in ips && Valid(ip)
    ensures forall ip :: ip in ips && AcceptedBy(ms, |ms|, ip) ==> Valid(ip) && FromStdIP(ip).value in AddrsOf(matched)
    ensures forall a :: a in AddrsOf(rest4 + rest6) <==>
              exists ip :: ip in ips && FromStdIP(ip) == Some(a) && Spared(ms, FamilyOf(a), ip)
  {
    hide MatchAddr, PrefixKeyFromIP, FromStdIP, To4, AcceptedBy, Spared;
    assert AddrsOf(rest4) <= AddrsOf(rest4 + rest6) && AddrsOf(rest6) <= AddrsOf(rest4 + rest6);
    forall ip | ip in ips
      ensures Valid(ip) ==> InFamily(ip, FamilyOf(FromStdIP(ip).value))
      ensures InFamily(ip, 4) || InFamily(ip, 6) ==> Valid(ip)
      ensures InFamily(ip, 4) ==> FamilyOf(FromStdIP(ip).value) == 4
      ensures InFamily(ip, 6) ==> FamilyOf(FromStdIP(ip).value) == 6
      ensures AcceptedBy(ms, |ms|, ip) ==> Valid(ip)
    {
      KeyIffValid(ip);
      AcceptedIsValid(ms, ip);
    }
  }

  lemma AcceptedIsValid(ms: seq<HeuristicIPMatcher>, ip: IP)
    ensures AcceptedBy(ms, |ms|, ip) ==> Valid(ip)
  {
  }

  /** Under one kind of view, an address is left exactly if nobody accepts it. */
  lemma SparedUnderOneView(ms: seq<HeuristicIPMatcher>, family: int, ip: IP)
    requires SameViews(ms) && (family == 4 || family == 6) && ms != []
    ensures Spared(ms, family, ip) <==> !AcceptedBy(ms, |ms|, ip)
  {
    hide MatchAddr, FromStdIP;
    if !AcceptedBy(ms, |ms|, ip) {
      assert PassedOver(ms, family, Heuristic(ms[0].ipset, family), ip);
    }
  }

  /** What nobody accepts is spared, if there is anybody. */
  lemma RejectedIsSpared(ms: seq<HeuristicIPMatcher>, family: int, ip: IP)
    requires ms != [] && !AcceptedBy(ms, |ms|, ip)
    ensures Spared(ms, family, ip)
  {
    hide MatchAddr, FromStdIP, Heuristic;
    assert PassedOver(ms, family, Heuristic(ms[0].ipset, family), ip);
  }

  /** What happens to an address depends on nothing else about its bytes. */
  lemma SameAddress(ms: seq<HeuristicIPMatcher>, family: int, x: IP, y: IP)
    requires FromStdIP(x) == FromStdIP(y)
    ensures AcceptedBy(ms, |ms|, x) <==> AcceptedBy(ms, |ms|, y)
    ensures Spared(ms, family, x) <==> Spared(ms, family, y)
  {
    hide FromStdIP, MatchAddr, Heuristic;
    assert forall i :: 0 <= i < |ms| ==> (ms[i].Accepts(x) <==> ms[i].Accepts(y));
    assert forall h :: PassedOver(ms, family, h, x) <==> PassedOver(ms, family, h, y);
  }

  /** Some of the addresses is `a`, and the matchers leave it. A single address is left if nobody accepts it. */
  ghost predicate IsLeft(mm: HeuristicMultiIPMatcher, ips: seq<IP>, a: Addr)
    reads mm.matchers
  {
    exists ip :: ip in ips && FromStdIP(ip) == Some(a)
                 && if |ips| == 1 then !mm.Match(ip) else Spared(mm.matchers, FamilyOf(a), ip)
  }

  ghost predicate IsTaken(mm: HeuristicMultiIPMatcher, ips: seq<IP>, a: Addr)
    reads mm.matchers
  {
    exists ip :: ip in ips && FromStdIP(ip) == Some(a) && mm.Match(ip)
  }

  /**
   * The matched addresses are those that some matcher accepts. The unmatched ones are those that all matchers with some
   * kind of view leave: with views of both kinds in one family, an address may be on both sides.
   */
  method FilterIPs(mm: HeuristicMultiIPMatcher, ips: seq<IP>) returns (matched: seq<IP>, unmatched: seq<IP>)
    requires mm.ValidSets()
    ensures forall a :: a in AddrsOf(matched) <==> IsTaken(mm, ips, a)
    ensures forall a :: a in AddrsOf(unmatched) <==> IsLeft(mm, ips, a)
    ensures forall ip :: ip in matched + unmatched ==> ip in ips && Valid(ip)
  {
    hide MatchAddr, ValidSet, To4, PrefixKeyFromIP, FromStdIP, Spared;
    var n, ms := |ips|, mm.matchers;
    if n == 0 {
      return [], [];
    }
    if n == 1 {
      assert ips[0] in ips && forall ip :: ip in ips ==> ip == ips[0];
      if !Valid(ips[0]) {
        return [], [];
      }
      if mm.Match(ips[0]) {
        return ips, [];
      }
      return [], ips;
    }
    var views4, views6;
    views4, views6, matched := TakeAll(ips, ms);
    var rest4 := Leftover(views4, ips, ms, matched);
    var rest6 := Leftover(views6, ips, ms, matched);
    unmatched := rest4 + rest6;
    BothFamilies(ips, ms, matched, rest4, rest6);
  }

  /** Two matchers with different views of a family, of which only the one accepts the address. */
  ghost predicate Straddles(ms: seq<HeuristicIPMatcher>, family: int, ip: IP)
    reads ms
  {
    exists i, j :: 0 <= i < |ms| && 0 <= j < |ms| && ms[i].Accepts(ip)
                   && Heuristic(ms[i].ipset, family) != Heuristic(ms[j].ipset, family)
                   && PassedOver(ms, family, Heuristic(ms[j].ipset, family), ip)
  }

  /**
   * An address of a list of several is on both sides exactly if a matcher with one kind of view accepts it and all that
   * look through the other kind, of which there is one, do not.
   */
  lemma OnBothSides(mm: HeuristicMultiIPMatcher, ips: seq<IP>, a: Addr)
    requires |ips| > 1
    ensures IsTaken(mm, ips, a) && IsLeft(mm, ips, a) <==>
              exists ip :: ip in ips && FromStdIP(ip) == Some(a) && Straddles(mm.matchers, FamilyOf(a), ip)
  {
    hide FromStdIP, MatchAddr, Heuristic, Spared, Straddles;
    var ms := mm.matchers;
    forall x, y | x in ips && y in ips && FromStdIP(x) == Some(a) == FromStdIP(y)
      ensures Straddles(ms, FamilyOf(a), x) <==> mm.Match(x) && Spared(ms, FamilyOf(a), y)
    {
      SameAddress(ms, FamilyOf(a), x, y);
      StraddlesMeans(ms, FamilyOf(a), x);
    }
  }

  lemma StraddlesMeans(ms: seq<HeuristicIPMatcher>, family: int, ip: IP)
    ensures Straddles(ms, family, ip) <==> AcceptedBy(ms, |ms|, ip) && Spared(ms, family, ip)
  {
    hide MatchAddr, FromStdIP, Heuristic;
  }

  /** If all matchers have the same kind of view of each family, no address is on both sides, and each on one. */
  lemma OneViewPartitions(mm: HeuristicMultiIPMatcher, ips: seq<IP>, a: Addr)
    requires SameViews(mm.matchers) && mm.matchers != []
    ensures !(IsTaken(mm, ips, a) && IsLeft(mm, ips, a))
    ensures (exists ip :: ip in ips && FromStdIP(ip) == Some(a)) ==> IsTaken(mm, ips, a) || IsLeft(mm, ips, a)
  {
    hide FromStdIP, MatchAddr, Heuristic, SameViews, Spared;
    var ms := mm.matchers;
    forall x, y | x in ips && y in ips && FromStdIP(x) == Some(a) == FromStdIP(y)
      ensures mm.Match(x) <==> mm.Match(y)
      ensures Spared(ms, FamilyOf(a), x) <==> !mm.Match(y)
    {
      SameAddress(ms, FamilyOf(a), x, y);
      SparedUnderOneView(ms, FamilyOf(a), x);
    }
  }

  /** What no matcher accepts is always on the other side. */
  lemma RejectedIsLeft(mm: HeuristicMultiIPMatcher, ips: seq<IP>, ip: IP)
    requires mm.matchers != [] && ip in ips && Valid(ip) && !mm.Match(ip)
    ensures IsLeft(mm, ips, FromStdIP(ip).value)
  {
    RejectedIsSpared(mm.matchers, FamilyOf(FromStdIP(ip).value), ip);
  }

  const WIDE := Prefix([10, 0, 0, 0], 24)
  const NARROW := Prefix([10, 9, 9, 9], 32)

  lemma InWideOnly(last: byte)
    ensures InPrefix(WIDE, [10, 0, 0, last]) && !InPrefix(NARROW, [10, 0, 0, last])
  {
    var b: bytes := [10, 0, 0, last];
    forall i: nat | i < 24
      ensures Bit(WIDE.b, i) == Bit(b, i)
    {
      assert i / 8 < 3;
    }
    assert Pow2(0) == 1;
    assert Bit(NARROW.b, 15) == 1 && Bit(b, 15) == 0;
  }

  lemma LongestOfOne(p: Prefix, max: int)
    requires LongestIs([p], max) && p.bits > 0
    ensures max == p.bits
  {
    assert [p][0] == p;
  }

  /** What the two matchers make of the address. */
  lemma WideOnly(ms: seq<HeuristicIPMatcher>, last: byte)
    requires |ms| == 2 && !ms[0].reverse && !ms[1].reverse && ValidSet(ms[0].ipset) && ValidSet(ms[1].ipset)
    requires ms[0].ipset.v4 == [WIDE] && ms[1].ipset.v4 == [NARROW]
    ensures ms[0].Accepts([10, 0, 0, last]) && Spared(ms, 4, [10, 0, 0, last])
  {
    InWideOnly(last);
    LongestOfOne(WIDE, ms[0].ipset.max4);
    LongestOfOne(NARROW, ms[1].ipset.max4);
    var ip: IP := [10, 0, 0, last];
    assert ms[0].ipset.v4[0] == WIDE && ms[1].ipset.v4[0] == NARROW;
    assert !ms[1].Accepts(ip);
    assert PassedOver(ms, 4, Heuristic(ms[1].ipset, 4), ip);
  }

  const FIVE: IP := [10, 0, 0, 5]
  const SIX: IP := [10, 0, 0, 6]

  lemma BothOnBoth(mm: HeuristicMultiIPMatcher, a: Addr)
    requires forall ip :: ip in [FIVE, SIX] ==> mm.Match(ip) && Spared(mm.matchers, 4, ip)
    ensures IsTaken(mm, [FIVE, SIX], a) <==> a in {V4(FIVE), V4(SIX)}
    ensures IsLeft(mm, [FIVE, SIX], a) <==> a in {V4(FIVE), V4(SIX)}
  {
    hide Spared;
    var ips := [FIVE, SIX];
    assert ips[0] == FIVE && ips[1] == SIX;
    assert FromStdIP(FIVE) == Some(V4(FIVE)) && FromStdIP(SIX) == Some(V4(SIX));
    assert forall ip :: ip in ips <==> ip == FIVE || ip == SIX;
  }

  /** A /24 and a /32: two addresses that the first accepts come out on both sides. */
  method MixedViews() returns (matched: seq<IP>, unmatched: seq<IP>)
    ensures AddrsOf(matched) == AddrsOf(unmatched) == {V4(FIVE), V4(SIX)}
  {
    hide MatchAddr, Spared, ValidSet, Heuristic, IsTaken, IsLeft, AddrsOf, HeuristicMultiIPMatcher.Match,
        HeuristicIPMatcher.Accepts;
    var wide := CreateFrom([WIDE], []);
    var narrow := CreateFrom([NARROW], []);
    var m1 := new HeuristicIPMatcher(wide, false);
    var m2 := new HeuristicIPMatcher(narrow, false);
    var mm := new HeuristicMultiIPMatcher([m1, m2]);
    matched, unmatched := FilterIPs(mm, [FIVE, SIX]);
    AcceptedByFirst(mm, 5);
    AcceptedByFirst(mm, 6);
    forall a
      ensures a in AddrsOf(matched) <==> a in {V4(FIVE), V4(SIX)}
      ensures a in AddrsOf(unmatched) <==> a in {V4(FIVE), V4(SIX)}
    {
      BothOnBoth(mm, a);
    }
  }

  lemma AcceptedByFirst(mm: HeuristicMultiIPMatcher, last: byte)
    requires var ms := mm.matchers;
             && |ms| == 2 && !ms[0].reverse && !ms[1].reverse && ValidSet(ms[0].ipset) && ValidSet(ms[1].ipset)
             && ms[0].ipset.v4 == [WIDE] && ms[1].ipset.v4 == [NARROW]
    ensures mm.Match([10, 0, 0, last]) && Spared(mm.matchers, 4, [10, 0, 0, last])
  {
    WideOnly(mm.matchers, last);
  }
}
