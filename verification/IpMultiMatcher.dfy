/** Several heuristic matchers over the same list of addresses, sharing what they compute about it. */
module IpMultiMatchers {
  import opened ByteSeq
  import opened IpSets
  import opened IpMatchers

  predicate InFamily(ip: IP, family: int) {
    PrefixKeyFromIP(ip).Some? && PrefixKeyFromIP(ip).value.family == family
  }

  /** One representative for each key of a family. */
  ghost predicate IsBucketView(buckets: map<Key, IP>, ips: seq<IP>, family: int) {
    && (forall k :: k in buckets ==> k.family == family && buckets[k] in ips && PrefixKeyFromIP(buckets[k]) == Some(k))
    && (forall ip :: ip in ips && InFamily(ip, family) ==> PrefixKeyFromIP(ip).value in buckets)
  }

  /** All addresses of a family. */
  ghost predicate IsPreciseView(precise: seq<IP>, ips: seq<IP>, family: int) {
    && (forall ip :: ip in precise ==> ip in ips && InFamily(ip, family))
    && (forall ip :: ip in ips && InFamily(ip, family) ==> ip in precise)
  }

  /** The views of one family, each built when the first matcher needs it. */
  class IpViews {
    const family: int
    var buckets: Option<map<Key, IP>>
    var precise: Option<seq<IP>>

    constructor (family: int)
      ensures this.family == family && buckets.None? && precise.None?
    {
      this.family := family;
      buckets, precise := None, None;
    }

    ghost predicate ValidFor(ips: seq<IP>)
      reads this
    {
      && (buckets.Some? ==> IsBucketView(buckets.value, ips, family))
      && (precise.Some? ==> IsPreciseView(precise.value, ips, family))
      && (buckets.Some? || precise.Some? ==> forall ip :: ip in ips ==> Valid(ip))
    }

    /** Builds what the matcher needs; false if some address is invalid. */
    method EnsureForMatcher(m: HeuristicIPMatcher, ips: seq<IP>) returns (ok: bool)
      requires ValidFor(ips)
      modifies this
      ensures ok ==> ValidFor(ips) && (forall ip :: ip in ips ==> Valid(ip))
      ensures ok ==> if Heuristic(m.ipset, family) then buckets.Some? else precise.Some?
      ensures !ok ==> exists ip :: ip in ips && !Valid(ip)
    {
      var needHeur := Heuristic(m.ipset, family) && buckets.None?;
      var needPrec := !Heuristic(m.ipset, family) && precise.None?;
      if !needHeur && !needPrec {
        return true;
      }
      var newBuckets: map<Key, IP> := map[];
      var newPrecise: seq<IP> := [];
      for i := 0 to |ips|
        invariant forall k :: 0 <= k < i ==> Valid(ips[k])
        invariant ValidFor(ips) && buckets == old(buckets) && precise == old(precise)
        invariant needHeur ==> IsBucketView(newBuckets, ips[..i], family)
        invariant needPrec ==> IsPreciseView(newPrecise, ips[..i], family)
      {
        var ip := ips[i];
        assert ips[..i + 1] == ips[..i] + [ip];
        KeyIffValid(ip);
        var key := PrefixKeyFromIP(ip);
        if key.None? {
          assert ip in ips;
          return false;
        }
        if key.value.family == family {
          if needHeur && key.value !in newBuckets {
            newBuckets := newBuckets[key.value := ip];
          }
          if needPrec {
            newPrecise := newPrecise + [ip];
          }
        }
      }
      assert ips[..|ips|] == ips;
      if needHeur {
        buckets := Some(newBuckets);
      }
      if needPrec {
        precise := Some(newPrecise);
      }
      return true;
    }

    /** Whether the matcher accepts all addresses of the family. */
    method AllMatch(m: HeuristicIPMatcher, ghost ips: seq<IP>) returns (r: bool)
      requires ValidFor(ips) && ValidSet(m.ipset)
      requires if Heuristic(m.ipset, family) then buckets.Some? else precise.Some?
      ensures r <==> forall ip :: ip in ips && InFamily(ip, family) ==> m.Accepts(ip)
    {
      hide MatchAddr, ValidSet;
      if Heuristic(m.ipset, family) {
        var b := buckets.value;
        var left := b.Keys;
        while left != {}
          invariant left <= b.Keys
          invariant forall k :: k in b && k !in left ==> m.Accepts(b[k])
          decreases left
        {
          var k :| k in left;
          left := left - {k};
          if !m.Accepts(b[k]) {
            return false;
          }
        }
        forall ip | ip in ips && InFamily(ip, family)
          ensures m.Accepts(ip)
        {
          var k := PrefixKeyFromIP(ip).value;
          KeyIffValid(ip);
          KeyIffValid(b[k]);
          BucketDecides(m.ipset, m.reverse, b[k], ip);
        }
        return true;
      } else {
        for j := 0 to |precise.value|
          invariant forall k :: 0 <= k < j ==> m.Accepts(precise.value[k])
        {
          if !m.Accepts(precise.value[j]) {
            assert precise.value[j] in precise.value;
            return false;
          }
        }
        return true;
      }
    }
  }

  ghost predicate AcceptsAll(m: HeuristicIPMatcher, ips: seq<IP>)
    reads m
  {
    forall ip :: ip in ips ==> m.Accepts(ip)
  }

  /** An earlier address has this key. */
  ghost predicate SeenKey(ips: seq<IP>, i: int, key: Key) {
    exists k :: 0 <= k < i <= |ips| && PrefixKeyFromIP(ips[k]) == Some(key)
  }

  class HeuristicMultiIPMatcher {
    const matchers: seq<HeuristicIPMatcher>

    constructor (matchers: seq<HeuristicIPMatcher>)
      ensures this.matchers == matchers
    {
      this.matchers := matchers;
    }

    ghost predicate ValidSets() {
      forall k :: 0 <= k < |matchers| ==> ValidSet(matchers[k].ipset)
    }

    /** Some matcher accepts the address. */
    predicate Match(ip: IP)
      reads matchers
    {
      exists k :: 0 <= k < |matchers| && matchers[k].Accepts(ip)
    }

    /** Asks the matchers about one address, skipping those for which its bucket has already been asked. */
    method AnyMatchOne(ips: seq<IP>, i: nat, buckets: set<Key>) returns (r: bool, buckets': set<Key>)
      requires ValidSets() && i < |ips|
      requires forall k :: 0 <= k < i ==> !Match(ips[k])
      requires forall key :: key in buckets ==> SeenKey(ips, i, key)
      ensures r <==> Match(ips[i])
      ensures forall key :: key in buckets' ==> SeenKey(ips, i + 1, key)
    {
      hide MatchAddr, ValidSet;
      var ip := ips[i];
      KeyIffValid(ip);
      buckets' := buckets;
      var state := 0;
      for j := 0 to |matchers|
        invariant forall k :: 0 <= k < j ==> !matchers[k].Accepts(ip)
        invariant state == 0 ==> buckets' == buckets
        invariant state != 0 ==> PrefixKeyFromIP(ip).Some?
        invariant state == 1 ==> buckets' == buckets + {PrefixKeyFromIP(ip).value}
        invariant state in {0, 1, 4, 6}
        invariant state in {4, 6} ==>
                    buckets' == buckets && PrefixKeyFromIP(ip).value in buckets
                      && state == PrefixKeyFromIP(ip).value.family
      {
        var m := matchers[j];
        var heur4 := m.ipset.max4 <= 24;
        var heur6 := m.ipset.max6 <= 64;
        if state == 0 && (heur4 || heur6) {
          var key := PrefixKeyFromIP(ip);
          if key.None? {
            break;
          }
          if key.value in buckets' {
            state := key.value.family;
          } else {
            buckets' := buckets' + {key.value};
            state := 1;
          }
        }
        if (heur4 && state == 4) || (heur6 && state == 6) {
          ghost var k :| 0 <= k < i && PrefixKeyFromIP(ips[k]) == PrefixKeyFromIP(ip);
          KeyIffValid(ips[k]);
          BucketDecides(m.ipset, m.reverse, ips[k], ip);
          assert !Match(ips[k]);
          continue;
        }
        if !Valid(ip) {
          break;
        }
        if m.Accepts(ip) {
          return true, if state == 1 then buckets' else buckets;
        }
      }
      return false, buckets';
    }

    /** True if some address is valid and some matcher accepts it. */
    method AnyMatch(ips: seq<IP>) returns (r: bool)
      requires ValidSets()
      ensures r <==> exists i :: 0 <= i < |ips| && Match(ips[i])
    {
      hide MatchAddr, ValidSet, PrefixKeyFromIP, SeenKey, ValidSets;
      var n := |ips|;
      if n == 0 {
        return false;
      }
      if n == 1 {
        assert Match(ips[0]) ==> exists i :: 0 <= i < |ips| && Match(ips[i]);
        return Match(ips[0]);
      }
      var buckets: set<Key> := {};
      for i := 0 to n
        invariant forall k :: 0 <= k < i ==> !Match(ips[k])
        invariant forall key :: key in buckets ==> SeenKey(ips, i, key)
      {
        var found;
        found, buckets := AnyMatchOne(ips, i, buckets);
        if found {
          return true;
        }
      }
      return false;
    }

    /** True if there are addresses, and some one matcher accepts all of them. */
    method Matches(ips: seq<IP>) returns (r: bool)
      requires ValidSets()
      ensures r <==> ips != [] && exists k :: 0 <= k < |matchers| && AcceptsAll(matchers[k], ips)
    {
      hide MatchAddr, ValidSet;
      var n := |ips|;
      if n == 0 {
        return false;
      }
      if n == 1 {
        if Match(ips[0]) {
          ghost var k :| 0 <= k < |matchers| && matchers[k].Accepts(ips[0]);
          assert AcceptsAll(matchers[k], ips);
          return true;
        }
        assert ips[0] in ips;
        assert forall k :: 0 <= k < |matchers| ==> !AcceptsAll(matchers[k], ips);
        return false;
      }
      var views4 := new IpViews(4);
      var views6 := new IpViews(6);
      for j := 0 to |matchers|
        invariant fresh(views4) && fresh(views6) && views4 != views6
        invariant views4.family == 4 && views6.family == 6 && views4.ValidFor(ips) && views6.ValidFor(ips)
        invariant forall k :: 0 <= k < j ==> !AcceptsAll(matchers[k], ips)
      {
        var m := matchers[j];
        var ok4 := views4.EnsureForMatcher(m, ips);
        if !ok4 {
          return false;
        }
        var ok6 := views6.EnsureForMatcher(m, ips);
        if !ok6 {
          return false;
        }
        var matched := views4.AllMatch(m, ips);
        if !matched {
          continue;
        }
        matched := views6.AllMatch(m, ips);
        if matched {
          forall ip | ip in ips
            ensures m.Accepts(ip)
          {
            KeyIffValid(ip);
            assert InFamily(ip, 4) || InFamily(ip, 6);
          }
          return true;
        }
      }
      return false;
    }
  }
}
