/** The heuristic matchers: buckets of addresses instead of single lookups. */
module IpMatchers {
  import opened ByteSeq
  import opened IpSets

  /** The valid addresses of a list that lie on one side of a set and whose key is in `keys`. */
  function Pick(s: IPSet, reverse: bool, ips: seq<IP>, keys: set<Key>, side: bool): seq<IP> {
    if ips == [] then []
    else
      var front, ip := Pick(s, reverse, ips[..|ips| - 1], keys, side), ips[|ips| - 1];
      if Valid(ip) && PrefixKeyFromIP(ip).value in keys && MatchAddr(s, reverse, FromStdIP(ip).value) == side
      then front + [ip] else front
  }

  /** The valid addresses of a list whose key is `key`. */
  function WithKey(ips: seq<IP>, key: Key): seq<IP> {
    if ips == [] then []
    else
      var front, ip := WithKey(ips[..|ips| - 1], key), ips[|ips| - 1];
      if PrefixKeyFromIP(ip) == Some(key) then front + [ip] else front
  }

  /** The valid addresses of a list on one side, whatever their key. */
  function Side(s: IPSet, reverse: bool, ips: seq<IP>, side: bool): seq<IP> {
    if ips == [] then []
    else
      var front, ip := Side(s, reverse, ips[..|ips| - 1], side), ips[|ips| - 1];
      if Valid(ip) && MatchAddr(s, reverse, FromStdIP(ip).value) == side then front + [ip] else front
  }

  /** The valid addresses of the families that are looked up one by one. */
  function Precise(s: IPSet, ips: seq<IP>): seq<IP> {
    if ips == [] then []
    else
      var front, ip := Precise(s, ips[..|ips| - 1]), ips[|ips| - 1];
      if Valid(ip) && !Heuristic(s, PrefixKeyFromIP(ip).value.family) then front + [ip] else front
  }

  lemma {:induction false} PickOneMoreKey(s: IPSet, reverse: bool, ips: seq<IP>, keys: set<Key>, key: Key, rep: IP,
                                          side: bool)
    requires ValidSet(s) && key !in keys && Heuristic(s, key.family)
    requires PrefixKeyFromIP(rep) == Some(key)
    ensures Valid(rep)
    ensures multiset(Pick(s, reverse, ips, keys + {key}, side)) ==
            multiset(Pick(s, reverse, ips, keys, side))
            + (if MatchAddr(s, reverse, FromStdIP(rep).value) == side then multiset(WithKey(ips, key)) else multiset{})
  {
    hide MatchAddr, ValidSet;
    KeyIffValid(rep);
    if ips != [] {
      var ip := ips[|ips| - 1];
      PickOneMoreKey(s, reverse, ips[..|ips| - 1], keys, key, rep, side);
      KeyIffValid(ip);
      if PrefixKeyFromIP(ip) == Some(key) {
        BucketDecides(s, reverse, rep, ip);
      }
    }
  }

  /** Every valid address is picked by its key or looked up precisely. */
  lemma {:induction false} PickAllKeys(s: IPSet, reverse: bool, ips: seq<IP>, keys: set<Key>, side: bool)
    requires forall i :: 0 <= i < |ips| && Valid(ips[i]) ==>
               (PrefixKeyFromIP(ips[i]).value in keys <==> Heuristic(s, PrefixKeyFromIP(ips[i]).value.family))
    ensures multiset(Pick(s, reverse, ips, keys, side)) + multiset(Side(s, reverse, Precise(s, ips), side))
         == multiset(Side(s, reverse, ips, side))
  {
    hide MatchAddr, FromStdIP, To4, PrefixKeyFromIP, Valid;
    if ips != [] {
      var front, ip := ips[..|ips| - 1], ips[|ips| - 1];
      PickAllKeys(s, reverse, front, keys, side);
      var p := Precise(s, front);
      assert (p + [ip])[..|p + [ip]| - 1] == p;
    }
  }

  lemma {:induction false} PickNoKeys(s: IPSet, reverse: bool, ips: seq<IP>, side: bool)
    ensures Pick(s, reverse, ips, {}, side) == []
  {
    if ips != [] {
      PickNoKeys(s, reverse, ips[..|ips| - 1], side);
    }
  }

  datatype Bucket = Bucket(rep: IP, ips: seq<IP>)

  /** The buckets and the precise list over a list of addresses. */
  ghost predicate Bucketed(s: IPSet, ips: seq<IP>, buckets: map<Key, Bucket>, precise: seq<IP>) {
    && precise == Precise(s, ips)
    && (forall k :: k in buckets ==>
          && Heuristic(s, k.family) && PrefixKeyFromIP(buckets[k].rep) == Some(k) && buckets[k].ips == WithKey(ips, k))
    && (forall i :: 0 <= i < |ips| && Valid(ips[i]) ==>
          (PrefixKeyFromIP(ips[i]).value in buckets <==> Heuristic(s, PrefixKeyFromIP(ips[i]).value.family)))
  }

  lemma {:induction false} NoneWithKey(ips: seq<IP>, key: Key)
    requires forall i :: 0 <= i < |ips| ==> PrefixKeyFromIP(ips[i]) != Some(key)
    ensures WithKey(ips, key) == []
  {
    if ips != [] {
      NoneWithKey(ips[..|ips| - 1], key);
    }
  }

  /** The bytes are an address, and its family has prefixes in the set. */
  predicate HasPrefixes(s: IPSet, ip: IP) {
    Valid(ip) && PrefixesFor(s, FromStdIP(ip).value) != []
  }

  class HeuristicIPMatcher {
    const ipset: IPSet
    var reverse: bool

    constructor (ipset: IPSet, reverse: bool)
      requires ValidSet(ipset)
      ensures this.ipset == ipset && this.reverse == reverse
    {
      this.ipset := ipset;
      this.reverse := reverse;
    }

    method ToggleReverse()
      modifies this
      ensures reverse == !old(reverse)
      ensures ValidSet(ipset) ==>
                forall ip :: Accepts(ip) <==> HasPrefixes(ipset, ip) && !old(Accepts(ip))
    {
      hide MatchAddr;
      forall ip | ValidSet(ipset) && Valid(ip)
        ensures MatchAddr(ipset, !reverse, FromStdIP(ip).value) <==>
                  HasPrefixes(ipset, ip) && !MatchAddr(ipset, reverse, FromStdIP(ip).value)
      {
        ReverseMeans(ipset, reverse, FromStdIP(ip).value);
        ReverseMeans(ipset, !reverse, FromStdIP(ip).value);
      }
      reverse := !reverse;
    }

    method SetReverse(reverse: bool)
      modifies this
      ensures this.reverse == reverse
    {
      this.reverse := reverse;
    }

    /** The pointwise meaning: the bytes are an address, and the set accepts it. */
    predicate Accepts(ip: IP)
      reads this
    {
      Valid(ip) && MatchAddr(ipset, reverse, FromStdIP(ip).value)
    }

    /** True if some address is valid and matches. */
    method AnyMatch(ips: seq<IP>) returns (r: bool)
      requires ValidSet(ipset)
      ensures r <==> exists i :: 0 <= i < |ips| && Accepts(ips[i])
    {
      hide MatchAddr, ValidSet;
      var n := |ips|;
      if n == 0 {
        return false;
      }
      if n == 1 {
        assert Accepts(ips[0]) ==> exists i :: 0 <= i < |ips| && Accepts(ips[i]);
        return Accepts(ips[0]);
      }
      var heur4 := ipset.max4 <= 24;
      var heur6 := ipset.max6 <= 64;
      if !heur4 && !heur6 {
        for i := 0 to n
          invariant forall k :: 0 <= k < i ==> !Accepts(ips[k])
        {
          if Accepts(ips[i]) {
            return true;
          }
        }
        return false;
      }
      var buckets: set<Key> := {};
      for i := 0 to n
        invariant forall k :: 0 <= k < i ==> !Accepts(ips[k])
        invariant forall key :: key in buckets ==>
                    Heuristic(ipset, key.family) && exists k :: 0 <= k < i && PrefixKeyFromIP(ips[k]) == Some(key)
      {
        var ip := ips[i];
        KeyIffValid(ip);
        var key := PrefixKeyFromIP(ip);
        if key.None? {
          continue;
        }
        var heur := (key.value.family == 4 && heur4) || (key.value.family == 6 && heur6);
        if heur && key.value in buckets {
          ghost var k :| 0 <= k < i && PrefixKeyFromIP(ips[k]) == key;
          KeyIffValid(ips[k]);
          BucketDecides(ipset, reverse, ips[k], ip);
          assert !Accepts(ips[k]);
          continue;
        }
        if MatchAddr(ipset, reverse, FromStdIP(ip).value) {
          assert Accepts(ips[i]);
          return true;
        }
        if heur {
          buckets := buckets + {key.value};
        }
      }
      return false;
    }

    /** True if there are addresses, and all of them are valid and match. */
    method Matches(ips: seq<IP>) returns (r: bool)
      requires ValidSet(ipset)
      ensures r <==> ips != [] && forall i :: 0 <= i < |ips| ==> Accepts(ips[i])
    {
      hide MatchAddr, ValidSet, FromStdIP, To4, PrefixKeyFromIP, Valid;
      var n := |ips|;
      if n == 0 {
        return false;
      }
      if n == 1 {
        return Accepts(ips[0]);
      }
      var heur4 := ipset.max4 <= 24;
      var heur6 := ipset.max6 <= 64;
      if !heur4 && !heur6 {
        for i := 0 to n
          invariant forall k :: 0 <= k < i ==> Accepts(ips[k])
        {
          if !Accepts(ips[i]) {
            return false;
          }
        }
        return true;
      }
      var buckets: map<Key, IP> := map[];
      var precise: seq<IP> := [];
      for i := 0 to n
        invariant Views(ips[..i], buckets, precise)
      {
        var ip := ips[i];
        KeyIffValid(ip);
        assert ips[..i + 1] == ips[..i] + [ip];
        var key := PrefixKeyFromIP(ip);
        if key.None? {
          return false;
        }
        if (key.value.family == 4 && heur4) || (key.value.family == 6 && heur6) {
          if key.value !in buckets {
            buckets := buckets[key.value := ip];
          }
        } else {
          precise := precise + [ip];
          assert precise[|precise| - 1] == ip;
        }
      }
      assert ips[..n] == ips;
      r := CheckViews(ips, buckets, precise);
    }

    /** Every address is valid and stands in its bucket or in the precise list, and nothing else does. */
    ghost predicate Views(ips: seq<IP>, buckets: map<Key, IP>, precise: seq<IP>) {
      && (forall i :: 0 <= i < |ips| ==> Valid(ips[i]))
      && (forall i :: 0 <= i < |ips| ==>
            if Heuristic(ipset, PrefixKeyFromIP(ips[i]).value.family)
            then PrefixKeyFromIP(ips[i]).value in buckets else ips[i] in precise)
      && (forall k :: k in buckets ==>
            Heuristic(ipset, k.family) && buckets[k] in ips && PrefixKeyFromIP(buckets[k]) == Some(k))
      && (forall ip :: ip in precise ==> ip in ips)
    }

    method CheckViews(ghost ips: seq<IP>, buckets: map<Key, IP>, precise: seq<IP>) returns (r: bool)
      requires ValidSet(ipset) && Views(ips, buckets, precise)
      ensures r <==> forall i :: 0 <= i < |ips| ==> Accepts(ips[i])
    {
      hide MatchAddr, ValidSet;
      var left := buckets.Keys;
      while left != {}
        invariant left <= buckets.Keys
        invariant forall k :: k in buckets && k !in left ==> Accepts(buckets[k])
        decreases left
      {
        var k :| k in left;
        left := left - {k};
        if !Accepts(buckets[k]) {
          ghost var i :| 0 <= i < |ips| && ips[i] == buckets[k];
          return false;
        }
      }
      for j := 0 to |precise|
        invariant forall k :: 0 <= k < j ==> Accepts(precise[k])
      {
        if !Accepts(precise[j]) {
          assert precise[j] in precise;
          ghost var i :| 0 <= i < |ips| && ips[i] == precise[j];
          return false;
        }
      }
      forall i | 0 <= i < |ips|
        ensures Accepts(ips[i])
      {
        KeyIffValid(ips[i]);
        var key := PrefixKeyFromIP(ips[i]).value;
        if Heuristic(ipset, key.family) {
          KeyIffValid(buckets[key]);
          BucketDecides(ipset, reverse, buckets[key], ips[i]);
        }
      }
      return true;
    }

    /** The buckets of the heuristic families and the list of the others. */
    method Build(ips: seq<IP>) returns (buckets: map<Key, Bucket>, precise: seq<IP>)
      ensures Bucketed(ipset, ips, buckets, precise)
    {
      hide MatchAddr, FromStdIP, To4, PrefixKeyFromIP, Valid;
      var heur4 := ipset.max4 <= 24;
      var heur6 := ipset.max6 <= 64;
      buckets, precise := map[], [];
      for i := 0 to |ips|
        invariant Bucketed(ipset, ips[..i], buckets, precise)
      {
        var ip := ips[i];
        assert ips[..i + 1][..i] == ips[..i];
        KeyIffValid(ip);
        var key := PrefixKeyFromIP(ip);
        if key.None? {
          continue;
        }
        var family := key.value.family;
        if (family == 4 && !heur4) || (family == 6 && !heur6) {
          precise := precise + [ip];
          continue;
        }
        if key.value !in buckets {
          forall k | 0 <= k < i
            ensures PrefixKeyFromIP(ips[k]) != key
          {
            KeyIffValid(ips[k]);
          }
          NoneWithKey(ips[..i], key.value);
          buckets := buckets[key.value := Bucket(ip, [])];
        }
        var b := buckets[key.value];
        buckets := buckets[key.value := b.(ips := b.ips + [ip])];
      }
      assert ips[..|ips|] == ips;
    }

    /** Puts whole buckets on the side of their representative. */
    method SplitBuckets(ghost ips: seq<IP>, buckets: map<Key, Bucket>, ghost precise: seq<IP>)
      returns (matched: seq<IP>, unmatched: seq<IP>)
      requires ValidSet(ipset) && Bucketed(ipset, ips, buckets, precise)
      ensures multiset(matched) == multiset(Pick(ipset, reverse, ips, buckets.Keys, true))
      ensures multiset(unmatched) == multiset(Pick(ipset, reverse, ips, buckets.Keys, false))
    {
      hide MatchAddr, ValidSet, Pick, WithKey;
      matched, unmatched := [], [];
      var left := buckets.Keys;
      PickNoKeys(ipset, reverse, ips, true);
      PickNoKeys(ipset, reverse, ips, false);
      assert buckets.Keys - left == {};
      while left != {}
        invariant left <= buckets.Keys
        invariant multiset(matched) == multiset(Pick(ipset, reverse, ips, buckets.Keys - left, true))
        invariant multiset(unmatched) == multiset(Pick(ipset, reverse, ips, buckets.Keys - left, false))
        decreases left
      {
        var k :| k in left;
        var b := buckets[k];
        PickOneMoreKey(ipset, reverse, ips, buckets.Keys - left, k, b.rep, true);
        PickOneMoreKey(ipset, reverse, ips, buckets.Keys - left, k, b.rep, false);
        assert buckets.Keys - (left - {k}) == (buckets.Keys - left) + {k};
        left := left - {k};
        if Accepts(b.rep) {
          matched := matched + b.ips;
        } else {
          unmatched := unmatched + b.ips;
        }
      }
      assert buckets.Keys - left == buckets.Keys;
    }

    /** Each address of a list to its own side. */
    method SplitOneByOne(ips: seq<IP>) returns (matched: seq<IP>, unmatched: seq<IP>)
      ensures matched == Side(ipset, reverse, ips, true)
      ensures unmatched == Side(ipset, reverse, ips, false)
    {
      hide MatchAddr;
      matched, unmatched := [], [];
      for i := 0 to |ips|
        invariant matched == Side(ipset, reverse, ips[..i], true)
        invariant unmatched == Side(ipset, reverse, ips[..i], false)
      {
        var ip := ips[i];
        assert ips[..i + 1][..i] == ips[..i];
        if !Valid(ip) {
          continue;
        }
        if Accepts(ip) {
          matched := matched + [ip];
        } else {
          unmatched := unmatched + [ip];
        }
      }
      assert ips[..|ips|] == ips;
    }

    /** The valid addresses, each on the side that a pointwise lookup puts it. */
    method FilterIPs(ips: seq<IP>) returns (matched: seq<IP>, unmatched: seq<IP>)
      requires ValidSet(ipset)
      ensures multiset(matched) == multiset(Side(ipset, reverse, ips, true))
      ensures multiset(unmatched) == multiset(Side(ipset, reverse, ips, false))
    {
      hide MatchAddr, ValidSet, Pick;
      var n := |ips|;
      if n == 0 {
        return [], [];
      }
      if n == 1 {
        assert ips[..0] == [] && ips == [] + [ips[0]];
        if !Valid(ips[0]) {
          return [], [];
        }
        if Accepts(ips[0]) {
          return ips, [];
        }
        return [], ips;
      }
      var heur4 := ipset.max4 <= 24;
      var heur6 := ipset.max6 <= 64;
      if !heur4 && !heur6 {
        matched, unmatched := SplitOneByOne(ips);
        return;
      }
      hide Side, Precise;
      var buckets, precise := Build(ips);
      matched, unmatched := SplitBuckets(ips, buckets, precise);
      var m, u := SplitOneByOne(precise);
      PickAllKeys(ipset, reverse, ips, buckets.Keys, true);
      PickAllKeys(ipset, reverse, ips, buckets.Keys, false);
      matched := matched + m;
      unmatched := unmatched + u;
    }
  }

  /** The two sides partition the valid addresses. */
  lemma {:induction false} SidesPartition(s: IPSet, reverse: bool, ips: seq<IP>)
    ensures var t, f := Side(s, reverse, ips, true), Side(s, reverse, ips, false);
            && (forall ip :: ip in t ==> ip in ips && Valid(ip) && MatchAddr(s, reverse, FromStdIP(ip).value))
            && (forall ip :: ip in f ==> ip in ips && Valid(ip) && !MatchAddr(s, reverse, FromStdIP(ip).value))
            && (forall ip :: Valid(ip) ==> multiset(t)[ip] + multiset(f)[ip] == multiset(ips)[ip])
  {
    hide MatchAddr, FromStdIP;
    if ips != [] {
      SidesPartition(s, reverse, ips[..|ips| - 1]);
      assert ips == ips[..|ips| - 1] + [ips[|ips| - 1]];
    }
  }

  lemma OneMoreOnSide(s: IPSet, reverse: bool, ips: seq<IP>)
    requires ips != []
    ensures var front, last := ips[..|ips| - 1], ips[|ips| - 1];
            var matches := Valid(last) && MatchAddr(s, reverse, FromStdIP(last).value);
            && multiset(Side(s, reverse, ips, true)) ==
                 multiset(Side(s, reverse, front, true)) + (if matches then multiset{last} else multiset{})
            && multiset(Side(s, reverse, ips, false)) ==
                 multiset(Side(s, reverse, front, false))
                 + (if Valid(last) && !matches then multiset{last} else multiset{})
  {
    hide MatchAddr, FromStdIP;
  }

  /** Reversing swaps the sides of the addresses whose family has prefixes; the others are never matched. */
  lemma {:induction false} SidesSwap(s: IPSet, reverse: bool, ips: seq<IP>, ip: IP)
    requires ValidSet(s)
    ensures HasPrefixes(s, ip) ==>
              && multiset(Side(s, !reverse, ips, true))[ip] == multiset(Side(s, reverse, ips, false))[ip]
              && multiset(Side(s, !reverse, ips, false))[ip] == multiset(Side(s, reverse, ips, true))[ip]
    ensures !HasPrefixes(s, ip) && Valid(ip) ==>
              && multiset(Side(s, reverse, ips, true))[ip] == 0
              && multiset(Side(s, reverse, ips, false))[ip] == multiset(ips)[ip]
  {
    hide MatchAddr, FromStdIP, PrefixesFor;
    if ips != [] {
      SidesSwap(s, reverse, ips[..|ips| - 1], ip);
      var last := ips[|ips| - 1];
      assert ips == ips[..|ips| - 1] + [last];
      if Valid(last) {
        ReverseMeans(s, reverse, FromStdIP(last).value);
        ReverseMeans(s, !reverse, FromStdIP(last).value);
      }
      OneMoreOnSide(s, reverse, ips);
      OneMoreOnSide(s, !reverse, ips);
    }
  }
}
