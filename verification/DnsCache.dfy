/** The DNS cache controller: two maps of shared records, one of them being migrated into the other. */
module DnsCache {
  import opened ByteSeq
  import opened DnsTable

  const MIN_SIZE_FOR_EMPTY_REBUILD := 512
  const SHRINK_ABSOLUTE_THRESHOLD := 10240
  const SHRINK_RATIO_THRESHOLD: real := 0.65
  const MIGRATION_BATCH_SIZE := 4096

  /** A cached name. Both maps may hold the same record, but only under the name it was made for. */
  class Record {
    ghost const domain: string
    var a: Option<IPRecord>
    var aaaa: Option<IPRecord>

    constructor (ghost domain: string, a: Option<IPRecord>, aaaa: Option<IPRecord>)
      ensures this.domain == domain && this.a == a && this.aaaa == aaaa
    {
      this.domain := domain;
      this.a := a;
      this.aaaa := aaaa;
    }

    function Get(half: Half): Option<IPRecord>
      reads this
    {
      if half == A then a else aaaa
    }
  }

  datatype Entry = Entry(key: string, value: Record)

  predicate Expired(r: Option<IPRecord>, now: int) {
    r.Some? && r.value.expire < now
  }

  /** A record that has time left to live. */
  function StillGood(r: Option<IPRecord>, now: int): Option<IPRecord> {
    if r.Some? && r.value.expire > now then r else None
  }

  function Other(half: Half): Half {
    if half == A then AAAA else A
  }

  /** `-int32(n)` for a `uint32`. */
  function NegatedInt32(n: nat): int
    requires n < 0x1_0000_0000
  {
    var s := if n < 0x8000_0000 then n else n - 0x1_0000_0000;
    if s == -0x8000_0000 then s else -s
  }

  class CacheController {
    const disableCache: bool
    const serveStale: bool
    /** Zero or negative seconds, unless the number given does not fit 32 bits with a sign. */
    const serveExpiredTTL: int

    var ips: map<string, Record>
    var dirtyips: Option<map<string, Record>>
    var highWatermark: int
    /** The entries that the migration running in the background has not flushed yet. */
    var todo: seq<Entry>

    constructor (disableCache: bool, serveStale: bool, serveExpiredTTL: nat)
      requires serveExpiredTTL < 0x1_0000_0000
      ensures Valid() && Contents() == map[]
      ensures this.disableCache == disableCache && ips == map[] && dirtyips == None
      ensures this.serveStale == serveStale && this.serveExpiredTTL == NegatedInt32(serveExpiredTTL)
    {
      this.disableCache := disableCache;
      this.serveStale := serveStale;
      this.serveExpiredTTL := NegatedInt32(serveExpiredTTL);
      ips := map[];
      dirtyips := None;
      highWatermark := 0;
      todo := [];
    }

    ghost function Dirty(): map<string, Record>
      reads this
    {
      if dirtyips.Some? then dirtyips.value else map[]
    }

    ghost function Records(): set<Record>
      reads this
    {
      (set d | d in ips :: ips[d]) + (set d | d in Dirty() :: Dirty()[d])
    }

    /**
     * Records sit under their own names. While a migration runs, whatever it has flushed is covered by the new
     * map: each half of the old record is there, or something newer.
     */
    ghost predicate Valid()
      reads this, Records()
    {
      && (forall d :: d in ips ==> ips[d].domain == d)
      && (forall d :: d in Dirty() ==> Dirty()[d].domain == d)
      && (dirtyips.None? ==> todo == [])
      && (forall i :: 0 <= i < |todo| ==> todo[i].key in Dirty() && Dirty()[todo[i].key] == todo[i].value)
      && (forall d :: d in Dirty() ==> Covered(d) || Waiting(d))
    }

    ghost predicate Waiting(d: string)
      reads this`todo
    {
      exists i :: 0 <= i < |todo| && todo[i].key == d
    }

    ghost predicate Covered(d: string)
      requires d in Dirty()
      reads this, Records()
    {
      d in ips && forall h: Half :: Dirty()[d].Get(h).Some? ==> ips[d].Get(h).Some?
    }

    /** The half that the new map holds, else the one that the old map holds. */
    ghost function View(d: string, h: Half): Option<IPRecord>
      reads this, Records()
    {
      if d in ips && ips[d].Get(h).Some? then ips[d].Get(h)
      else if d in Dirty() then Dirty()[d].Get(h)
      else None
    }

    ghost function Contents(): (t: Table)
      reads this, Records()
      ensures forall d, h :: (d, h) in t <==> View(d, h).Some?
      ensures forall d, h :: (d, h) in t ==> t[(d, h)] == View(d, h).value
    {
      map d: string, h: Half | d in ips.Keys + Dirty().Keys && View(d, h).Some? :: (d, h) := View(d, h).value
    }

    /** The time before which an answer counts as expired. */
    function Threshold(now: int): int {
      if serveStale && serveExpiredTTL != 0 then now + serveExpiredTTL else now
    }

    /** Puts a new record under a name: the new half, and the other half that the new map already held. */
    method Store(domain: string, half: Half, rep: IPRecord, other: Option<IPRecord>)
      requires Valid()
      requires other == if domain in ips then ips[domain].Get(Other(half)) else None
      modifies this`ips
      ensures Valid()
      ensures forall d, h :: View(d, h) == if d == domain && h == half then Some(rep) else old(View(d, h))
      ensures domain in ips && ips[domain].Get(half) == Some(rep) && ips[domain].Get(Other(half)) == other
    {
      var newRec := new Record(domain, if half == A then Some(rep) else other, if half == A then other else Some(rep));
      hide Waiting;
      ips := ips[domain := newRec];
      assert Dirty() == old(Dirty());
      assert forall d :: Waiting(d) == old(Waiting(d));
      assert forall d :: d in Dirty() && old(Covered(d)) ==> Covered(d);
    }

    /** A half of a name as the new map has it. */
    function InNewMap(domain: string, half: Half): Option<IPRecord>
      reads this, Records()
    {
      if domain in ips then ips[domain].Get(half) else None
    }

    /** A half of a name as either map has it. */
    function InEither(domain: string, half: Half): (r: Option<IPRecord>)
      reads this, Records()
      ensures r == View(domain, half)
    {
      if InNewMap(domain, half).Some? then InNewMap(domain, half)
      else if dirtyips.Some? && domain in dirtyips.value then dirtyips.value[domain].Get(half)
      else None
    }

    /** An answer arrives at time `now`. Returns the other half, which is published too if it has not expired. */
    method UpdateRecord(domain: string, half: Half, rep: IPRecord, now: int) returns (pubRecord: Option<IPRecord>)
      requires Valid()
      modifies this`ips
      ensures Valid()
      ensures Contents() == Apply(old(Contents()), if disableCache then Internal else Update(domain, half, rep))
      ensures var other := old(View(domain, if half == A then AAAA else A));
              pubRecord == if !disableCache && other.Some? && other.value.expire > now then other else None
      ensures !disableCache ==>
                && domain in ips && ips[domain].Get(half) == Some(rep)
                && ips[domain].Get(Other(half)) ==
                     if domain in old(ips) then old(ips[domain].Get(Other(half))) else None
    {
      if disableCache {
        return None;
      }
      hide Valid, StillGood, CacheController.InEither;
      var other := InNewMap(domain, Other(half));
      pubRecord := InEither(domain, Other(half));
      ghost var before := Contents();
      Store(domain, half, rep, other);
      hide View, Contents;
      SameTable(Contents(), before[(domain, half) := rep]);
      pubRecord := StillGood(pubRecord, now);
    }

    /** The names that hold an expired half. None while there is nothing to do, empty during a migration. */
    method CollectExpiredKeys(now: int) returns (expiredKeys: Option<seq<string>>)
      requires Valid()
      ensures expiredKeys.None? <==> ips == map[]
      ensures expiredKeys.Some? && dirtyips.Some? ==> expiredKeys.value == []
      ensures expiredKeys.Some? && dirtyips.None? ==>
                && (forall d, h :: Expired(View(d, h), Threshold(now)) ==> d in expiredKeys.value)
                && (forall d :: d in expiredKeys.value ==> exists h: Half :: Expired(View(d, h), Threshold(now)))
    {
      if |ips| == 0 {
        return None;
      }
      if dirtyips.Some? {
        return Some([]);
      }
      var found: seq<string> := [];
      var left := ips.Keys;
      while left != {}
        invariant left <= ips.Keys
        invariant forall d :: d in found <==>
                    && d in ips.Keys - left
                    && (Expired(ips[d].a, Threshold(now)) || Expired(ips[d].aaaa, Threshold(now)))
        decreases left
      {
        var d :| d in left;
        left := left - {d};
        var rec := ips[d];
        if Expired(rec.a, Threshold(now)) || Expired(rec.aaaa, Threshold(now)) {
          found := found + [d];
        }
      }
      assert forall d :: d in ips ==> View(d, A) == ips[d].a && View(d, AAAA) == ips[d].aaaa;
      return Some(found);
    }

    /** Drops the expired halves of one record, and the record once both are gone. */
    method DropExpired(domain: string, threshold: int)
      requires Valid() && dirtyips.None?
      modifies this`ips, Records()
      ensures Valid() && ips.Keys <= old(ips.Keys) && Records() <= old(Records())
      ensures forall d, h :: View(d, h) ==
                if d == domain && Expired(old(View(d, h)), threshold) then None else old(View(d, h))
    {
      if domain !in ips {
        return;
      }
      var rec := ips[domain];
      if Expired(rec.a, threshold) {
        rec.a := None;
      }
      if Expired(rec.aaaa, threshold) {
        rec.aaaa := None;
      }
      assert forall d :: d in ips && d != domain ==> ips[d] != rec;
      if rec.a.None? && rec.aaaa.None? {
        ips := ips - {domain};
      }
    }

    /** Whether the map has shrunk enough below its peak to be rebuilt. */
    static predicate ShouldShrink(peak: int, lenAfter: int) {
      && lenAfter != 0
      && peak - lenAfter > SHRINK_ABSOLUTE_THRESHOLD
      && (peak - lenAfter) as real > peak as real * SHRINK_RATIO_THRESHOLD
    }

    /** The map that holds everything right after a cleanup. */
    ghost function Whole(): map<string, Record>
      reads this
    {
      if dirtyips.Some? then dirtyips.value else ips
    }

    /** The largest size seen since the map was last rebuilt. */
    function Peak(): int
      reads this
    {
      if |ips| > highWatermark then |ips| else highWatermark
    }

    method RemoveExpired(expiredKeys: seq<string>, threshold: int)
      requires Valid() && dirtyips.None?
      modifies this`ips, Records()
      ensures Valid() && Records() <= old(Records())
      ensures forall d, h :: View(d, h) ==
                if d in ToSet(expiredKeys) && Expired(old(View(d, h)), threshold) then None else old(View(d, h))
    {
      for i := 0 to |expiredKeys|
        invariant Valid() && Records() <= old(Records())
        invariant forall d, h :: View(d, h) ==
                    if d in expiredKeys[..i] && Expired(old(View(d, h)), threshold) then None else old(View(d, h))
      {
        assert forall d :: d in expiredKeys[..i + 1] <==> d in expiredKeys[..i] || d == expiredKeys[i];
        DropExpired(expiredKeys[i], threshold);
      }
      assert expiredKeys[..|expiredKeys|] == expiredKeys;
    }

    /**
     * The periodic cleanup looks for expired halves at time `now` and removes those of the names it has found that are
     * expired when it comes to them, at time `later`; nothing while a migration is running.
     */
    method CacheCleanup(now: int, later: int) returns (stop: bool)
      requires Valid()
      modifies this, Records()
      ensures Valid() && (stop <==> old(ips) == map[])
      ensures old(dirtyips).Some? ==> Contents() == old(Contents())
      ensures old(dirtyips).None? ==> forall d, h ::
                View(d, h) == if old(HasExpired(d, now)) && Expired(old(View(d, h)), Threshold(later)) then None
                              else old(View(d, h))
    {
      hide Contents, Threshold;
      var expiredKeys := CollectExpiredKeys(now);
      if expiredKeys.None? || expiredKeys.value == [] {
        assert dirtyips.None? ==> forall d, h :: !Expired(View(d, h), Threshold(now));
        return expiredKeys.None?;
      }
      Shrink(expiredKeys.value, Threshold(later));
      return false;
    }

    /** Some half of the name has expired. */
    ghost predicate HasExpired(d: string, now: int)
      reads this, Records()
    {
      exists h: Half :: Expired(View(d, h), Threshold(now))
    }

    /** All entries of a map, in some order. */
    method Entries(m: map<string, Record>) returns (entries: seq<Entry>)
      ensures forall i :: 0 <= i < |entries| ==> entries[i].key in m && m[entries[i].key] == entries[i].value
      ensures forall d :: d in m ==> exists i :: 0 <= i < |entries| && entries[i].key == d
    {
      entries := [];
      var left := m.Keys;
      while left != {}
        invariant left <= m.Keys
        invariant forall i :: 0 <= i < |entries| ==> entries[i].key in m && m[entries[i].key] == entries[i].value
        invariant forall d :: d in m && d !in left ==> exists i :: 0 <= i < |entries| && entries[i].key == d
        decreases left
      {
        var d :| d in left;
        left := left - {d};
        ghost var before := entries;
        entries := entries + [Entry(d, m[d])];
        assert entries[|before|].key == d;
        assert forall i :: 0 <= i < |before| ==> entries[i] == before[i];
      }
    }

    /** The whole map becomes the old map, and its entries wait to be moved into a new one. */
    method StartMigration(lenAfter: int)
      requires Valid() && dirtyips.None?
      modifies this`ips, this`dirtyips, this`highWatermark, this`todo
      ensures Valid() && forall d, h :: View(d, h) == old(View(d, h))
      ensures dirtyips == Some(old(ips)) && ips == map[] && highWatermark == lenAfter
    {
      var entries := Entries(ips);
      dirtyips := Some(ips);
      ips := map[];
      highWatermark := lenAfter;
      todo := entries;
    }

    /** Removes the expired halves of the given names, and starts a migration when the map has shrunk enough. */
    method WriteAndShrink(expiredKeys: seq<string>, now: int)
      requires Valid()
      modifies this, Records()
      ensures Valid()
      ensures Contents() == Apply(old(Contents()),
                if old(dirtyips).Some? then Internal else Cleanup(ToSet(expiredKeys), Threshold(now)))
      ensures old(dirtyips).Some? ==> dirtyips == old(dirtyips) && ips == old(ips) && todo == old(todo)
      ensures old(dirtyips).None? ==>
                var peak := if |old(ips)| > old(highWatermark) then |old(ips)| else old(highWatermark);
                && (dirtyips.Some? <==>
                    |Whole()| > 0 && peak - |Whole()| > 10240 && 20 * (peak - |Whole()|) > 13 * peak)
                && (dirtyips.None? && |ips| == 0 ==> highWatermark == if peak >= 512 then 0 else peak)
                && (dirtyips.None? && |ips| > 0 ==> highWatermark == peak)
      ensures old(dirtyips).None? && dirtyips.Some? ==> ips == map[] && highWatermark == |dirtyips.value|
    {
      hide View, Valid, Contents, ToSet;
      if dirtyips.Some? {
        return;
      }
      Shrink(expiredKeys, Threshold(now));
      CleanedUp(old(Contents()), Contents(), expiredKeys, Threshold(now));
    }

    /** A table without the expired halves of the given names is what a cleanup leaves. */
    static lemma CleanedUp(before: Table, after: Table, expiredKeys: seq<string>, threshold: int)
      requires forall d, h :: (d, h) in after <==>
                 (d, h) in before && !(d in ToSet(expiredKeys) && before[(d, h)].expire < threshold)
      requires forall d, h :: (d, h) in after ==> after[(d, h)] == before[(d, h)]
      ensures after == Apply(before, Cleanup(ToSet(expiredKeys), threshold))
    {
      SameTable(after, Apply(before, Cleanup(ToSet(expiredKeys), threshold)));
    }

    method Shrink(expiredKeys: seq<string>, threshold: int)
      requires Valid() && dirtyips.None?
      modifies this, Records()
      ensures Valid()
      ensures forall d, h :: View(d, h) ==
                if d in ToSet(expiredKeys) && Expired(old(View(d, h)), threshold) then None else old(View(d, h))
      ensures dirtyips.Some? <==> ShouldShrink(old(Peak()), |Whole()|)
      ensures dirtyips.Some? ==> ips == map[] && highWatermark == |Whole()|
      ensures dirtyips.None? ==> highWatermark == if ips == map[] && old(Peak()) >= 512 then 0 else old(Peak())
    {
      var lenBefore := |ips|;
      if lenBefore > highWatermark {
        highWatermark := lenBefore;
      }
      RemoveExpired(expiredKeys, threshold);
      Rebuild();
    }

    /** Replaces a map that has become empty or has shrunk enough. */
    method Rebuild()
      requires Valid() && dirtyips.None?
      modifies this`ips, this`dirtyips, this`highWatermark, this`todo
      ensures Valid() && forall d, h :: View(d, h) == old(View(d, h))
      ensures dirtyips.Some? <==> ShouldShrink(old(highWatermark), |Whole()|)
      ensures dirtyips.Some? ==> ips == map[] && highWatermark == |Whole()|
      ensures dirtyips.None? ==>
                highWatermark == if ips == map[] && old(highWatermark) >= 512 then 0 else old(highWatermark)
    {
      var lenAfter := |ips|;
      if lenAfter == 0 {
        assert ips == map[];
        if highWatermark >= MIN_SIZE_FOR_EMPTY_REBUILD {
          ips := map[];
          highWatermark := 0;
        }
        assert ips == old(ips);
      } else if ShouldShrink(highWatermark, lenAfter) {
        StartMigration(lenAfter);
      }
    }

    /** Merges one record of the old map beneath whatever the new map holds. */
    method Merge(dirty: Entry)
      requires Valid() && dirty.key in Dirty() && Dirty()[dirty.key] == dirty.value
      modifies this`ips
      ensures Valid() && Covered(dirty.key)
      ensures forall d, h :: View(d, h) == old(View(d, h))
    {
      hide Waiting;
      if dirty.key in ips {
        var cur := ips[dirty.key];
        var merge := new Record(dirty.key,
          if cur.a.None? then dirty.value.a else cur.a,
          if cur.aaaa.None? then dirty.value.aaaa else cur.aaaa);
        ips := ips[dirty.key := merge];
      } else {
        ips := ips[dirty.key := dirty.value];
      }
      assert Dirty() == old(Dirty());
      assert forall d :: d in Dirty() && old(Covered(d)) ==> Covered(d);
    }

    /** One entry of the old map moves into the new one. */
    method FlushOne()
      requires Valid() && todo != []
      modifies this`ips, this`todo
      ensures Valid() && dirtyips == old(dirtyips) && todo == old(todo)[1..]
      ensures forall d, h :: View(d, h) == old(View(d, h))
    {
      Merge(todo[0]);
      hide Covered, View;
      label Merged:
      todo := todo[1..];
      forall d | d in Dirty() && !Covered(d)
        ensures Waiting(d)
      {
        var i :| 0 <= i < |old@Merged(todo)| && old@Merged(todo)[i].key == d;
        assert todo[i - 1].key == d;
      }
    }

    /** One batch of the migration, under one lock. */
    method Flush()
      requires Valid()
      modifies this`ips, this`todo
      ensures Valid() && Contents() == Apply(old(Contents()), Internal)
      ensures dirtyips == old(dirtyips)
              && |todo| == if |old(todo)| <= 4096 then 0 else |old(todo)| - 4096
    {
      var n := if |todo| <= MIGRATION_BATCH_SIZE then |todo| else MIGRATION_BATCH_SIZE;
      for i := 0 to n
        invariant Valid() && dirtyips == old(dirtyips) && |todo| == |old(todo)| - i
        invariant forall d, h :: View(d, h) == old(View(d, h))
      {
        FlushOne();
      }
    }

    /** The end of the migration: the old map is dropped. */
    method EndMigration()
      requires Valid() && todo == []
      modifies this`dirtyips
      ensures Valid() && dirtyips.None? && Contents() == Apply(old(Contents()), Internal)
    {
      dirtyips := None;
      assert forall d, h :: View(d, h) == old(View(d, h));
    }

    /** Runs the whole migration without anything in between. */
    method Migrate()
      requires Valid()
      modifies this`ips, this`todo, this`dirtyips
      ensures Valid() && dirtyips.None? && Contents() == old(Contents())
    {
      while todo != []
        invariant Valid() && Contents() == old(Contents())
        decreases |todo|
      {
        Flush();
      }
      EndMigration();
    }

    /** A lookup. During a migration it may miss a half that only the old map holds. */
    method FindRecords(domain: string) returns (rec: Record?)
      requires Valid()
      ensures Valid() && Contents() == Apply(old(Contents()), Internal)
      ensures rec == if domain in ips then ips[domain] else if domain in Dirty() then Dirty()[domain] else null
      ensures rec != null ==> forall h: Half :: rec.Get(h).Some? ==> rec.Get(h) == View(domain, h)
      ensures rec != null ==>
                ((forall h: Half :: rec.Get(h) == View(domain, h)) <==>
                 !(domain in ips && domain in Dirty() &&
                   exists h: Half :: ips[domain].Get(h).None? && Dirty()[domain].Get(h).Some?))
    {
      rec := if domain in ips then ips[domain] else null;
      if rec == null && dirtyips.Some? {
        rec := if domain in dirtyips.value then dirtyips.value[domain] else null;
      }
    }
  }

  /** A cleanup counts an answer as expired only if it is, at any time. */
  ghost predicate NeverEarly(c: CacheController) {
    forall expire: int, now: int ::
      Expired(Some(IPRecord([], expire, 0)), c.Threshold(now)) ==> Expired(Some(IPRecord([], expire, 0)), now)
  }

  /**
   * A cleanup leaves an expired answer for as long as it may be served, and removes it after that. It never removes one
   * that has not expired exactly if stale answers are not served or the time for it is at most 2^31 seconds.
   */
  lemma StaleIsKept(c: CacheController, ttl: nat, r: IPRecord, now: int)
    requires ttl < 0x1_0000_0000 && c.serveExpiredTTL == NegatedInt32(ttl)
    ensures ttl <= 0x8000_0000 ==>
              (Expired(Some(r), c.Threshold(now)) <==> r.expire + (if c.serveStale then ttl else 0) < now)
    ensures NeverEarly(c) <==> !c.serveStale || ttl <= 0x8000_0000
  {
    if c.serveStale && ttl > 0x8000_0000 {
      assert Expired(Some(IPRecord([], 0, 0)), c.Threshold(0));
      assert !Expired(Some(IPRecord([], 0, 0)), 0);
    }
  }

  /**
   * A lookup that misses a half: a name with an IPv6 answer waits to be migrated, and its IPv4 answer is updated. The
   * new map then has a record of its own for the name, without the other half, until the migration gets there.
   */
  method HiddenHalf(name: string, a: IPRecord, aaaa: IPRecord) returns (c: CacheController, rec: Record?)
    ensures c.Valid() && rec != null
    ensures rec.a == Some(a) == c.View(name, A)
    ensures rec.aaaa == None && c.View(name, AAAA) == Some(aaaa)
  {
    hide CacheController.Valid, CacheController.View, CacheController.Contents;
    c := WaitingName(name, aaaa);
    ghost var before := c.Contents();
    var pub := c.UpdateRecord(name, A, a, 0);
    assert c.Contents() == before[(name, A) := a];
    rec := c.FindRecords(name);
    assert (name, A) in c.Contents() && (name, AAAA) in c.Contents();
  }

  /** A cache in the middle of a migration that has not reached its only name. */
  method WaitingName(name: string, aaaa: IPRecord) returns (c: CacheController)
    ensures fresh(c) && c.Valid() && !c.disableCache && c.ips == map[]
    ensures c.View(name, AAAA) == Some(aaaa) && c.View(name, A) == None
  {
    c := new CacheController(false, false, 0);
    var rec := new Record(name, None, Some(aaaa));
    c.dirtyips := Some(map[name := rec]);
    c.todo := [Entry(name, rec)];
    assert c.todo[0].key == name;
  }
}
