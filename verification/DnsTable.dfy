/** What the DNS cache is for: one table of unexpired answers, and what happens to it over whole runs. */
module DnsTable {
  /** An answer and the time at which it expires. */
  datatype IPRecord = IPRecord(ip: seq<seq<int>>, expire: int, rcode: int)

  /** The two halves of a cached name: its IPv4 and its IPv6 answer. */
  datatype Half = A | AAAA

  type Table = map<(string, Half), IPRecord>

  /** Steps that touch the cache. Moving records between its two maps, and looking them up, are internal. */
  datatype Event =
    | Update(domain: string, half: Half, rep: IPRecord)
    | Cleanup(domains: set<string>, threshold: int)
    | Internal

  function ToSet(names: seq<string>): set<string> {
    set d | d in names
  }

  predicate Removes(e: Event, domain: string, rec: IPRecord) {
    e.Cleanup? && domain in e.domains && rec.expire < e.threshold
  }

  function Apply(t: Table, e: Event): Table {
    match e
    case Update(domain, half, rep) => t[(domain, half) := rep]
    case Cleanup(_, _) => map k | k in t && !Removes(e, k.0, t[k]) :: t[k]
    case Internal => t
  }

  lemma SameTable(t: Table, u: Table)
    requires forall d, h :: (d, h) in t <==> (d, h) in u
    requires forall d, h :: (d, h) in t ==> t[(d, h)] == u[(d, h)]
    ensures t == u
  {
    forall k
      ensures k in t <==> k in u
      ensures k in t ==> t[k] == u[k]
    {
      assert k == (k.0, k.1);
    }
  }

  function Run(t: Table, events: seq<Event>): Table {
    if events == [] then t else Apply(Run(t, events[..|events| - 1]), events[|events| - 1])
  }

  /** Event `i` is the last update of this half. */
  ghost predicate LastUpdate(events: seq<Event>, i: nat, domain: string, half: Half) {
    && i < |events| && events[i].Update? && events[i].domain == domain && events[i].half == half
    && forall j :: i < j < |events| ==> !(events[j].Update? && events[j].domain == domain && events[j].half == half)
  }

  /** In any run a half holds its last update, unless a later cleanup found that update expired. */
  lemma {:induction false} HoldsLastUpdate(t: Table, events: seq<Event>, i: nat, domain: string, half: Half)
    requires LastUpdate(events, i, domain, half)
    ensures var removed := exists j :: i < j < |events| && Removes(events[j], domain, events[i].rep);
            && (removed ==> (domain, half) !in Run(t, events))
            && (!removed ==> (domain, half) in Run(t, events) && Run(t, events)[(domain, half)] == events[i].rep)
  {
    var n := |events| - 1;
    var front := events[..n];
    if i < n {
      HoldsLastUpdate(t, front, i, domain, half);
      assert forall j :: i < j < n ==> front[j] == events[j];
      if exists j :: i < j < n && Removes(front[j], domain, events[i].rep) {
        var j :| i < j < n && Removes(front[j], domain, events[i].rep);
        assert Removes(events[j], domain, events[i].rep);
      }
    }
  }

  /** A half that no event updates can only disappear, and only by a cleanup that found it expired. */
  lemma {:induction false} UntouchedHalf(t: Table, events: seq<Event>, domain: string, half: Half)
    requires forall j :: 0 <= j < |events| ==>
               !(events[j].Update? && events[j].domain == domain && events[j].half == half)
    ensures (domain, half) in Run(t, events) <==>
              (domain, half) in t &&
              forall j :: 0 <= j < |events| ==> !Removes(events[j], domain, t[(domain, half)])
    ensures (domain, half) in Run(t, events) ==> Run(t, events)[(domain, half)] == t[(domain, half)]
  {
    if events != [] {
      var n := |events| - 1;
      var front := events[..n];
      assert forall j :: 0 <= j < n ==> front[j] == events[j];
      UntouchedHalf(t, front, domain, half);
      if (domain, half) in t && forall j :: 0 <= j < |events| ==> !Removes(events[j], domain, t[(domain, half)]) {
        assert forall j :: 0 <= j < n ==> !Removes(front[j], domain, t[(domain, half)]);
        assert !Removes(events[n], domain, t[(domain, half)]);
      }
    }
  }
}
