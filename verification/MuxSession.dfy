/** The table of sessions on one mux connection, and the identifiers it hands out. */
module MuxSessions {
  import opened ByteSeq
  import opened Addresses

  type uint32 = n: int | 0 <= n < 0x1_0000_0000

  /** What the manager holds: sessions by identifier, the wrapping counter, and whether it is closed. */
  datatype Table = Table(sessions: map<uint16, nat>, count: uint16, closed: bool)

  const NEW_TABLE := Table(map[], 0, false)

  /** The limit on connections is cut to 16 bits; zero means none. */
  function ConnectionLimit(maxConnection: uint32): uint16 {
    maxConnection % 0x1_0000
  }

  predicate CanAllocate(t: Table, maxConcurrency: uint32, maxConnection: uint32) {
    && !t.closed
    && !(maxConcurrency > 0 && |t.sessions| >= maxConcurrency)
    && !(ConnectionLimit(maxConnection) > 0 && t.count >= ConnectionLimit(maxConnection))
  }

  function NextID(t: Table): uint16 {
    (t.count + 1) % 0x1_0000
  }

  function Allocated(t: Table, session: nat): Table {
    t.(count := NextID(t), sessions := t.sessions[NextID(t) := session])
  }

  function Removed(t: Table, id: uint16): Table {
    if t.closed then t else t.(sessions := t.sessions - {id})
  }

  class SessionManager {
    var sessions: map<uint16, nat>
    var count: uint16
    var closed: bool

    constructor ()
      ensures View() == NEW_TABLE
    {
      sessions := map[];
      count := 0;
      closed := false;
    }

    function View(): Table
      reads this
    {
      Table(sessions, count, closed)
    }

    /** A new identifier for a session, unless a limit is reached. */
    method Allocate(maxConcurrency: uint32, maxConnection: uint32, session: nat) returns (id: Option<uint16>)
      modifies this
      ensures id.Some? <==> CanAllocate(old(View()), maxConcurrency, maxConnection)
      ensures id.Some? <==>
                && !old(closed)
                && (maxConcurrency == 0 || |old(sessions)| < maxConcurrency)
                && (maxConnection % 0x1_0000 == 0 || old(count) < maxConnection % 0x1_0000)
      ensures id.Some? ==> id.value == (old(count) + 1) % 0x1_0000 && sessions == old(sessions)[id.value := session]
      ensures id.Some? ==> id.value == NextID(old(View())) && View() == Allocated(old(View()), session)
      ensures id.None? ==> View() == old(View())
    {
      var limit := maxConnection % 0x1_0000;
      if closed || (maxConcurrency > 0 && |sessions| >= maxConcurrency) || (limit > 0 && count >= limit) {
        return None;
      }
      count := (count + 1) % 0x1_0000;
      sessions := sessions[count := session];
      return Some(count);
    }

    /** A session under an identifier that the peer has chosen; it replaces whatever was there. */
    method Add(id: uint16, session: nat) returns (ok: bool)
      modifies this
      ensures ok == !old(closed) && closed == old(closed)
      ensures ok ==> sessions == old(sessions)[id := session] && count == (old(count) + 1) % 0x1_0000
      ensures !ok ==> View() == old(View())
    {
      if closed {
        return false;
      }
      count := (count + 1) % 0x1_0000;
      sessions := sessions[id := session];
      return true;
    }

    method Remove(id: uint16)
      modifies this
      ensures View() == Removed(old(View()), id)
      ensures sessions == (if old(closed) then old(sessions) else old(sessions) - {id}) && count == old(count)
    {
      if closed {
        return;
      }
      sessions := sessions - {id};
    }

    function Get(id: uint16): Option<nat>
      reads this
    {
      if closed || id !in sessions then None else Some(sessions[id])
    }

    /** Closes a manager that had no session at the last check and has none now, with no new one in between. */
    method CloseIfNoSessionAndIdle(checkSize: int, checkCount: int) returns (isClosed: bool)
      modifies this
      ensures isClosed == closed
      ensures closed <==> old(closed) || (old(sessions) == map[] && checkSize == 0 && checkCount == old(count))
      ensures !isClosed ==> View() == old(View())
      ensures isClosed && !old(closed) ==> sessions == map[] && count == old(count)
    {
      if closed {
        return true;
      }
      if |sessions| != 0 || checkSize != 0 || checkCount != count {
        return false;
      }
      closed := true;
      sessions := map[];
      return true;
    }

    /** Closes the manager for good; returns the sessions that were open. */
    method Close() returns (toClose: set<nat>)
      modifies this
      ensures closed && (old(closed) ==> toClose == {} && View() == old(View()))
      ensures !old(closed) ==> toClose == old(sessions).Values && sessions == map[]
      ensures forall id :: Get(id) == None
    {
      if closed {
        return {};
      }
      closed := true;
      toClose := sessions.Values;
      sessions := map[];
    }
  }

  // ---------------------------------------------------------------------------------------------
  // Identifiers over whole runs

  datatype Event = Open(session: nat) | Leave(id: uint16)

  /** The identifiers handed out over a run in which sessions are opened and leave. */
  function Identifiers(t: Table, maxConcurrency: uint32, maxConnection: uint32, events: seq<Event>): seq<uint16>
    decreases |events|
  {
    if events == [] then []
    else
      match events[0]
      case Open(session) =>
        if CanAllocate(t, maxConcurrency, maxConnection)
        then [NextID(t)] + Identifiers(Allocated(t, session), maxConcurrency, maxConnection, events[1..])
        else Identifiers(t, maxConcurrency, maxConnection, events[1..])
      case Leave(id) => Identifiers(Removed(t, id), maxConcurrency, maxConnection, events[1..])
  }

  lemma CountWraps(count: uint16, k: nat)
    ensures k > 0 ==> ((count + 1) % 0x1_0000 + 1 + (k - 1)) % 0x1_0000 == (count + 1 + k) % 0x1_0000
    ensures count < 0xffff ==> (count + 1) % 0x1_0000 == count + 1
  {
    if count == 0xffff {
      assert (count + 1 + k) % 0x1_0000 == (0x1_0000 + k) % 0x1_0000 == k % 0x1_0000;
    }
  }

  /** The k-th identifier of a run is k, counted modulo 2^16. */
  lemma {:induction false} IdentifiersCount(t: Table, maxConcurrency: uint32, maxConnection: uint32,
                                            events: seq<Event>, k: nat)
    requires k < |Identifiers(t, maxConcurrency, maxConnection, events)|
    ensures Identifiers(t, maxConcurrency, maxConnection, events)[k] == (t.count + 1 + k) % 0x1_0000
    decreases |events|
  {
    hide CanAllocate;
    CountWraps(t.count, k);
    var e := events[0];
    if e.Open? && CanAllocate(t, maxConcurrency, maxConnection) {
      if k > 0 {
        IdentifiersCount(Allocated(t, e.session), maxConcurrency, maxConnection, events[1..], k - 1);
      }
    } else if e.Open? {
      IdentifiersCount(t, maxConcurrency, maxConnection, events[1..], k);
    } else {
      IdentifiersCount(Removed(t, e.id), maxConcurrency, maxConnection, events[1..], k);
    }
  }

  /** With a limit there are no more identifiers than the limit leaves. */
  lemma {:induction false} LimitHolds(t: Table, maxConcurrency: uint32, maxConnection: uint32, events: seq<Event>)
    requires ConnectionLimit(maxConnection) > 0 && t.count <= ConnectionLimit(maxConnection)
    ensures t.count + |Identifiers(t, maxConcurrency, maxConnection, events)| <= ConnectionLimit(maxConnection)
    decreases |events|
  {
    hide ConnectionLimit;
    if events != [] {
      var e := events[0];
      if e.Open? && CanAllocate(t, maxConcurrency, maxConnection) {
        CountWraps(t.count, 0);
        LimitHolds(Allocated(t, e.session), maxConcurrency, maxConnection, events[1..]);
      } else if e.Open? {
        LimitHolds(t, maxConcurrency, maxConnection, events[1..]);
      } else {
        LimitHolds(Removed(t, e.id), maxConcurrency, maxConnection, events[1..]);
      }
    }
  }

  /** The table after a run. */
  function After(t: Table, maxConcurrency: uint32, maxConnection: uint32, events: seq<Event>): Table {
    if events == [] then t
    else
      var before, e := After(t, maxConcurrency, maxConnection, events[..|events| - 1]), events[|events| - 1];
      match e
      case Open(session) =>
        if CanAllocate(before, maxConcurrency, maxConnection) then Allocated(before, session) else before
      case Leave(id) => Removed(before, id)
  }

  /** Over any run no more sessions are open at once than the limit on concurrency. */
  lemma {:induction false} ConcurrencyHolds(t: Table, maxConcurrency: uint32, maxConnection: uint32, events: seq<Event>)
    requires maxConcurrency > 0 && |t.sessions| <= maxConcurrency
    ensures |After(t, maxConcurrency, maxConnection, events).sessions| <= maxConcurrency
  {
    hide ConnectionLimit;
    if events != [] {
      var before, e := After(t, maxConcurrency, maxConnection, events[..|events| - 1]), events[|events| - 1];
      ConcurrencyHolds(t, maxConcurrency, maxConnection, events[..|events| - 1]);
      if e.Open? {
        OneKeyMore(before.sessions, NextID(before), e.session);
      } else {
        OneKeyLess(before.sessions, e.id);
      }
    }
  }

  lemma OneKeyMore(m: map<uint16, nat>, id: uint16, session: nat)
    ensures |m[id := session]| <= |m| + 1
  {
    assert m[id := session].Keys == m.Keys + {id};
    assert |m[id := session]| == |m[id := session].Keys|;
  }

  lemma OneKeyLess(m: map<uint16, nat>, id: uint16)
    ensures |m - {id}| <= |m|
  {
    assert (m - {id}).Keys == m.Keys - {id};
    assert |m - {id}| == |(m - {id}).Keys|;
  }

  function Opens(n: nat): seq<Event> {
    if n == 0 then [] else [Open(n)] + Opens(n - 1)
  }

  /** Without limits every session is opened. */
  lemma {:induction false} UnlimitedOpens(t: Table, maxConnection: uint32, n: nat)
    requires !t.closed && ConnectionLimit(maxConnection) == 0
    ensures |Identifiers(t, 0, maxConnection, Opens(n))| == n
    decreases n
  {
    if n > 0 {
      assert Opens(n)[1..] == Opens(n - 1);
      UnlimitedOpens(Allocated(t, n), maxConnection, n - 1);
    }
  }

  ghost predicate Distinct(ids: seq<uint16>) {
    forall i, j :: 0 <= i < j < |ids| ==> ids[i] != ids[j]
  }

  ghost predicate NeverRepeats(maxConnection: uint32) {
    forall maxConcurrency: uint32, events: seq<Event> ::
      Distinct(Identifiers(NEW_TABLE, maxConcurrency, maxConnection, events))
  }

  lemma LimitedAreDistinct(maxConcurrency: uint32, maxConnection: uint32, events: seq<Event>)
    requires ConnectionLimit(maxConnection) > 0
    ensures Distinct(Identifiers(NEW_TABLE, maxConcurrency, maxConnection, events))
  {
    hide Identifiers, ConnectionLimit;
    var ids := Identifiers(NEW_TABLE, maxConcurrency, maxConnection, events);
    LimitHolds(NEW_TABLE, maxConcurrency, maxConnection, events);
    forall k: nat | k < |ids|
      ensures ids[k] == k + 1
    {
      IdentifiersCount(NEW_TABLE, maxConcurrency, maxConnection, events, k);
    }
  }

  lemma UnlimitedRepeat(maxConnection: uint32)
    requires ConnectionLimit(maxConnection) == 0
    ensures !Distinct(Identifiers(NEW_TABLE, 0, maxConnection, Opens(0x1_0001)))
  {
    hide Identifiers, ConnectionLimit, Opens;
    var ids := Identifiers(NEW_TABLE, 0, maxConnection, Opens(0x1_0001));
    UnlimitedOpens(NEW_TABLE, maxConnection, 0x1_0001);
    IdentifiersCount(NEW_TABLE, 0, maxConnection, Opens(0x1_0001), 0);
    IdentifiersCount(NEW_TABLE, 0, maxConnection, Opens(0x1_0001), 0x1_0000);
    assert ids[0] == ids[0x1_0000];
  }

  /**
   * Identifiers never repeat, in any run, exactly when the connection limit survives the cut to 16 bits;
   * a limit of 65536 is no limit at all.
   */
  lemma IdentifiersDistinct(maxConnection: uint32)
    ensures NeverRepeats(maxConnection) <==> ConnectionLimit(maxConnection) > 0
  {
    hide Identifiers, ConnectionLimit, Opens, Distinct;
    if ConnectionLimit(maxConnection) > 0 {
      forall maxConcurrency: uint32, events: seq<Event>
        ensures Distinct(Identifiers(NEW_TABLE, maxConcurrency, maxConnection, events))
      {
        LimitedAreDistinct(maxConcurrency, maxConnection, events);
      }
    } else {
      UnlimitedRepeat(maxConnection);
    }
  }
}
