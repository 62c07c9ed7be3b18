/** Many sessions on one link: what each has sent is what arrives for it, whatever the interleaving and the cuts. */
module MuxLinks {
  import opened ByteSeq
  import opened Addresses
  import opened Buffers
  import opened MuxFrames
  import opened MuxReaders
  import opened MuxDemux
  import opened MuxWriters
  import opened MuxClients
  import opened MuxSessions
  import opened MuxServers

  // ---------------------------------------------------------------------------------------------
  // Frames on the wire

  ghost predicate AllGood(parse: IPParser, reverse: bool, link: seq<Frame>) {
    forall f :: f in link ==> GoodFrame(parse, f, reverse)
  }

  /** The bytes of a link. */
  function LinkBytes(link: seq<Frame>): bytes {
    if link == [] then []
    else (var e := EncodeFrame(link[0]); if e.Some? then e.value else []) + LinkBytes(link[1..])
  }

  /** The reader finds the frames of a link one after the other. */
  lemma {:induction false} FindsFrames(parse: IPParser, reverse: bool, link: seq<Frame>, n: nat)
    requires AllGood(parse, reverse, link) && n <= |link|
    ensures AfterFrames(parse, reverse, LinkBytes(link), n) == Some(LinkBytes(link[n..]))
    ensures n < |link| ==>
              DecodeFrame(parse, reverse, LinkBytes(link[n..])) ==
                Some((ReceivedFrame(link[n]), LinkBytes(link[n + 1..])))
    decreases n
  {
    hide EncodeFrame, DecodeFrame, GoodFrame, ReceivedFrame;
    if n < |link| {
      FrameRoundTrip(parse, link[n], reverse, LinkBytes(link[n + 1..]));
      assert link[n..][1..] == link[n + 1..];
    }
    if n == 0 {
      assert link[0..] == link;
    } else {
      FindsFrames(parse, reverse, link, n - 1);
    }
  }

  lemma NothingDecodes(parse: IPParser, reverse: bool)
    ensures DecodeFrame(parse, reverse, LinkBytes([])) == None
  {
  }

  /** Frames read off the front of a link are its first frames. */
  lemma FrontOfLink(parse: IPParser, reverse: bool, link: seq<Frame>, frames: seq<Parsed>)
    requires AllGood(parse, reverse, link) && IsFront(parse, reverse, LinkBytes(link), frames)
    ensures |frames| <= |link|
    ensures forall i :: 0 <= i < |frames| ==> frames[i] == ReceivedFrame(link[i])
  {
    hide DecodeFrame, GoodFrame, LinkBytes, AfterFrames, ReceivedFrame;
    forall i: nat | i < |frames| && i < |link|
      ensures frames[i] == ReceivedFrame(link[i])
    {
      FindsFrames(parse, reverse, link, i);
    }
    if |frames| > |link| {
      FindsFrames(parse, reverse, link, |link|);
      assert link[|link|..] == [];
      NothingDecodes(parse, reverse);
      assert false;
    }
  }

  // ---------------------------------------------------------------------------------------------
  // Interleavings

  /** The frames that writer `k` has put on the link. */
  function Pick(link: seq<Frame>, schedule: seq<nat>, k: nat): seq<Frame>
    requires |schedule| == |link|
  {
    if link == [] then []
    else
      var n := |link| - 1;
      Pick(link[..n], schedule[..n], k) + if schedule[n] == k then [link[n]] else []
  }

  /** The frames of one session, by the identifier they carry. */
  function Project(link: seq<Frame>, id: uint16): seq<Frame> {
    if link == [] then []
    else
      var n := |link| - 1;
      Project(link[..n], id) + if link[n].meta.sessionID == id then [link[n]] else []
  }

  /** The link carries what each writer has sent, each in its own order. */
  ghost predicate Interleaves(link: seq<Frame>, schedule: seq<nat>, sent: seq<seq<Frame>>) {
    && |schedule| == |link|
    && (forall i :: 0 <= i < |schedule| ==> schedule[i] < |sent|)
    && (forall k :: 0 <= k < |sent| ==> Pick(link, schedule, k) == sent[k])
  }

  function IDs(routes: seq<Route>): (r: seq<uint16>)
    ensures |r| == |routes| && forall i :: 0 <= i < |r| ==> r[i] == routes[i].id
  {
    seq(|routes|, i requires 0 <= i < |routes| => routes[i].id)
  }

  lemma {:induction false} PickHas(link: seq<Frame>, schedule: seq<nat>, i: nat)
    requires |schedule| == |link| && i < |link|
    ensures link[i] in Pick(link, schedule, schedule[i])
    decreases |link|
  {
    if i < |link| - 1 {
      PickHas(link[..|link| - 1], schedule[..|link| - 1], i);
    }
  }

  /** Writers with different identifiers can be told apart by them. */
  lemma {:induction false} ProjectIsPick(link: seq<Frame>, schedule: seq<nat>, ids: seq<uint16>, k: nat)
    requires |schedule| == |link| && Distinct(ids) && k < |ids|
    requires forall i :: 0 <= i < |link| ==> schedule[i] < |ids| && link[i].meta.sessionID == ids[schedule[i]]
    ensures Project(link, ids[k]) == Pick(link, schedule, k)
    decreases |link|
  {
    if link != [] {
      ProjectIsPick(link[..|link| - 1], schedule[..|link| - 1], ids, k);
    }
  }

  lemma {:induction false} ProjectGood(link: seq<Frame>, id: uint16, n: nat)
    requires n <= |link|
    ensures Project(link[..n], id) <= Project(link, id)
    decreases |link|
  {
    if n == |link| {
      assert link[..n] == link;
    } else {
      ProjectGood(link[..|link| - 1], id, n);
      assert link[..|link| - 1][..n] == link[..n];
    }
  }

  // ---------------------------------------------------------------------------------------------
  // One session's frames

  /** A frame that may come after those of a session. */
  ghost predicate Follows(r: Route, fs: seq<Frame>, f: Frame) {
    !IsOver(fs) && (IsNext(r, fs, f, false) || exists e :: f == EndFrame(r.id, e))
  }

  lemma SessionGrows(r: Route, all: seq<Frame>, n: nat)
    requires OneSession(r, all) && n < |all|
    ensures Follows(r, all[..n], all[n])
  {
    var body := Body(all);
    if n > 0 {
      assert IsNext(r, body[..n - 1], body[n - 1], false);
      assert all[..n][n - 1] == body[n - 1];
    }
    if n < |body| {
      assert IsNext(r, body[..n], body[n], false);
      assert body[..n] == all[..n];
    }
  }

  lemma SessionIDs(r: Route, all: seq<Frame>)
    requires OneSession(r, all)
    ensures forall f :: f in all ==> f.meta.sessionID == r.id
  {
    forall n | 0 <= n < |all|
      ensures all[n].meta.sessionID == r.id
    {
      SessionGrows(r, all, n);
    }
  }

  /** What is sent on a route can be written and read back; a packet fits into a buffer. */
  ghost predicate GoodSession(parse: IPParser, reverse: bool, r: Route, fs: seq<Frame>) {
    && OneSession(r, fs)
    && r.dest.Some? && (r.packet <==> r.dest.value.network == UDP) && r.globalID == NO_GLOBAL_ID
    && GoodMeta(parse, MetaOn(r, STATUS_NEW, 0), None, reverse)
    && (r.inbound.Some? ==> IPEnds(r.inbound.value) || MetaSize(MetaOn(r, STATUS_NEW, 0), None) <= MAX_META_LEN)
    && (forall f :: f in fs ==> |FrameData(f)| <= BUF_SIZE)
    && (forall f :: f in fs && f.udp.Some? ==> Survives(parse, f.udp.value.address))
  }

  lemma GoodFrames(parse: IPParser, reverse: bool, r: Route, fs: seq<Frame>)
    requires GoodSession(parse, reverse, r, fs)
    ensures AllGood(parse, reverse, fs)
  {
    hide WriteMeta, Survives, OneSession, GoodDestination;
    forall f | f in fs
      ensures GoodFrame(parse, f, reverse)
    {
      var n :| 0 <= n < |fs| && fs[n] == f;
      SessionGrows(r, fs, n);
      if exists e :: f == EndFrame(r.id, e) {
        MetaFits(parse, f.meta, f.udp, reverse);
      } else {
        MetaRoundTrip(parse, f.meta, f.udp, reverse);
        if f.meta.status == STATUS_KEEP || r.inbound.None? {
          ShortMeta(parse, f.meta, f.udp, reverse);
        } else {
          SameLength(parse, reverse, f.meta, f.udp, r);
        }
      }
    }
  }

  /** All opening frames of a session have metadata of one length if it names where the session came from. */
  lemma SameLength(parse: IPParser, reverse: bool, m: Meta, udp: Option<Destination>, r: Route)
    requires m == MetaOn(r, STATUS_NEW, m.option) && r.inbound.Some?
    requires GoodMeta(parse, m, udp, reverse)
    requires IPEnds(r.inbound.value) || MetaSize(MetaOn(r, STATUS_NEW, 0), None) <= MAX_META_LEN
    ensures WriteMeta(m, udp).Some? && |WriteMeta(m, udp).value| <= MAX_META_LEN
  {
    hide WriteMeta;
    if IPEnds(r.inbound.value) {
      MetaFits(parse, m, udp, reverse);
    } else {
      MetaLength(parse, m, udp, reverse);
    }
  }

  lemma ShortMeta(parse: IPParser, m: Meta, udp: Option<Destination>, reverse: bool)
    requires GoodMeta(parse, m, udp, reverse) && (m.status != STATUS_NEW || m.inbound.None?)
    ensures WriteMeta(m, udp).Some? && |WriteMeta(m, udp).value| <= 272
  {
    hide Survives, GoodDestination;
    MetaFits(parse, m.(inbound := None), udp, if m.status == STATUS_NEW then reverse else false);
  }

  // ---------------------------------------------------------------------------------------------
  // What has arrived

  /** Session `b` holds what its frames carry: all of it while it is open or if it is healthy, else a beginning. */
  ghost predicate Holds(b: Session, r: Route, fs: seq<Frame>) {
    && b.id == r.id && Some(b.target) == r.dest
    && (IsOver(fs) ==> !b.open) && (b.healthy && !IsOver(fs) ==> b.open)
    && Flat(b.pieces) <= Payload(fs)
    && (b.healthy || b.open ==> Flat(b.pieces) == Payload(fs))
    && (r.packet ==> b.pieces <= Solid(Datas(fs)))
    && (r.packet && (b.healthy || b.open) ==> b.pieces == Solid(Datas(fs)))
  }

  /** Place `h` in the log is the session of these frames and no other is; without an opening frame there is none. */
  ghost predicate Delivered(d: Demux, r: Route, fs: seq<Frame>, h: nat) {
    if Body(fs) == [] then r.id !in d.live && forall i :: 0 <= i < |d.log| ==> d.log[i].id != r.id
    else
      && h < |d.log| && Holds(d.log[h], r, fs)
      && (forall i :: 0 <= i < |d.log| && i != h ==> d.log[i].id != r.id)
      && (r.id in d.live <==> d.log[h].open) && (r.id in d.live ==> d.live[r.id] == h)
  }

  ghost predicate Arrived(d: Demux, r: Route, fs: seq<Frame>) {
    exists h :: Delivered(d, r, fs, h)
  }

  /** A frame of another session changes nothing. */
  lemma OthersFrame(s: Demux, p: Parsed, t: Demux, r: Route, fs: seq<Frame>, h: nat)
    requires ValidDemux(s) && Delivered(s, r, fs, h) && Step(s, p, t, true) && p.meta.sessionID != r.id
    ensures Delivered(t, r, fs, h)
  {
    hide Takes, Holds, IsOver, Body;
    var id := p.meta.sessionID;
    SameKind();
    assert |s.log| <= |t.log|;
    forall i | 0 <= i < |s.log|
      ensures t.log[i].id == s.log[i].id && (s.log[i].id == r.id ==> t.log[i] == s.log[i])
    {
      if p.meta.status == STATUS_NEW {
        assert t.log[i] == t.log[..|s.log|][i];
      }
    }
  }

  /** What a session holds after taking the data of one more frame. */
  lemma HoldsMore(a: Session, b: Session, r: Route, fs: seq<Frame>, f: Frame)
    requires Flat(a.pieces) == Payload(fs) && (r.packet ==> a.pieces == Solid(Datas(fs)))
    requires a.open && !IsOver(fs + [f]) && a.id == r.id && Some(a.target) == r.dest && (r.packet <==> a.Packet())
    requires Takes(a, FrameData(f), b, true)
    ensures Holds(b, r, fs + [f])
  {
    hide Flat, Payload, Solid, IsOver;
    var more, data := More(a, b), FrameData(f);
    assert b.pieces == a.pieces + more;
    FlatConcat(a.pieces, more);
    PayloadSnoc(fs, f);
    assert Datas(fs + [f]) == Datas(fs) + [data];
    SolidConcat(Datas(fs), [data]);
    SolidOne(data);
    FlatNothing();
    assert Payload(fs) + data == (Payload(fs) + Flat(more)) + data[|Flat(more)|..];
    if more == [] {
      assert b.pieces == a.pieces;
    } else if r.packet {
      assert More(a, b)[0] == data;
    }
  }

  lemma SolidOne(data: bytes)
    ensures Solid([data]) == if data == [] then [] else [data]
  {
  }

  lemma HoldsStill(a: Session, r: Route, fs: seq<Frame>, f: Frame)
    requires Holds(a, r, fs) && (!a.open || FrameData(f) == []) && !IsOver(fs)
    ensures !IsOver(fs + [f]) ==> Holds(a, r, fs + [f])
    ensures IsOver(fs + [f]) && FrameData(f) == [] ==> Holds(a.(open := false), r, fs + [f])
  {
    hide Flat, Payload, Solid, IsOver;
    PayloadSnoc(fs, f);
    assert Datas(fs + [f]) == Datas(fs) + [FrameData(f)];
    SolidConcat(Datas(fs), [FrameData(f)]);
    SolidOne(FrameData(f));
    assert Payload(fs) + [] == Payload(fs);
    assert Solid(Datas(fs)) + [] == Solid(Datas(fs));
  }

  lemma OpeningFrame(s: Demux, f: Frame, t: Demux, r: Route)
    requires ValidDemux(s) && Delivered(s, r, [], 0) && Step(s, ReceivedFrame(f), t, true)
    requires IsNext(r, [], f, false) && r.dest.Some? && (r.packet <==> r.dest.value.network == UDP)
    ensures Delivered(t, r, [f], |s.log|)
  {
    hide Takes, Holds, Received;
    ReceivedKeeps(f.meta, f.udp);
    var h := |s.log|;
    NoPayload();
    assert [] + [f] == [f];
    FlatNothing();
    SameKind();
    HoldsMore(Session(r.id, r.dest.value, t.log[h].healthy, true, []), t.log[h], r, [], f);
    assert forall i :: 0 <= i < h ==> t.log[i] == t.log[..h][i];
    HoldsOpen(t.log[h], r, [f]);
  }

  lemma HoldsOpen(b: Session, r: Route, fs: seq<Frame>)
    requires Holds(b, r, fs)
    ensures b.id == r.id
  {
  }

  lemma KeepFrame(s: Demux, f: Frame, t: Demux, r: Route, fs: seq<Frame>, h: nat)
    requires ValidDemux(s) && Delivered(s, r, fs, h) && Step(s, ReceivedFrame(f), t, true)
    requires fs != [] && !IsOver(fs) && IsNext(r, fs, f, false)
    requires r.dest.Some? && (r.packet <==> r.dest.value.network == UDP)
    ensures Delivered(t, r, fs + [f], h)
  {
    hide Takes, Received, Flat, Payload, Solid;
    ReceivedKeeps(f.meta, f.udp);
    SameKind();
    var a := s.log[h];
    if f.data.None? || r.id !in s.live {
      HoldsStill(a, r, fs, f);
    } else {
      HoldsMore(a, t.log[h], r, fs, f);
      assert forall i :: 0 <= i < |s.log| && i != h ==> t.log[i] == s.log[i];
    }
  }

  lemma EndingFrame(s: Demux, f: Frame, t: Demux, r: Route, fs: seq<Frame>, h: nat)
    requires ValidDemux(s) && Delivered(s, r, fs, h) && Step(s, ReceivedFrame(f), t, true)
    requires !IsOver(fs) && exists e :: f == EndFrame(r.id, e)
    ensures Delivered(t, r, fs + [f], h)
  {
    hide Holds, Received;
    ReceivedKeeps(f.meta, f.udp);
    assert (fs + [f])[..|fs|] == fs;
    if fs != [] {
      HoldsStill(s.log[h], r, fs, f);
    }
  }

  /** One step of the link, seen from one session. */
  lemma OneFrame(s: Demux, f: Frame, t: Demux, r: Route, fs: seq<Frame>, h: nat) returns (h': nat)
    requires ValidDemux(s) && Delivered(s, r, fs, h) && Step(s, ReceivedFrame(f), t, true)
    requires r.dest.Some? && (r.packet <==> r.dest.value.network == UDP)
    requires f.meta.sessionID == r.id ==> Follows(r, fs, f)
    ensures Delivered(t, r, if f.meta.sessionID == r.id then fs + [f] else fs, h')
  {
    hide Delivered, Step, ValidDemux, IsOver, ReceivedFrame;
    h' := h;
    if f.meta.sessionID != r.id {
      SameIdentifier(f);
      OthersFrame(s, ReceivedFrame(f), t, r, fs, h);
    } else if exists e :: f == EndFrame(r.id, e) {
      EndingFrame(s, f, t, r, fs, h);
    } else if fs == [] {
      NobodyYet(s, r, h);
      OpeningFrame(s, f, t, r);
      assert fs + [f] == [f];
      h' := |s.log|;
    } else {
      KeepFrame(s, f, t, r, fs, h);
    }
  }

  lemma SameIdentifier(f: Frame)
    ensures ReceivedFrame(f).meta.sessionID == f.meta.sessionID
  {
  }

  lemma NobodyYet(d: Demux, r: Route, h: nat)
    requires Delivered(d, r, [], h)
    ensures Delivered(d, r, [], 0)
  {
  }

  /** Over any run, a session has received what it has sent so far. */
  lemma {:induction false} RunDelivers(states: seq<Demux>, frames: seq<Parsed>, link: seq<Frame>, r: Route, n: nat)
    returns (h: nat)
    requires Chained(states, frames) && n <= |frames| <= |link|
    requires forall i :: 0 <= i < |frames| ==> frames[i] == ReceivedFrame(link[i])
    requires states[0] == Demux(map[], [], [])
    requires OneSession(r, Project(link, r.id)) && r.dest.Some? && (r.packet <==> r.dest.value.network == UDP)
    ensures Delivered(states[n], r, Project(link[..n], r.id), h)
    decreases n
  {
    hide Delivered, Step, ValidDemux, OneSession, ReceivedFrame, Follows;
    if n == 0 {
      NothingSent(r);
      assert link[..0] == [];
      h := 0;
      return;
    }
    var g := RunDelivers(states, frames, link, r, n - 1);
    var before := Project(link[..n - 1], r.id);
    var f := link[n - 1];
    assert link[..n][..n - 1] == link[..n - 1];
    if f.meta.sessionID == r.id {
      ProjectGood(link, r.id, n);
      SessionGrows(r, Project(link, r.id), |before|);
      assert Project(link, r.id)[..|before|] == before;
      assert Project(link[..n], r.id) == before + [f];
    } else {
      assert Project(link[..n], r.id) == before + [] == before;
    }
    h := OneFrame(states[n - 1], f, states[n], r, before, g);
  }

  lemma NothingSent(r: Route)
    ensures Delivered(Demux(map[], [], []), r, [], 0)
  {
  }

  // ---------------------------------------------------------------------------------------------
  // From end to end

  lemma SentIsGood(parse: IPParser, reverse: bool, routes: seq<Route>, sent: seq<seq<Frame>>, link: seq<Frame>,
                   schedule: seq<nat>)
    requires |routes| == |sent| && forall k :: 0 <= k < |sent| ==> GoodSession(parse, reverse, routes[k], sent[k])
    requires Interleaves(link, schedule, sent)
    ensures AllGood(parse, reverse, link)
    ensures forall i :: 0 <= i < |link| ==> link[i].meta.sessionID == IDs(routes)[schedule[i]]
  {
    hide OneSession, GoodFrame, Pick, GoodMeta, WriteMeta, Survives;
    forall i | 0 <= i < |link|
      ensures GoodFrame(parse, link[i], reverse)
      ensures link[i].meta.sessionID == IDs(routes)[schedule[i]]
    {
      var k := schedule[i];
      PickHas(link, schedule, i);
      GoodFrames(parse, reverse, routes[k], sent[k]);
      SessionIDs(routes[k], sent[k]);
    }
  }

  lemma SessionOnLink(parse: IPParser, reverse: bool, routes: seq<Route>, sent: seq<seq<Frame>>, link: seq<Frame>,
                      schedule: seq<nat>, k: nat)
    requires |routes| == |sent| && k < |sent| && GoodSession(parse, reverse, routes[k], sent[k])
    requires Interleaves(link, schedule, sent) && Distinct(IDs(routes))
    requires forall i :: 0 <= i < |link| ==> link[i].meta.sessionID == IDs(routes)[schedule[i]]
    ensures var r := routes[k];
            && Project(link, r.id) == sent[k] && OneSession(r, Project(link, r.id))
            && r.dest.Some? && (r.packet <==> r.dest.value.network == UDP)
  {
    hide Distinct, OneSession, Pick, Project, GoodMeta, WriteMeta, Survives;
    ProjectIsPick(link, schedule, IDs(routes), k);
  }

  /** Each session is one that the server can read and has a way for. */
  ghost predicate AllWelcome(worker: ServerWorker, routes: seq<Route>, sent: seq<seq<Frame>>) {
    && |routes| == |sent|
    && forall k :: 0 <= k < |sent| ==>
         && GoodSession(worker.parse, worker.reverse, routes[k], sent[k])
         && worker.Welcome(MetaOn(routes[k], STATUS_NEW, 0))
  }

  lemma LinkIsGood(worker: ServerWorker, routes: seq<Route>, sent: seq<seq<Frame>>, link: seq<Frame>,
                   schedule: seq<nat>)
    requires AllWelcome(worker, routes, sent) && Interleaves(link, schedule, sent)
    ensures AllGood(worker.parse, worker.reverse, link)
    ensures forall i :: 0 <= i < |link| ==> link[i].meta.sessionID == IDs(routes)[schedule[i]]
    ensures forall i :: 0 <= i < |link| ==> IsExpected(worker, ReceivedFrame(link[i]))
  {
    hide GoodSession, GoodFrame, ReceivedFrame, IsExpected, Pick;
    SentIsGood(worker.parse, worker.reverse, routes, sent, link, schedule);
    forall i | 0 <= i < |link|
      ensures IsExpected(worker, ReceivedFrame(link[i]))
    {
      PickHas(link, schedule, i);
      OneOfSession(worker, routes[schedule[i]], sent[schedule[i]], link[i]);
    }
  }

  /** A frame that the server has no reason to break the connection for. */
  ghost predicate IsExpected(worker: ServerWorker, p: Parsed) {
    && p.meta.status in {STATUS_NEW, STATUS_KEEP, STATUS_END}
    && (p.meta.status == STATUS_NEW ==> worker.Welcome(p.meta))
    && |DataOf(p)| <= BUF_SIZE
  }

  lemma OneOfSession(worker: ServerWorker, r: Route, fs: seq<Frame>, f: Frame)
    requires GoodSession(worker.parse, worker.reverse, r, fs) && worker.Welcome(MetaOn(r, STATUS_NEW, 0)) && f in fs
    ensures IsExpected(worker, ReceivedFrame(f))
  {
    hide GoodMeta, WriteMeta;
    var n :| 0 <= n < |fs| && fs[n] == f;
    SessionGrows(r, fs, n);
    ReceivedKeeps(f.meta, f.udp);
  }

  lemma Unexcused(worker: ServerWorker, p: Parsed, outcome: Outcome)
    requires IsExpected(worker, p) && worker.Excused(p.meta, DataOf(p), outcome)
    ensures !outcome.Broken?
  {
  }

  /** A server that stops has read the whole link, unless it had a reason to break off. */
  lemma ReadsAll(worker: ServerWorker, link: seq<Frame>, frames: seq<Parsed>, outcome: Outcome)
    requires AllGood(worker.parse, worker.reverse, link)
    requires forall i :: 0 <= i < |link| ==> IsExpected(worker, ReceivedFrame(link[i]))
    requires IsFront(worker.parse, worker.reverse, LinkBytes(link), frames) && outcome != Done
    requires var rest := AfterFrames(worker.parse, worker.reverse, LinkBytes(link), |frames|).value;
             var d := DecodeFrame(worker.parse, worker.reverse, rest);
             && (outcome == Ended ==> d == None)
             && (outcome.Broken? ==> d.None? || worker.Excused(d.value.0.meta, DataOf(d.value.0), outcome))
    ensures |frames| == |link| && (forall i :: 0 <= i < |frames| ==> frames[i] == ReceivedFrame(link[i]))
    ensures AfterFrames(worker.parse, worker.reverse, LinkBytes(link), |frames|) == Some([])
  {
    hide AllGood, IsFront, DecodeFrame, IsExpected, ReceivedFrame, LinkBytes, AfterFrames;
    var n := |frames|;
    FrontOfLink(worker.parse, worker.reverse, link, frames);
    FindsFrames(worker.parse, worker.reverse, link, n);
    if n < |link| {
      Unexcused(worker, ReceivedFrame(link[n]), outcome);
    }
    assert link[n..] == [];
    NoBytes();
  }

  lemma NoBytes()
    ensures LinkBytes([]) == []
  {
  }

  /**
   * Sessions with identifiers from one table, each sending on a route the server has, on one link in any interleaving:
   * a server that reads the link in any pieces reads it to the end, and each session holds what was sent for it.
   */
  method Deliver(worker: ServerWorker, reader: BufferedReader, ghost routes: seq<Route>, ghost sent: seq<seq<Frame>>,
                 ghost link: seq<Frame>, ghost schedule: seq<nat>,
                 ghost maxConcurrency: uint32, ghost maxConnection: uint32, ghost events: seq<Event>)
    returns (outcome: Outcome)
    requires worker.Valid() && worker.View() == Demux(map[], [], [])
    requires AllWelcome(worker, routes, sent) && Interleaves(link, schedule, sent)
    requires reader.Remaining() == LinkBytes(link)
    requires IDs(routes) == Identifiers(NEW_TABLE, maxConcurrency, maxConnection, events)
             && ConnectionLimit(maxConnection) > 0
    modifies worker`log, worker`replies, worker.manager, reader
    ensures worker.Valid() && outcome == Ended && reader.Remaining() == []
    ensures forall k :: 0 <= k < |sent| ==> Arrived(worker.View(), routes[k], sent[k])
  {
    hide AllWelcome, Interleaves, Identifiers, ConnectionLimit, IsFront, DecodeFrame, AfterFrames, Arrived, LinkBytes;
    LinkIsGood(worker, routes, sent, link, schedule);
    LimitedAreDistinct(maxConcurrency, maxConnection, events);
    ghost var states, frames;
    states, frames, outcome := worker.Run(reader);
    ReadsAll(worker, link, frames, outcome);
    AllDelivered(worker, states, frames, routes, sent, link, schedule);
  }

  /** What a session holds is what its writer has read from its input. */
  lemma InputArrives(d: Demux, r: Route, fs: seq<Frame>, input: seq<Buffer>, h: nat)
    requires Delivered(d, r, fs, h) && Body(fs) != [] && CarriesInput(r, fs, input, true)
    ensures Flat(d.log[h].pieces) <= Flat(Contents(input))
    ensures d.log[h].healthy || d.log[h].open ==> Flat(d.log[h].pieces) == Flat(Contents(input))
    ensures r.packet && (d.log[h].healthy || d.log[h].open) ==> d.log[h].pieces == Solid(Contents(input))
  {
    hide Flat, Payload, Solid;
  }

  lemma AllDelivered(worker: ServerWorker, states: seq<Demux>, frames: seq<Parsed>, routes: seq<Route>,
                     sent: seq<seq<Frame>>, link: seq<Frame>, schedule: seq<nat>)
    requires AllWelcome(worker, routes, sent) && Interleaves(link, schedule, sent) && Distinct(IDs(routes))
    requires forall i :: 0 <= i < |link| ==> link[i].meta.sessionID == IDs(routes)[schedule[i]]
    requires Chained(states, frames) && |frames| == |link| && states[0] == Demux(map[], [], [])
    requires forall i :: 0 <= i < |frames| ==> frames[i] == ReceivedFrame(link[i])
    ensures forall k :: 0 <= k < |sent| ==> Arrived(states[|frames|], routes[k], sent[k])
  {
    hide Distinct, ValidDemux, ReceivedFrame, Delivered, Step, OneSession, GoodMeta, Pick, Project;
    forall k: nat | k < |sent|
      ensures Arrived(states[|frames|], routes[k], sent[k])
    {
      SessionOnLink(worker.parse, worker.reverse, routes, sent, link, schedule, k);
      var h := RunDelivers(states, frames, link, routes[k], |link|);
      assert link[..|link|] == link;
      assert Delivered(states[|frames|], routes[k], sent[k], h);
    }
  }

  // ---------------------------------------------------------------------------------------------
  // A link that breaks off

  /** A frame that is there stays the same when more bytes follow. */
  lemma DecodeLonger(parse: IPParser, reverse: bool, s: bytes, x: bytes)
    ensures var m := DecodeMeta(parse, reverse, s);
            m.Some? ==> DecodeMeta(parse, reverse, s + x) == Some((m.value.0, m.value.1 + x))
    ensures var d := DecodeFrame(parse, reverse, s);
            d.Some? ==> DecodeFrame(parse, reverse, s + x) == Some((d.value.0, d.value.1 + x))
  {
    hide ReadMeta, FrameComplete, ParsedFrom, FrameRest, DecodeFrame;
    if DecodeMeta(parse, reverse, s).Some? {
      var n := FromU16(s[0], s[1]);
      assert (s + x)[2..2 + n] == s[2..2 + n] && (s + x)[2 + n..] == s[2 + n..] + x;
      var m := DecodeMeta(parse, reverse, s).value;
      PartsLonger(m.0, m.1, x);
    }
    DecodeByParts(parse, reverse, s);
    DecodeByParts(parse, reverse, s + x);
  }

  lemma PartsLonger(m: Meta, r0: bytes, x: bytes)
    ensures FrameComplete(m, r0) ==>
              FrameComplete(m, r0 + x) && ParsedFrom(m, r0 + x) == ParsedFrom(m, r0)
                && FrameRest(m, r0 + x) == FrameRest(m, r0) + x
    ensures FrameComplete(m, r0 + x) ==> DataOf(ParsedFrom(m, r0)) <= DataOf(ParsedFrom(m, r0 + x))
    ensures ParsedFrom(m, r0).data.Some? == ParsedFrom(m, r0 + x).data.Some?
  {
    if |r0| >= 2 {
      assert (r0 + x)[2..] == r0[2..] + x;
      if DataComplete(r0 + x) {
        var k := DataLen(r0);
        if DataComplete(r0) {
          assert (r0 + x)[2..2 + k] == r0[2..2 + k] && (r0 + x)[2 + k..] == r0[2 + k..] + x;
        } else {
          assert (r0 + x)[2..2 + k] == r0[2..] + x[..2 + k - |r0|];
        }
      }
    }
  }

  lemma {:induction false} FrontLonger(parse: IPParser, reverse: bool, s: bytes, x: bytes, n: nat)
    requires AfterFrames(parse, reverse, s, n).Some?
    ensures AfterFrames(parse, reverse, s + x, n) == Some(AfterFrames(parse, reverse, s, n).value + x)
    decreases n
  {
    hide DecodeFrame;
    if n > 0 {
      FrontLonger(parse, reverse, s, x, n - 1);
      DecodeLonger(parse, reverse, AfterFrames(parse, reverse, s, n - 1).value, x);
    }
  }

  lemma IsFrontLonger(parse: IPParser, reverse: bool, s: bytes, x: bytes, frames: seq<Parsed>)
    requires IsFront(parse, reverse, s, frames)
    ensures IsFront(parse, reverse, s + x, frames)
    ensures AfterFrames(parse, reverse, s, |frames|).Some?
    ensures AfterFrames(parse, reverse, s + x, |frames|) == Some(AfterFrames(parse, reverse, s, |frames|).value + x)
  {
    hide DecodeFrame, AfterFrames;
    FrontLonger(parse, reverse, s, x, |frames|);
    forall i: nat | i < |frames|
      ensures AfterFrames(parse, reverse, s + x, i).Some?
      ensures DecodeFrame(parse, reverse, AfterFrames(parse, reverse, s + x, i).value).Some?
      ensures DecodeFrame(parse, reverse, AfterFrames(parse, reverse, s + x, i).value).value.0 == frames[i]
    {
      FrontLonger(parse, reverse, s, x, i);
      DecodeLonger(parse, reverse, AfterFrames(parse, reverse, s, i).value, x);
    }
  }

  /** Whatever session there is under the identifier has got a beginning of what was sent. */
  ghost predicate Beginning(d: Demux, r: Route, fs: seq<Frame>) {
    forall i :: 0 <= i < |d.log| && d.log[i].id == r.id ==>
        Some(d.log[i].target) == r.dest && Flat(d.log[i].pieces) <= Payload(fs)
  }

  lemma DeliveredBegins(d: Demux, r: Route, fs: seq<Frame>, h: nat, more: seq<Frame>)
    requires Delivered(d, r, fs, h)
    ensures Beginning(d, r, fs + more)
  {
    hide Flat, Payload, Solid;
    PayloadConcat(fs, more);
  }

  /** Pieces with a beginning of one more frame. */
  lemma TakesBeginning(a: Session, data: bytes, b: Session, fs: seq<Frame>, f: Frame)
    requires Takes(a, data, b, false) && data <= FrameData(f) && Flat(a.pieces) == Payload(fs)
    ensures Flat(b.pieces) <= Payload(fs + [f])
  {
    hide Flat, Payload;
    var more := More(a, b);
    assert b.pieces == a.pieces + more;
    FlatConcat(a.pieces, more);
    PayloadSnoc(fs, f);
    assert Payload(fs) + FrameData(f) == (Payload(fs) + Flat(more)) + FrameData(f)[|Flat(more)|..];
  }

  /** A frame that is cut off in its data. */
  lemma CutFrame(s: Demux, p: Parsed, f: Frame, t: Demux, r: Route, fs: seq<Frame>, h: nat)
    requires ValidDemux(s) && Delivered(s, r, fs, h) && Step(s, p, t, false)
    requires p.meta == ReceivedFrame(f).meta && DataOf(p) <= FrameData(f)
    requires f.meta.sessionID == r.id ==> Follows(r, fs, f)
    ensures Beginning(t, r, if f.meta.sessionID == r.id then fs + [f] else fs)
  {
    hide Received, Flat, Payload, Solid, Takes;
    ReceivedKeeps(f.meta, f.udp);
    SameKind();
    PayloadSnoc(fs, f);
    forall i | 0 <= i < |t.log| && t.log[i].id == r.id
      ensures Some(t.log[i].target) == r.dest
      ensures Flat(t.log[i].pieces) <= Payload(if f.meta.sessionID == r.id then fs + [f] else fs)
    {
      if f.meta.status == STATUS_NEW && i < |s.log| {
        assert t.log[i] == t.log[..|s.log|][i];
      }
      if f.meta.sessionID == r.id && f.meta.status == STATUS_NEW && i == |s.log| {
        FlatNothing();
        NoPayload();
        TakesBeginning(Session(r.id, p.meta.target.value, t.log[i].healthy, true, []), DataOf(p), t.log[i], [], f);
      } else if f.meta.sessionID == r.id && f.meta.status == STATUS_KEEP && r.id in s.live && p.data.Some? {
        TakesBeginning(s.log[h], DataOf(p), t.log[h], fs, f);
      }
    }
  }

  lemma BeginsLonger(d: Demux, r: Route, fs: seq<Frame>, all: seq<Frame>)
    requires Beginning(d, r, fs) && fs <= all
    ensures Beginning(d, r, all)
  {
    hide Flat, Payload;
    assert all == fs + all[|fs|..];
    PayloadConcat(fs, all[|fs|..]);
  }

  /** The frame in which the link breaks off is the beginning of the one that was sent. */
  lemma BrokenFrame(worker: ServerWorker, link: seq<Frame>, n: nat, rest: bytes, lost: bytes)
    requires AllGood(worker.parse, worker.reverse, link) && n <= |link| && rest + lost == LinkBytes(link[n..])
    ensures var m := DecodeMeta(worker.parse, worker.reverse, rest);
            m.Some? ==>
              && n < |link| && m.value.0 == ReceivedFrame(link[n]).meta
              && DataOf(ParsedFrom(m.value.0, m.value.1)) <= FrameData(link[n])
  {
    hide DecodeMeta, DecodeFrame, GoodFrame, LinkBytes, Received, ParsedFrom, FrameComplete, FrameRest;
    if n == |link| {
      assert link[n..] == [];
      NoBytes();
      NoMeta(worker.parse, worker.reverse, rest);
    } else {
      FindsFrames(worker.parse, worker.reverse, link, n);
      DecodeLonger(worker.parse, worker.reverse, rest, lost);
      DecodeByParts(worker.parse, worker.reverse, rest + lost);
      var m := DecodeMeta(worker.parse, worker.reverse, rest);
      if m.Some? {
        PartsLonger(m.value.0, m.value.1, lost);
        PartsOf(m.value.0, m.value.1 + lost);
      }
    }
  }

  lemma NoMeta(parse: IPParser, reverse: bool, rest: bytes)
    ensures rest == [] ==> DecodeMeta(parse, reverse, rest) == None
  {
  }

  /** One session at the end of a run that may have stopped in the middle of a frame. */
  lemma EndsInBeginning(worker: ServerWorker, states: seq<Demux>, frames: seq<Parsed>, link: seq<Frame>, r: Route,
                        rest: bytes, lost: bytes, d: Demux)
    requires AllGood(worker.parse, worker.reverse, link)
    requires |frames| <= |link| && rest + lost == LinkBytes(link[|frames|..])
    requires Chained(states, frames) && states[0] == Demux(map[], [], [])
    requires forall i :: 0 <= i < |frames| ==> frames[i] == ReceivedFrame(link[i])
    requires OneSession(r, Project(link, r.id)) && r.dest.Some? && (r.packet <==> r.dest.value.network == UDP)
    requires d == states[|frames|] || worker.BeganFrame(states[|frames|], rest, d)
    ensures Beginning(d, r, Project(link, r.id))
  {
    hide AllGood, DecodeMeta, Project, LinkBytes, OneSession, ReceivedFrame, ParsedFrom, Delivered, Step, ValidDemux,
        Beginning, Follows;
    var n := |frames|;
    var h := RunDelivers(states, frames, link, r, n);
    var before, all := Project(link[..n], r.id), Project(link, r.id);
    ProjectGood(link, r.id, n);
    if d == states[n] {
      DeliveredBegins(d, r, before, h, all[|before|..]);
      assert all == before + all[|before|..];
    } else {
      BrokenFrame(worker, link, n, rest, lost);
      var f := link[n];
      var m := DecodeMeta(worker.parse, worker.reverse, rest).value;
      ProjectSnoc(link, n, r.id);
      ProjectGood(link, r.id, n + 1);
      if f.meta.sessionID == r.id {
        SessionGrows(r, all, |before|);
        assert all[..|before|] == before && all[|before|] == f;
      }
      PartsOf(m.0, m.1);
      CutFrame(states[n], ParsedFrom(m.0, m.1), f, d, r, before, h);
      BeginsLonger(d, r, if f.meta.sessionID == r.id then before + [f] else before, all);
    }
  }

  lemma ProjectSnoc(link: seq<Frame>, n: nat, id: uint16)
    requires n < |link|
    ensures Project(link[..n + 1], id) ==
              if link[n].meta.sessionID == id then Project(link[..n], id) + [link[n]] else Project(link[..n], id)
  {
    assert link[..n + 1][..n] == link[..n];
  }

  /**
   * The link may break off at any byte, and the server may break the connection or refuse sessions: no session ever
   * holds anything but a beginning of what was sent for it.
   */
  method DeliverCut(worker: ServerWorker, reader: BufferedReader, ghost routes: seq<Route>, ghost sent: seq<seq<Frame>>,
                    ghost link: seq<Frame>, ghost schedule: seq<nat>, ghost lost: bytes)
    returns (outcome: Outcome)
    requires worker.Valid() && worker.View() == Demux(map[], [], [])
    requires |routes| == |sent| && forall k :: 0 <= k < |sent| ==>
               GoodSession(worker.parse, worker.reverse, routes[k], sent[k])
    requires Interleaves(link, schedule, sent) && Distinct(IDs(routes))
    requires reader.Remaining() + lost == LinkBytes(link)
    modifies worker`log, worker`replies, worker.manager, reader
    ensures worker.Valid()
    ensures forall k :: 0 <= k < |sent| ==> Beginning(worker.View(), routes[k], sent[k])
  {
    hide GoodSession, Interleaves, Distinct, IsFront, DecodeFrame, AfterFrames, Beginning, LinkBytes, AllGood;
    SentIsGood(worker.parse, worker.reverse, routes, sent, link, schedule);
    ghost var bytes0 := reader.Remaining();
    ghost var states, frames;
    states, frames, outcome := worker.Run(reader);
    IsFrontLonger(worker.parse, worker.reverse, bytes0, lost, frames);
    FrontOfLink(worker.parse, worker.reverse, link, frames);
    FindsFrames(worker.parse, worker.reverse, link, |frames|);
    ghost var rest := AfterFrames(worker.parse, worker.reverse, bytes0, |frames|).value;
    ghost var d := worker.View();
    forall k: nat | k < |sent|
      ensures Beginning(d, routes[k], sent[k])
    {
      SessionOnLink(worker.parse, worker.reverse, routes, sent, link, schedule, k);
      EndsInBeginning(worker, states, frames, link, routes[k], rest, lost, d);
    }
  }
}
