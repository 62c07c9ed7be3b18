/** What one frame does to the sessions on the receiving side of a mux connection. */
module MuxDemux {
  import opened ByteSeq
  import opened Addresses
  import opened MuxFrames

  /**
   * A session as its downstream sees it: the pieces written to it, in order. A healthy downstream
   * accepts every write; any other may refuse one at any time, and the session is then closed.
   */
  datatype Session = Session(id: uint16, target: Destination, healthy: bool, open: bool, pieces: seq<bytes>) {
    predicate Packet() {
      target.network == UDP
    }
  }

  /** The open session behind each identifier, all sessions ever, and the End frames sent back. */
  datatype Demux = Demux(live: map<uint16, nat>, log: seq<Session>, replies: seq<uint16>)

  ghost predicate ValidDemux(d: Demux) {
    forall id :: id in d.live ==> d.live[id] < |d.log| && d.log[d.live[id]].id == id && d.log[d.live[id]].open
  }

  /** The pieces that `b` has and `a` has not. */
  function More(a: Session, b: Session): seq<bytes>
    requires |a.pieces| <= |b.pieces|
  {
    b.pieces[|a.pieces|..]
  }

  /**
   * Session `a` turns into `b` on receiving `data`. A session that stays open has taken all of it,
   * a packet as one piece; a session that is closed has taken a beginning of it.
   */
  ghost predicate Takes(a: Session, data: bytes, b: Session, complete: bool) {
    && b.id == a.id && b.target == a.target && b.healthy == a.healthy
    && a.pieces <= b.pieces
    && Flat(More(a, b)) <= data
    && (forall i :: 0 <= i < |More(a, b)| ==> More(a, b)[i] != [])
    && (a.healthy ==> b.open == a.open)
    && (b.open ==> a.open)
    && (complete && b.open ==> Flat(More(a, b)) == data)
    && (a.Packet() ==> More(a, b) == [] || More(a, b) == [data])
  }

  function DataOf(p: Parsed): bytes {
    if p.data.Some? then p.data.value else []
  }

  function Close(s: Demux, id: uint16): Demux
    requires id in s.live ==> s.live[id] < |s.log|
  {
    if id in s.live
    then s.(live := s.live - {id}, log := s.log[s.live[id] := s.log[s.live[id]].(open := false)])
    else s
  }

  /** One frame, received whole (`complete`) or cut off in its data. */
  ghost predicate Step(s: Demux, p: Parsed, t: Demux, complete: bool)
    requires ValidDemux(s)
  {
    var id := p.meta.sessionID;
    if p.meta.status == STATUS_KEEP_ALIVE then t == s
    else if p.meta.status == STATUS_END then t == Close(s, id)
    else if p.meta.status == STATUS_NEW then
      && p.meta.target.Some?
      && |t.log| == |s.log| + 1 && t.log[..|s.log|] == s.log && t.replies == s.replies
      && var b := t.log[|s.log|];
         && Takes(Session(id, p.meta.target.value, b.healthy, true, []), DataOf(p), b, complete)
         && t.live == if b.open then s.live[id := |s.log|] else s.live - {id}
    else if p.meta.status == STATUS_KEEP then
      if p.data.None? then t == s
      else if id !in s.live then t == s.(replies := s.replies + [id])
      else
        var h := s.live[id];
        && |t.log| == |s.log| && t.replies == s.replies
        && t.log == s.log[h := t.log[h]]
        && Takes(s.log[h], DataOf(p), t.log[h], complete)
        && t.live == if t.log[h].open then s.live else s.live - {id}
    else false
  }

  /** Steps keep the table in order. */
  lemma StepKeepsValid(s: Demux, p: Parsed, t: Demux, complete: bool)
    requires ValidDemux(s) && Step(s, p, t, complete)
    ensures ValidDemux(t)
    ensures |s.log| <= |t.log|
  {
    forall id | id in t.live
      ensures t.live[id] < |t.log| && t.log[t.live[id]].id == id && t.log[t.live[id]].open
    {
      if p.meta.status == STATUS_NEW && t.live[id] < |s.log| {
        assert t.log[t.live[id]] == t.log[..|s.log|][t.live[id]];
      }
    }
  }

  /** The metadata at the front of a byte sequence, and what follows. */
  function DecodeMeta(parse: IPParser, reverse: bool, s: bytes): Option<(Meta, bytes)> {
    if |s| < 2 then None
    else
      var n := FromU16(s[0], s[1]);
      if n > MAX_META_LEN || |s| < 2 + n then None
      else
        var m := ReadMeta(parse, s[2..2 + n], reverse);
        if m.None? then None else Some((m.value, s[2 + n..]))
  }
}
