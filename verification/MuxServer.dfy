/** The receiving side of a mux connection: frames off one reader, data to the sessions. */
module MuxServers {
  import opened ByteSeq
  import opened Addresses
  import opened Buffers
  import opened MuxFrames
  import opened MuxReaders
  import opened MuxDemux
  import opened MuxSessions
  import BufferWindows
  import MuxCodecs

  datatype Outcome = Done | Ended | Broken(reason: Reason)

  datatype Reason = BadMetadata | UnknownStatus | UnexpectedNetwork | DispatchFailed | GlobalSession | BadData

  /**
   * A stream reader in the middle of a frame's data: `r0` is what there was to read before the
   * length, `got` is what has been read of the data.
   */
  ghost predicate StreamAt(rr: ChunkStreamReader, r0: bytes, got: bytes)
    reads rr, rr.reader
  {
    && rr.maxNumChunk == 1
    && (rr.numChunk == 0 ==> rr.leftOverSize == 0 && got == [] && rr.reader.Remaining() == r0)
    && (rr.numChunk > 0 ==>
          && |r0| >= 2 && got + rr.reader.Remaining() == r0[2..]
          && |got| + rr.leftOverSize == DataLen(r0))
    && rr.numChunk <= 1
  }

  /** The data of `r0` has been read to its end, or there is nothing more to read. */
  ghost predicate AtEnd(r0: bytes, rest: bytes) {
    if DataComplete(r0) then rest == r0[2 + DataLen(r0)..] else rest == []
  }

  /** The bytes behind the length, whether or not they are all there. */
  function Available(r0: bytes): bytes {
    if |r0| < 2 then [] else if DataComplete(r0) then r0[2..2 + DataLen(r0)] else r0[2..]
  }

  method NextPiece(rr: ChunkStreamReader, ghost r0: bytes, ghost got: bytes) returns (mb: bytes, status: Status)
    requires StreamAt(rr, r0, got)
    modifies rr, rr.reader
    ensures rr.reader.Left() <= old(rr.reader.Left()) && (status == Ok ==> rr.reader.Left() < old(rr.reader.Left()))
    ensures status == Ok ==> StreamAt(rr, r0, got + mb) && rr.numChunk == 1 && got + mb <= Available(r0)
    ensures status != Ok ==> mb == [] && AtEnd(r0, rr.reader.Remaining())
    ensures status != Ok && DataComplete(r0) ==> status == Eof && got == Available(r0)
    ensures status in {Ok, Eof, UnexpectedEof}
  {
    hide Flat;
    ghost var before, left, fresh' := rr.reader.Remaining(), rr.leftOverSize, rr.numChunk == 0;
    var pieces;
    pieces, status := rr.ReadMultiBuffer();
    FlatNothing();
    mb := Flat(pieces);
    ghost var after := rr.reader.Remaining();
    if status == Ok {
      if fresh' {
        assert got + (mb + after) == r0[2..];
      }
      PieceFits(r0, got, mb, after);
    } else if !fresh' {
      AllRead(r0, got, before);
    } else if |r0| >= 2 && DataLen(r0) == 0 {
      AllRead(r0, [], r0[2..]);
    }
  }

  lemma PieceFits(r0: bytes, got: bytes, mb: bytes, after: bytes)
    requires |r0| >= 2 && got + (mb + after) == r0[2..] && |got| + |mb| <= DataLen(r0)
    ensures (got + mb) + after == r0[2..] && got + mb <= Available(r0)
  {
    assert (got + mb) + after == got + (mb + after);
  }

  /** The rest after part of the data. */
  lemma AllRead(r0: bytes, got: bytes, rest: bytes)
    requires |r0| >= 2 && got + rest == r0[2..] && |got| <= DataLen(r0)
    ensures rest == [] ==> (DataComplete(r0) <==> |got| == DataLen(r0))
    ensures |got| == DataLen(r0) ==> DataComplete(r0) && got == Available(r0) && AtEnd(r0, rest)
  {
    if |got| == DataLen(r0) {
      assert r0[2..][..|got|] == got && r0[2..][|got|..] == rest;
      assert r0[2..][|got|..] == r0[2 + |got|..];
    }
  }

  class ServerWorker {
    const parse: IPParser
    /** The connection carries the sources of reverse connections. */
    const reverse: bool
    /** The only network that targets may use, if there is a restriction. */
    const allowedNetwork: Option<Network>
    /** Whether the dispatcher has a way to a target. */
    const dispatch: Destination -> bool
    const manager: SessionManager
    var log: seq<Session>
    var replies: seq<uint16>

    constructor (parse: IPParser, reverse: bool, allowedNetwork: Option<Network>, dispatch: Destination -> bool)
      ensures Valid() && fresh(manager) && View() == Demux(map[], [], [])
      ensures this.parse == parse && this.reverse == reverse
      ensures this.allowedNetwork == allowedNetwork && this.dispatch == dispatch
    {
      this.parse := parse;
      this.reverse := reverse;
      this.allowedNetwork := allowedNetwork;
      this.dispatch := dispatch;
      manager := new SessionManager();
      log, replies := [], [];
    }

    function View(): Demux
      reads this, manager
    {
      Demux(manager.sessions, log, replies)
    }

    ghost predicate Valid()
      reads this, manager
    {
      !manager.closed && ValidDemux(View())
    }

    /** Session `h` sits open under its identifier. */
    ghost predicate IsOpen(h: nat)
      reads this, manager
    {
      h < |log| && log[h].open && log[h].id in manager.sessions && manager.sessions[log[h].id] == h
    }

    /** Writes to a session's downstream, which may refuse unless it is healthy. */
    method Write(h: nat, piece: bytes) returns (ok: bool)
      requires h < |log|
      modifies this`log
      ensures old(log)[h].healthy ==> ok
      ensures |log| == |old(log)|
      ensures if ok then log == old(log)[h := old(log)[h].(pieces := old(log)[h].pieces + [piece])] else log == old(log)
    {
      ok := *;
      if log[h].healthy {
        ok := true;
      }
      if ok {
        log := log[h := log[h].(pieces := log[h].pieces + [piece])];
      }
    }

    method CloseSession(h: nat)
      requires Valid() && IsOpen(h)
      modifies this`log, manager
      ensures Valid() && View() == Close(old(View()), old(log)[h].id)
    {
      log := log[h := log[h].(open := false)];
      manager.Remove(log[h].id);
    }

    /** Reads the rest of a frame's data for nobody. */
    method DiscardRest(rr: ChunkStreamReader, ghost r0: bytes, ghost got: bytes) returns (outcome: Outcome)
      requires StreamAt(rr, r0, got)
      modifies rr, rr.reader
      ensures AtEnd(r0, rr.reader.Remaining()) && rr.reader.Left() <= old(rr.reader.Left())
      ensures outcome in {Done, Broken(BadData)} && (DataComplete(r0) ==> outcome == Done)
    {
      ghost var g := got;
      while true
        invariant StreamAt(rr, r0, g) && rr.reader.Left() <= old(rr.reader.Left())
        decreases rr.reader.Left()
      {
        var mb, st := NextPiece(rr, r0, g);
        if st != Ok {
          return if st == Eof then Done else Broken(BadData);
        }
        g := g + mb;
      }
    }

    method DiscardData(reader: BufferedReader) returns (outcome: Outcome)
      modifies reader
      ensures AtEnd(old(reader.Remaining()), reader.Remaining()) && reader.Left() <= old(reader.Left())
      ensures outcome in {Done, Broken(BadData)} && (DataComplete(old(reader.Remaining())) ==> outcome == Done)
    {
      var rr := new ChunkStreamReader(reader, 1);
      outcome := DiscardRest(rr, reader.Remaining(), []);
    }

    /** Copies a frame's data to a stream session; a refused write closes the session and the rest is discarded. */
    method CopyStream(reader: BufferedReader, h: nat) returns (outcome: Outcome)
      requires Valid() && IsOpen(h) && !log[h].Packet()
      modifies this`log, manager, reader
      ensures Valid() && |log| == |old(log)| && replies == old(replies)
      ensures AtEnd(old(reader.Remaining()), reader.Remaining()) && reader.Left() <= old(reader.Left())
      ensures outcome in {Done, Broken(BadData)} && (DataComplete(old(reader.Remaining())) ==> outcome == Done)
      ensures log == old(log)[h := log[h]]
      ensures Takes(old(log)[h], Available(old(reader.Remaining())), log[h], DataComplete(old(reader.Remaining())))
      ensures manager.sessions == if log[h].open then old(manager.sessions) else old(manager.sessions) - {log[h].id}
    {
      hide Takes, Available, AtEnd, DataComplete, Close, StreamAt, ValidDemux;
      ghost var r0 := reader.Remaining();
      ghost var got: bytes := [];
      ghost var a := log[h];
      TakesNothing(a, r0);
      var rr := new ChunkStreamReader(reader, 1);
      StartsStream(rr);
      while true
        invariant StreamAt(rr, r0, got) && reader.Left() <= old(reader.Left())
        invariant Valid() && IsOpen(h) && manager.sessions == old(manager.sessions) && replies == old(replies)
        invariant log == old(log)[h := log[h]] && log[h].id == a.id
        invariant Takes(a, got, log[h], true) && got <= Available(r0)
        decreases reader.Left()
      {
        var mb, st := NextPiece(rr, r0, got);
        if st != Ok {
          TakesPrefix(a, got, Available(r0), log[h], DataComplete(r0));
          return if st == Eof then Done else Broken(BadData);
        }
        if |mb| > 0 {
          var ok := TakePiece(h, a, got, mb);
          if !ok {
            TakesRefused(a, got, Available(r0), log[h], DataComplete(r0));
            Refused(h);
            outcome := DiscardRest(rr, r0, got + mb);
            return;
          }
        } else {
          assert got + mb == got;
        }
        got := got + mb;
      }
    }

    /** One piece for a session; on refusal nothing changes. */
    method TakePiece(h: nat, ghost a: Session, ghost got: bytes, mb: bytes) returns (ok: bool)
      requires Valid() && IsOpen(h) && !a.Packet() && mb != []
      requires Takes(a, got, log[h], true)
      modifies this`log
      ensures Valid() && IsOpen(h) && log == old(log)[h := log[h]] && log[h].id == old(log)[h].id
      ensures ok ==> Takes(a, got + mb, log[h], true)
      ensures !ok ==> log == old(log) && !a.healthy
    {
      ghost var before := log[h];
      ok := Write(h, mb);
      if ok {
        TakesPiece(a, got, mb, before, log[h]);
      } else {
        SameHealth(a, got, before);
      }
    }

    method Refused(h: nat)
      requires Valid() && IsOpen(h)
      modifies this`log, manager
      ensures Valid() && log == old(log)[h := old(log)[h].(open := false)] && !manager.closed
      ensures manager.sessions == old(manager.sessions) - {old(log)[h].id}
    {
      CloseSession(h);
    }

    /** Copies a frame's data to a packet session, as one piece. */
    method CopyPacket(reader: BufferedReader, h: nat) returns (outcome: Outcome)
      requires Valid() && IsOpen(h) && log[h].Packet()
      modifies this`log, manager, reader
      ensures Valid() && |log| == |old(log)| && replies == old(replies)
      ensures reader.Left() <= old(reader.Left())
      ensures outcome in {Done, Broken(BadData)}
      ensures outcome == Done ==> AtEnd(old(reader.Remaining()), reader.Remaining())
      ensures DataComplete(old(reader.Remaining())) ==>
                (outcome == Done <==> DataLen(old(reader.Remaining())) <= BUF_SIZE)
      ensures log == old(log)[h := log[h]]
      ensures Takes(old(log)[h], Available(old(reader.Remaining())), log[h],
                    DataComplete(old(reader.Remaining())) && outcome == Done)
      ensures manager.sessions == if log[h].open then old(manager.sessions) else old(manager.sessions) - {log[h].id}
    {
      hide Takes, Close, ValidDemux;
      ghost var r0 := reader.Remaining();
      ghost var a := log[h];
      var rr := new PacketReader(reader);
      var packet, st := rr.ReadMultiBuffer();
      if st != Ok {
        TakesNoPacket(a, Available(r0));
        return if st == Eof then Done else Broken(BadData);
      }
      assert packet == Available(r0);
      if |packet| > 0 {
        var ok := Write(h, packet);
        if ok {
          WrittenKeepsValid(old(log), log, h, manager.sessions, replies);
          TakesPacket(a, packet, log[h]);
        } else {
          TakesRefusedPacket(a, packet);
          Refused(h);
        }
      } else {
        TakesEmptyPacket(a);
      }
      packet, st := rr.ReadMultiBuffer();
      return Done;
    }

    /** Copies a frame's data to an open session. */
    method CopyData(reader: BufferedReader, h: nat) returns (outcome: Outcome)
      requires Valid() && IsOpen(h)
      modifies this`log, manager, reader
      ensures Valid() && |log| == |old(log)| && replies == old(replies)
      ensures reader.Left() <= old(reader.Left())
      ensures outcome in {Done, Broken(BadData)}
      ensures outcome == Done ==> AtEnd(old(reader.Remaining()), reader.Remaining())
      ensures DataComplete(old(reader.Remaining()))
              && (log[h].Packet() ==> DataLen(old(reader.Remaining())) <= BUF_SIZE) ==>
                outcome == Done
      ensures log == old(log)[h := log[h]]
      ensures Takes(old(log)[h], Available(old(reader.Remaining())), log[h],
                    DataComplete(old(reader.Remaining())) && outcome == Done)
      ensures manager.sessions == if log[h].open then old(manager.sessions) else old(manager.sessions) - {log[h].id}
    {
      hide Takes, Close, ValidDemux, Available, AtEnd;
      SameKind();
      if log[h].Packet() {
        outcome := CopyPacket(reader, h);
      } else {
        outcome := CopyStream(reader, h);
      }
    }

    /** What a handler makes of a frame. Its metadata has been read, and `r0` is what the reader stood in front of. */
    ghost predicate Handled(before: Demux, m: Meta, r0: bytes, rest: bytes, outcome: Outcome)
      requires ValidDemux(before)
      reads this, manager
    {
      var p := ParsedFrom(m, r0);
      var whole := outcome == Done && FrameComplete(m, r0);
      && Valid() && !outcome.Ended?
      && (whole ==> rest == FrameRest(m, r0) && Step(before, p, View(), true))
      && (!whole ==> View() == before || Step(before, p, View(), false))
      && (outcome == Done && !whole ==> rest == [])
    }

    method HandleStatusKeepAlive(m: Meta, reader: BufferedReader) returns (outcome: Outcome)
      requires Valid() && m.status == STATUS_KEEP_ALIVE
      modifies reader
      ensures Handled(old(View()), m, old(reader.Remaining()), reader.Remaining(), outcome)
      ensures reader.Left() <= old(reader.Left())
      ensures outcome in {Done, Broken(BadData)} && (FrameComplete(m, old(reader.Remaining())) ==> outcome == Done)
      ensures OnlyAllowed(old(log), log)
    {
      outcome := Done;
      if HasData(m.option) {
        outcome := DiscardData(reader);
      }
    }

    method HandleStatusEnd(m: Meta, reader: BufferedReader) returns (outcome: Outcome)
      requires Valid() && m.status == STATUS_END
      modifies this`log, manager, reader
      ensures Handled(old(View()), m, old(reader.Remaining()), reader.Remaining(), outcome)
      ensures reader.Left() <= old(reader.Left())
      ensures outcome in {Done, Broken(BadData)} && (FrameComplete(m, old(reader.Remaining())) ==> outcome == Done)
      ensures OnlyAllowed(old(log), log)
    {
      var s := manager.Get(m.sessionID);
      if s.Some? {
        CloseSession(s.value);
      }
      outcome := Done;
      if HasData(m.option) {
        outcome := DiscardData(reader);
      }
    }

    /** Data for an unknown session is read away, and the peer is told to close it. */
    method HandleStatusKeep(m: Meta, reader: BufferedReader) returns (outcome: Outcome)
      requires Valid() && m.status == STATUS_KEEP
      modifies this`log, this`replies, manager, reader
      ensures Handled(old(View()), m, old(reader.Remaining()), reader.Remaining(), outcome)
      ensures reader.Left() <= old(reader.Left())
      ensures outcome in {Done, Broken(BadData)}
      ensures replies ==
                if HasData(m.option) && m.sessionID !in old(manager.sessions) then old(replies) + [m.sessionID]
                else old(replies)
      ensures FrameComplete(m, old(reader.Remaining()))
              && (HasData(m.option) ==> |Available(old(reader.Remaining()))| <= BUF_SIZE) ==>
                outcome == Done
      ensures OnlyAllowed(old(log), log)
    {
      hide Takes, Available, AtEnd, ValidDemux, FrameRest, DataComplete, DataLen, ServerWorker.OnlyAllowed;
      NoChange(log);
      if !HasData(m.option) {
        NoData(m, reader.Remaining());
        return Done;
      }
      ghost var before, r0 := View(), reader.Remaining();
      ghost var p := ParsedFrom(m, r0);
      var s := manager.Get(m.sessionID);
      if s.None? {
        replies := replies + [m.sessionID];
        outcome := DiscardData(reader);
        StepToUnknown(before, p, View(), outcome == Done && DataComplete(r0));
        RestAtEnd(m, r0, reader.Remaining());
        return;
      }
      BehindIdentifier(before, m.sessionID);
      SameKind();
      outcome := CopyData(reader, s.value);
      SameTargets(old(log), s.value, log);
      StepOfKeep(before, p, View(), outcome == Done && DataComplete(r0));
      RestAtEnd(m, r0, reader.Remaining());
    }

    /** A new session at the end of the log. */
    method Open(m: Meta) returns (h: nat)
      requires Valid() && m.target.Some?
      modifies this`log, manager
      ensures Valid() && IsOpen(h) && h == |old(log)|
      ensures |log| == h + 1 && log[..h] == old(log)
      ensures log[h] == Session(m.sessionID, m.target.value, log[h].healthy, true, [])
      ensures manager.sessions == old(manager.sessions)[m.sessionID := h]
    {
      var healthy: bool := *;
      h := |log|;
      log := log + [Session(m.sessionID, m.target.value, healthy, true, [])];
      var ok := manager.Add(m.sessionID, h);
    }

    /** The network of a target is not ruled out on this connection. */
    predicate MayUse(network: Network) {
      allowedNetwork.None? || network == allowedNetwork.value
    }

    /** Old sessions keep their targets, and new ones have targets that may be used and can be reached. */
    predicate OnlyAllowed(before: seq<Session>, after: seq<Session>) {
      && |before| <= |after|
      && (forall i :: 0 <= i < |before| ==> after[i].target == before[i].target)
      && forall i :: |before| <= i < |after| ==>
           && (allowedNetwork.Some? ==> after[i].target.network == allowedNetwork.value)
           && dispatch(after[i].target)
    }

    lemma StillAllowed(first: seq<Session>, now: seq<Session>, after: seq<Session>)
      requires OnlyAllowed(first, now) && OnlyAllowed(now, after)
      ensures OnlyAllowed(first, after)
    {
    }

    lemma OneMoreTarget(before: seq<Session>, after: seq<Session>)
      requires |after| == |before| + 1 && after[..|before|] == before
      requires MayUse(after[|before|].target.network) && dispatch(after[|before|].target)
      ensures OnlyAllowed(before, after)
    {
      forall i | 0 <= i < |before|
        ensures after[i] == before[i]
      {
        assert after[..|before|][i] == before[i];
      }
    }

    lemma SameTargets(before: seq<Session>, h: nat, after: seq<Session>)
      requires h < |before| == |after| && after == before[h := after[h]] && after[h].target == before[h].target
      ensures OnlyAllowed(before, after)
    {
    }

    lemma AllowedMeans(before: seq<Session>, after: seq<Session>)
      requires OnlyAllowed(before, after)
      ensures allowedNetwork.Some? ==>
                forall i :: |before| <= i < |after| ==> after[i].target.network == allowedNetwork.value
    {
    }

    lemma NoChange(before: seq<Session>)
      ensures OnlyAllowed(before, before)
    {
    }

    /** The target may be used and can be reached. Sessions that move between connections are not modelled. */
    predicate Welcome(m: Meta) {
      && m.target.Some? && MayUse(m.target.value.network)
      && m.globalID == NO_GLOBAL_ID && dispatch(m.target.value)
    }

    /** Opens a session, unless its network is not allowed or the dispatcher refuses. */
    method HandleStatusNew(m: Meta, reader: BufferedReader) returns (outcome: Outcome)
      requires Valid() && m.status == STATUS_NEW && m.target.Some?
      modifies this`log, manager, reader
      ensures Handled(old(View()), m, old(reader.Remaining()), reader.Remaining(), outcome)
      ensures reader.Left() <= old(reader.Left())
      ensures outcome in {Broken(UnexpectedNetwork), Broken(DispatchFailed), Broken(GlobalSession)} <==> !Welcome(m)
      ensures outcome == Broken(UnexpectedNetwork) <==>
                allowedNetwork.Some? && m.target.value.network != allowedNetwork.value
      ensures outcome == Broken(GlobalSession) <==>
                (allowedNetwork.Some? ==> m.target.value.network == allowedNetwork.value) && m.globalID != NO_GLOBAL_ID
      ensures outcome == Broken(DispatchFailed) <==>
                && (allowedNetwork.Some? ==> m.target.value.network == allowedNetwork.value)
                && m.globalID == NO_GLOBAL_ID && !dispatch(m.target.value)
      ensures |log| == |old(log)| + (if outcome.Broken? && outcome.reason != BadData then 0 else 1)
      ensures OnlyAllowed(old(log), log)
      ensures outcome !in {Broken(BadMetadata), Broken(UnknownStatus)}
      ensures outcome == Broken(BadData) ==>
                !FrameComplete(m, old(reader.Remaining()))
                || (HasData(m.option) && |Available(old(reader.Remaining()))| > BUF_SIZE)
    {
      hide Takes, Available, AtEnd, ValidDemux, DataComplete, FrameRest, ServerWorker.OnlyAllowed;
      NoChange(log);
      if allowedNetwork.Some? && m.target.value.network != allowedNetwork.value {
        return Broken(UnexpectedNetwork);
      }
      if m.globalID != NO_GLOBAL_ID {
        return Broken(GlobalSession);
      }
      if !dispatch(m.target.value) {
        if HasData(m.option) {
          outcome := DiscardData(reader);
        }
        return Broken(DispatchFailed);
      }
      ghost var before, r0 := View(), reader.Remaining();
      ghost var p := ParsedFrom(m, r0);
      var h := Open(m);
      ghost var newcomer := log[h];
      if !HasData(m.option) {
        TakesNothing(newcomer, []);
        NoData(m, r0);
        OneMoreTarget(old(log), log);
        StepOfNew(before, p, View(), true);
        return Done;
      }
      ghost var log' := log;
      outcome := CopyData(reader, h);
      assert log[..h] == log'[..h];
      AfterOpening(before.live, m.sessionID, h);
      SameKind();
      OneMoreTarget(old(log), log);
      StepOfNew(before, p, View(), outcome == Done && DataComplete(r0));
      RestAtEnd(m, r0, reader.Remaining());
    }

    /** Metadata off the front of the reader. */
    method Unmarshal(reader: BufferedReader) returns (m: Option<Meta>, ended: bool)
      modifies reader
      ensures reader.Left() <= old(reader.Left()) && (m.Some? ==> reader.Left() < old(reader.Left()))
      ensures var d := DecodeMeta(parse, reverse, old(reader.Remaining()));
              if d.Some? then m == Some(d.value.0) && reader.Remaining() == d.value.1 else m == None
      ensures ended ==> m.None? && reader.Remaining() == []
      ensures old(reader.Remaining()) == [] ==> ended
    {
      hide ReadMeta;
      ghost var r := reader.Remaining();
      var lenBytes, st := reader.ReadFull(2);
      if st != Ok {
        return None, st == Eof;
      }
      ghost var r2 := reader.Remaining();
      LengthCut(r, lenBytes, r2);
      var metaLen := FromU16(lenBytes[0], lenBytes[1]);
      if metaLen > MAX_META_LEN {
        return None, false;
      }
      var b;
      b, st := reader.ReadFull(metaLen);
      if st != Ok {
        return None, st == Eof;
      }
      PacketCut(r, r2, b, reader.Remaining());
      var window := new BufferWindows.Buffer.FromBytes(b);
      m := MuxCodecs.UnmarshalFromBuffer(parse, window, reverse);
      ended := false;
    }

    /** A failure that a frame of this kind can cause. */
    ghost predicate Excused(m: Meta, data: bytes, outcome: Outcome) {
      outcome.Broken? ==>
        && (outcome.reason in {UnexpectedNetwork, DispatchFailed, GlobalSession} ==>
            m.status == STATUS_NEW && m.target.Some? && !Welcome(m))
        && (outcome.reason == UnexpectedNetwork ==>
            allowedNetwork.Some? && m.target.value.network != allowedNetwork.value)
        && (outcome.reason == GlobalSession ==> m.globalID != NO_GLOBAL_ID)
        && (outcome.reason == DispatchFailed ==> !dispatch(m.target.value))
        && (outcome.reason == BadData ==> |data| > BUF_SIZE)
        && (outcome.reason == UnknownStatus ==> m.status !in {STATUS_NEW, STATUS_KEEP, STATUS_END, STATUS_KEEP_ALIVE})
        && outcome.reason != BadMetadata
    }

    /** A frame that would open a session of a network that is ruled out on this connection. */
    predicate Forbidden(m: Meta) {
      m.status == STATUS_NEW && m.target.Some? && allowedNetwork.Some? && m.target.value.network != allowedNetwork.value
    }

    method HandleStatus(m: Meta, reader: BufferedReader) returns (outcome: Outcome)
      requires Valid() && (m.status == STATUS_NEW ==> m.target.Some?)
      modifies this`log, this`replies, manager, reader
      ensures Handled(old(View()), m, old(reader.Remaining()), reader.Remaining(), outcome)
      ensures reader.Left() <= old(reader.Left())
      ensures FrameComplete(m, old(reader.Remaining())) ==>
                Excused(m, DataOf(ParsedFrom(m, old(reader.Remaining()))), outcome)
      ensures OnlyAllowed(old(log), log)
      ensures outcome == Broken(UnexpectedNetwork) <==> Forbidden(m)
    {
      hide Step, FrameRest, Available, ParsedFrom, ValidDemux, Valid;
      PartsOf(m, reader.Remaining());
      if m.status == STATUS_KEEP_ALIVE {
        outcome := HandleStatusKeepAlive(m, reader);
      } else if m.status == STATUS_END {
        outcome := HandleStatusEnd(m, reader);
      } else if m.status == STATUS_NEW {
        outcome := HandleStatusNew(m, reader);
      } else if m.status == STATUS_KEEP {
        outcome := HandleStatusKeep(m, reader);
      } else {
        outcome := Broken(UnknownStatus);
      }
    }

    /** One frame: its metadata, and whatever its status asks for. */
    method HandleFrame(reader: BufferedReader) returns (outcome: Outcome)
      requires Valid()
      modifies this`log, this`replies, manager, reader
      ensures Valid() && reader.Left() <= old(reader.Left()) && (outcome == Done ==> reader.Left() < old(reader.Left()))
      ensures old(reader.Remaining()) == [] ==> outcome == Ended
      ensures outcome == Ended ==>
                reader.Remaining() == [] && DecodeFrame(parse, reverse, old(reader.Remaining())) == None
      ensures FrameHandled(old(View()), old(reader.Remaining()), reader.Remaining(), outcome)
      ensures DecodeFrame(parse, reverse, old(reader.Remaining())).Some? ==>
                var p := DecodeFrame(parse, reverse, old(reader.Remaining())).value.0;
                Excused(p.meta, DataOf(p), outcome)
      ensures OnlyAllowed(old(log), log)
      ensures outcome == Broken(UnexpectedNetwork) <==>
                && DecodeMeta(parse, reverse, old(reader.Remaining())).Some?
                && Forbidden(DecodeMeta(parse, reverse, old(reader.Remaining())).value.0)
    {
      hide Step, FrameRest, Available, FrameComplete, ParsedFrom, DecodeFrame, DecodeMeta, Excused, ValidDemux;
      ghost var before, r := View(), reader.Remaining();
      var meta, ended := Unmarshal(reader);
      DecodeByParts(parse, reverse, r);
      if meta.None? {
        return if ended then Ended else Broken(BadMetadata);
      }
      NewHasTarget(parse, reverse, r);
      ghost var r0 := reader.Remaining();
      PartsOf(meta.value, r0);
      outcome := HandleStatus(meta.value, reader);
    }

    /**
     * On a complete frame that is handled without error the reader ends up exactly behind it and the sessions have
     * taken one step. Otherwise they are as before, or have taken the beginning of the frame's data.
     */
    ghost predicate FrameHandled(before: Demux, r: bytes, rest: bytes, outcome: Outcome)
      requires ValidDemux(before)
      reads this, manager
    {
      var d := DecodeFrame(parse, reverse, r);
      && (d.Some? && outcome == Done ==> rest == d.value.1 && Step(before, d.value.0, View(), true))
      && (d.None? && outcome == Done ==> rest == [])
      && (!(d.Some? && outcome == Done) ==> View() == before || BeganFrame(before, r, View()))
    }

    ghost predicate BeganFrame(before: Demux, r: bytes, after: Demux)
      requires ValidDemux(before)
    {
      var m := DecodeMeta(parse, reverse, r);
      m.Some? && Step(before, ParsedFrom(m.value.0, m.value.1), after, false)
    }

    lemma NothingBegins(before: Demux, r: bytes)
      requires ValidDemux(before)
      ensures forall t :: r == [] ==> !BeganFrame(before, r, t)
    {
    }

    /**
     * Frames until the connection ends or breaks. `frames` are those handled completely, and `states` the states
     * between them; what is left over is less than a frame if the connection has ended.
     */
    method Run(reader: BufferedReader) returns (ghost states: seq<Demux>, ghost frames: seq<Parsed>, outcome: Outcome)
      requires Valid()
      modifies this`log, this`replies, manager, reader
      ensures Valid() && outcome != Done && (outcome == Ended ==> reader.Remaining() == [])
      ensures Chained(states, frames) && states[0] == old(View())
      ensures IsFront(parse, reverse, old(reader.Remaining()), frames)
      ensures outcome == Ended ==>
                DecodeFrame(parse, reverse, AfterFrames(parse, reverse, old(reader.Remaining()), |frames|).value) ==
                  None
      ensures var rest := AfterFrames(parse, reverse, old(reader.Remaining()), |frames|).value;
              && (rest == [] ==> outcome == Ended && View() == states[|frames|])
              && (View() == states[|frames|] || BeganFrame(states[|frames|], rest, View()))
      ensures outcome.Broken? ==>
                var d := DecodeFrame(parse, reverse,
                                     AfterFrames(parse, reverse, old(reader.Remaining()), |frames|).value);
                d.None? || (outcome.Broken? && Excused(d.value.0.meta, DataOf(d.value.0), outcome))
      ensures forall p :: p in frames ==> !Forbidden(p.meta)
      ensures OnlyAllowed(old(log), log)
      ensures allowedNetwork.Some? ==>
                forall i :: |old(log)| <= i < |log| ==> log[i].target.network == allowedNetwork.value
    {
      hide Step, DecodeFrame, BeganFrame, DecodeMeta, Chained, IsFront, AfterFrames, ValidDemux, Excused,
          ServerWorker.OnlyAllowed;
      NoChange(log);
      states, frames := [View()], [];
      ghost var r0 := reader.Remaining();
      StartOfRun(parse, reverse, View(), r0);
      ghost var tail: Option<bytes> := None;
      while true
        invariant Valid() && Chained(states, frames) && |states| == |frames| + 1 && states[0] == old(View())
        invariant ValidDemux(states[|frames|])
        invariant IsFront(parse, reverse, r0, frames) && OnlyAllowed(old(log), log)
        invariant forall p :: p in frames ==> !Forbidden(p.meta)
        invariant tail.None? ==>
                    View() == states[|frames|] && AfterFrames(parse, reverse, r0, |frames|) == Some(reader.Remaining())
        invariant tail.Some? ==>
                    && reader.Remaining() == [] && tail.value != [] && DecodeFrame(parse, reverse, tail.value) == None
                    && AfterFrames(parse, reverse, r0, |frames|) == tail
                    && (View() == states[|frames|] || BeganFrame(states[|frames|], tail.value, View()))
        decreases reader.Left()
      {
        ghost var before, r := View(), reader.Remaining();
        NothingBegins(before, r);
        outcome := HandleFrame(reader);
        StillAllowed(old(log), before.log, log);
        AllowedMeans(old(log), log);
        if outcome != Done {
          return;
        }
        ghost var d := DecodeFrame(parse, reverse, r);
        if d.Some? {
          DecodeByParts(parse, reverse, r);
          assert d.value.0.meta == DecodeMeta(parse, reverse, r).value.0;
          OneMore(parse, reverse, r0, states, frames, r, View());
          states, frames := states + [View()], frames + [d.value.0];
        } else {
          tail := Some(r);
        }
      }
    }
  }

  lemma StartOfRun(parse: IPParser, reverse: bool, d: Demux, r0: bytes)
    requires ValidDemux(d)
    ensures Chained([d], []) && IsFront(parse, reverse, r0, []) && AfterFrames(parse, reverse, r0, 0) == Some(r0)
  {
  }

  lemma OneMore(parse: IPParser, reverse: bool, r0: bytes, states: seq<Demux>, frames: seq<Parsed>, r: bytes, t: Demux)
    requires Chained(states, frames) && IsFront(parse, reverse, r0, frames) && ValidDemux(t)
    requires AfterFrames(parse, reverse, r0, |frames|) == Some(r) && DecodeFrame(parse, reverse, r).Some?
    requires Step(states[|frames|], DecodeFrame(parse, reverse, r).value.0, t, true)
    ensures Chained(states + [t], frames + [DecodeFrame(parse, reverse, r).value.0])
    ensures IsFront(parse, reverse, r0, frames + [DecodeFrame(parse, reverse, r).value.0])
    ensures AfterFrames(parse, reverse, r0, |frames| + 1) == Some(DecodeFrame(parse, reverse, r).value.1)
  {
    hide Step, DecodeFrame, ValidDemux;
  }

  /** The states are those between the frames, and each frame is a step. */
  ghost predicate Chained(states: seq<Demux>, frames: seq<Parsed>) {
    && |states| == |frames| + 1
    && (forall i :: 0 <= i < |states| ==> ValidDemux(states[i]))
    && (forall i :: 0 <= i < |frames| ==> Step(states[i], frames[i], states[i + 1], true))
  }

  /** What is left of a byte sequence behind its first `n` frames. */
  function AfterFrames(parse: IPParser, reverse: bool, s: bytes, n: nat): Option<bytes> {
    if n == 0 then Some(s)
    else
      var r := AfterFrames(parse, reverse, s, n - 1);
      if r.None? || DecodeFrame(parse, reverse, r.value).None? then None
      else Some(DecodeFrame(parse, reverse, r.value).value.1)
  }

  /** These are the first frames of the byte sequence. */
  ghost predicate IsFront(parse: IPParser, reverse: bool, s: bytes, frames: seq<Parsed>) {
    && AfterFrames(parse, reverse, s, |frames|).Some?
    && forall i: nat :: i < |frames| ==>
         && AfterFrames(parse, reverse, s, i).Some?
         && DecodeFrame(parse, reverse, AfterFrames(parse, reverse, s, i).value).Some?
         && DecodeFrame(parse, reverse, AfterFrames(parse, reverse, s, i).value).value.0 == frames[i]
  }

  lemma NewHasTarget(parse: IPParser, reverse: bool, r: bytes)
    ensures var d := DecodeMeta(parse, reverse, r);
            d.Some? && d.value.0.status == STATUS_NEW ==> d.value.0.target.Some?
  {
    hide ReadDestination, ReadInbound;
  }

  lemma PartsOf(m: Meta, r0: bytes)
    ensures ParsedFrom(m, r0).meta == m
    ensures HasData(m.option) ==> DataOf(ParsedFrom(m, r0)) == Available(r0)
    ensures !HasData(m.option) ==> DataOf(ParsedFrom(m, r0)) == []
  {
  }

  /** A frame is its metadata and then its data. */
  lemma DecodeByParts(parse: IPParser, reverse: bool, r: bytes)
    ensures var d := DecodeMeta(parse, reverse, r);
            DecodeFrame(parse, reverse, r) ==
              if d.None? || !FrameComplete(d.value.0, d.value.1) then None
              else Some((ParsedFrom(d.value.0, d.value.1), FrameRest(d.value.0, d.value.1)))
  {
    hide ReadMeta;
  }

  predicate FrameComplete(m: Meta, r0: bytes) {
    HasData(m.option) ==> DataComplete(r0)
  }

  function ParsedFrom(m: Meta, r0: bytes): Parsed {
    Parsed(m, if HasData(m.option) then Some(Available(r0)) else None)
  }

  function FrameRest(m: Meta, r0: bytes): bytes
    requires FrameComplete(m, r0)
  {
    if HasData(m.option) then r0[2 + DataLen(r0)..] else r0
  }

  lemma RestAtEnd(m: Meta, r0: bytes, rest: bytes)
    ensures HasData(m.option) && AtEnd(r0, rest) ==>
              if DataComplete(r0) then rest == FrameRest(m, r0) else rest == []
    ensures DataComplete(r0) ==> |Available(r0)| == DataLen(r0)
  {
  }

  lemma NoData(m: Meta, r0: bytes)
    requires !HasData(m.option)
    ensures FrameRest(m, r0) == r0
  {
  }

  lemma BehindIdentifier(d: Demux, id: uint16)
    requires ValidDemux(d)
    ensures id in d.live ==> d.live[id] < |d.log| && d.log[d.live[id]].id == id && d.log[d.live[id]].open
  {
  }

  lemma StepToUnknown(s: Demux, p: Parsed, t: Demux, complete: bool)
    requires ValidDemux(s) && p.meta.status == STATUS_KEEP && p.data.Some? && p.meta.sessionID !in s.live
    requires t == s.(replies := s.replies + [p.meta.sessionID])
    ensures Step(s, p, t, complete) && ValidDemux(t)
  {
  }

  lemma StepOfKeep(s: Demux, p: Parsed, t: Demux, complete: bool)
    requires ValidDemux(s) && p.meta.status == STATUS_KEEP && p.data.Some? && p.meta.sessionID in s.live
    requires var h := s.live[p.meta.sessionID];
             && |t.log| == |s.log| && t.replies == s.replies && t.log == s.log[h := t.log[h]]
             && Takes(s.log[h], p.data.value, t.log[h], complete)
             && t.live == if t.log[h].open then s.live else s.live - {t.log[h].id}
    ensures Step(s, p, t, complete)
  {
  }

  lemma StepOfNew(s: Demux, p: Parsed, t: Demux, complete: bool)
    requires ValidDemux(s) && p.meta.status == STATUS_NEW && p.meta.target.Some?
    requires |t.log| == |s.log| + 1 && t.log[..|s.log|] == s.log && t.replies == s.replies
    requires var b := t.log[|s.log|];
             && Takes(Session(p.meta.sessionID, p.meta.target.value, b.healthy, true, []), DataOf(p), b, complete)
             && t.live == if b.open then s.live[p.meta.sessionID := |s.log|] else s.live - {p.meta.sessionID}
    ensures Step(s, p, t, complete)
  {
  }

  lemma AfterOpening(live: map<uint16, nat>, id: uint16, h: nat)
    ensures live[id := h] - {id} == live - {id}
  {
  }

  lemma SameKind()
    ensures forall a, d, b, c :: Takes(a, d, b, c) ==> b.target == a.target && b.id == a.id && b.healthy == a.healthy
  {
  }

  /** A session that only gains a piece leaves the table in order. */
  lemma WrittenKeepsValid(before: seq<Session>, after: seq<Session>, h: nat, live: map<uint16, nat>,
                          replies: seq<uint16>)
    requires ValidDemux(Demux(live, before, replies)) && h < |before| == |after| && after == before[h := after[h]]
    requires after[h].id == before[h].id && after[h].open == before[h].open
    ensures ValidDemux(Demux(live, after, replies))
  {
  }

  lemma TakesNoPacket(a: Session, data: bytes)
    requires a.open
    ensures Takes(a, data, a, false)
  {
  }

  lemma TakesEmptyPacket(a: Session)
    requires a.open
    ensures Takes(a, [], a, true)
  {
  }

  lemma TakesPacket(a: Session, packet: bytes, b: Session)
    requires a.open && packet != [] && b == a.(pieces := a.pieces + [packet])
    ensures Takes(a, packet, b, true)
  {
    assert More(a, b) == [packet];
    FlatOne(packet);
  }

  lemma TakesRefusedPacket(a: Session, packet: bytes)
    requires a.open && !a.healthy
    ensures Takes(a, packet, a.(open := false), true)
  {
  }

  lemma TakesNothing(a: Session, r0: bytes)
    requires a.open
    ensures Takes(a, [], a, true) && [] <= Available(r0)
  {
  }

  lemma StartsStream(rr: ChunkStreamReader)
    requires rr.maxNumChunk == 1 && rr.leftOverSize == 0 && rr.numChunk == 0
    ensures StreamAt(rr, rr.reader.Remaining(), [])
  {
  }

  lemma SameHealth(a: Session, got: bytes, b: Session)
    requires Takes(a, got, b, true)
    ensures a.healthy == b.healthy
  {
  }

  lemma TakesPrefix(a: Session, got: bytes, all: bytes, b: Session, complete: bool)
    requires Takes(a, got, b, true) && got <= all && b.open && !a.Packet()
    requires complete ==> got == all
    ensures Takes(a, all, b, complete)
  {
  }

  lemma TakesRefused(a: Session, got: bytes, all: bytes, b: Session, complete: bool)
    requires Takes(a, got, b, true) && got <= all && b.open && !a.Packet() && !a.healthy
    ensures Takes(a, all, b.(open := false), complete)
  {
  }

  lemma TakesPiece(a: Session, got: bytes, mb: bytes, b: Session, c: Session)
    requires Takes(a, got, b, true) && b.open && !a.Packet() && mb != []
    requires c == b.(pieces := b.pieces + [mb])
    ensures Takes(a, got + mb, c, true)
  {
    assert More(a, c) == More(a, b) + [mb];
    FlatSnoc(More(a, b), mb);
  }
}
