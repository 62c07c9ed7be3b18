/** The sending side of one session: writes are cut into frames for the shared link. */
module MuxWriters {
  import opened ByteSeq
  import opened Addresses
  import opened Buffers
  import opened MuxFrames
  import BufferWindows
  import MuxCodecs

  /** A buffer and the endpoint it came from or goes to, if it is a packet. */
  datatype Buffer = Buffer(data: bytes, udp: Option<Destination>)

  function Contents(mb: seq<Buffer>): (r: seq<bytes>)
    ensures |r| == |mb| && forall i :: 0 <= i < |mb| ==> r[i] == mb[i].data
  {
    seq(|mb|, i requires 0 <= i < |mb| => mb[i].data)
  }

  function FrameData(f: Frame): bytes {
    if f.data.Some? then f.data.value else []
  }

  /** What the frames carry, one element a frame. */
  function Datas(frames: seq<Frame>): (r: seq<bytes>)
    ensures |r| == |frames| && forall i :: 0 <= i < |frames| ==> r[i] == FrameData(frames[i])
  {
    seq(|frames|, i requires 0 <= i < |frames| => FrameData(frames[i]))
  }

  function Payload(frames: seq<Frame>): bytes {
    Flat(Datas(frames))
  }

  lemma PayloadConcat(a: seq<Frame>, b: seq<Frame>)
    ensures Payload(a + b) == Payload(a) + Payload(b)
  {
    assert Datas(a + b) == Datas(a) + Datas(b);
    FlatConcat(Datas(a), Datas(b));
  }

  lemma PayloadSnoc(a: seq<Frame>, f: Frame)
    ensures Payload(a + [f]) == Payload(a) + FrameData(f)
  {
    assert Datas([f]) == [FrameData(f)];
    FlatOne(FrameData(f));
    PayloadConcat(a, [f]);
  }

  /** Where a session goes and how; what its writer is made for. */
  datatype Route = Route(id: uint16, dest: Option<Destination>, packet: bool, globalID: GlobalID,
                         inbound: Option<Inbound>)

  function MetaOn(r: Route, status: byte, option: byte): Meta {
    Meta(r.id, status, option, r.dest, r.globalID, r.inbound)
  }

  /** A frame as a session on `r` sends it, next after `frames`. */
  predicate IsNext(r: Route, frames: seq<Frame>, f: Frame, followup: bool) {
    && f.meta == MetaOn(r, if frames == [] && !followup then STATUS_NEW else STATUS_KEEP,
                        if f.data.Some? then OPTION_DATA else 0)
    && (!r.packet ==> |FrameData(f)| <= 8192)
  }

  /** The first frame opens the session unless it has been opened before, the rest go on. */
  ghost predicate AreNext(r: Route, frames: seq<Frame>, followup: bool) {
    forall i :: 0 <= i < |frames| ==> IsNext(r, frames[..i], frames[i], followup)
  }

  /** No buffer of a stream carries an endpoint. */
  predicate NoEndpoints(mb: seq<Buffer>) {
    forall b :: b in mb ==> b.udp == None
  }

  /** The endpoint of a cut-off beginning is lost; the rest keeps it. */
  method SplitBuffers(mb: seq<Buffer>, size: nat) returns (rest: seq<Buffer>, chunk: seq<Buffer>)
    requires size > 0
    ensures Flat(Contents(mb)) == Flat(Contents(chunk)) + Flat(Contents(rest)) && |Flat(Contents(chunk))| <= size
    ensures mb != [] ==> |rest| + |Flat(Contents(rest))| < |mb| + |Flat(Contents(mb))|
    ensures NoEndpoints(mb) ==> NoEndpoints(rest) && NoEndpoints(chunk)
    ensures if mb != [] && |mb[0].data| > size
            then chunk == [Buffer(mb[0].data[..size], None)] && rest == [mb[0].(data := mb[0].data[size..])] + mb[1..]
            else mb == chunk + rest
  {
    hide Flat, FlatAll;
    var restData, chunkData := SplitSize(Contents(mb), size);
    SplitShrinks(Contents(mb), restData, chunkData, size);
    if mb != [] && |mb[0].data| > size {
      chunk := [Buffer(mb[0].data[..size], None)];
      rest := [mb[0].(data := mb[0].data[size..])] + mb[1..];
    } else {
      chunk, rest := mb[..|chunkData|], mb[|chunkData|..];
      assert mb == chunk + rest;
    }
    assert Contents(chunk) == chunkData;
    assert Contents(rest) == restData;
  }

  class Writer {
    const route: Route
    var followup: bool
    var hasError: bool
    /** What has gone out on the link, one element for each write to it. */
    var sent: seq<bytes>
    ghost var frames: seq<Frame>
    /** How many more writes the link takes before it is closed. */
    var room: nat

    constructor (route: Route, room: nat)
      ensures Valid() && frames == [] && !followup && !hasError
      ensures this.route == route && this.room == room
    {
      this.route, this.room := route, room;
      followup, hasError, sent, frames := false, false, [], [];
    }

    /** The writer that answers on a session the peer has opened. */
    constructor Response(id: uint16, packet: bool, room: nat)
      ensures Valid() && frames == [] && followup && !hasError
      ensures route == Route(id, None, packet, NO_GLOBAL_ID, None) && this.room == room
    {
      route, this.room := Route(id, None, packet, NO_GLOBAL_ID, None), room;
      followup, hasError, sent, frames := true, false, [], [];
    }

    /** The link carries exactly the frames. */
    ghost predicate Valid()
      reads this
    {
      |sent| == |frames| && forall i :: 0 <= i < |frames| ==> EncodeFrame(frames[i]) == Some(sent[i])
    }

    function NextMeta(option: byte): Meta
      reads this
    {
      MetaOn(route, if followup then STATUS_KEEP else STATUS_NEW, option)
    }

    /** Puts one frame on the link, which may refuse it. */
    method Send(meta: Meta, udp: Option<Destination>, data: Option<bytes>) returns (ok: bool)
      requires Valid()
      modifies this`sent, this`frames, this`room
      ensures Valid()
      ensures frames == if ok then old(frames) + [Frame(meta, udp, data)] else old(frames)
      ensures ok <==> old(room) > 0 && WriteMeta(meta, udp).Some?
      ensures room == if ok then old(room) - 1 else old(room)
    {
      hide WriteMeta, U16;
      var frame := new BufferWindows.Buffer();
      var written := MuxCodecs.WriteTo(meta, udp, frame);
      if !written {
        return false;
      }
      ghost var m := WriteMeta(meta, udp).value;
      assert [] + U16(|m|) + m == U16(|m|) + m;
      ok := room > 0;
      if ok {
        room := room - 1;
        sent := sent + [frame.Content() + (if data.Some? then U16(|data.value|) + data.value else [])];
        frames := frames + [Frame(meta, udp, data)];
      }
    }

    /** The session is open, or the frame that opens it can be written. */
    predicate Openable()
      reads this
    {
      followup || WriteMeta(NextMeta(0), None).Some?
    }

    /** The session counts as opened from here on, even if the frame does not get out. */
    method WriteMetaOnly() returns (ok: bool)
      requires Valid()
      modifies this`followup, this`sent, this`frames, this`room
      ensures Valid() && followup
      ensures frames == if ok then old(frames) + [Frame(old(NextMeta(0)), None, None)] else old(frames)
      ensures ok <==> old(room > 0 && Openable())
      ensures room == if ok then old(room) - 1 else old(room)
    {
      var meta := NextMeta(0);
      followup := true;
      ok := Send(meta, None, None);
    }

    method WriteData(mb: seq<Buffer>) returns (ok: bool)
      requires Valid()
      modifies this`followup, this`sent, this`frames, this`room
      ensures Valid() && followup && Openable()
      ensures frames == if ok then old(frames) + [DataFrame(old(NextMeta(OPTION_DATA)), mb)] else old(frames)
      ensures ok <==> old(room > 0 && Openable())
      ensures room == if ok then old(room) - 1 else old(room)
    {
      var meta := NextMeta(OPTION_DATA);
      followup := true;
      ok := Send(meta, if |mb| == 1 then mb[0].udp else None, Some(Flat(Contents(mb))));
    }

    /**
     * One write. A stream goes out in frames of at most 8192 bytes that join up to what was written; a packet session
     * sends each buffer as one frame with its endpoint. On an error some beginning has gone out.
     */
    method WriteMultiBuffer(mb: seq<Buffer>) returns (ok: bool)
      requires Valid()
      modifies this`followup, this`sent, this`frames, this`room
      ensures Valid() && followup && old(frames) <= frames
      ensures AreNext(route, frames[|old(frames)|..], old(followup))
      ensures Carries(route, frames[|old(frames)|..], mb, ok)
      ensures room == old(room) - |frames[|old(frames)|..]| && (!ok ==> room == 0 || !old(Openable()))
      ensures !old(Openable()) ==> !ok && frames == old(frames)
    {
      hide Flat, EncodeFrame, WriteMeta;
      ghost var before := frames;
      FlatEmpty(Contents(mb));
      if Flat(Contents(mb)) == [] {
        ok := WriteMetaOnly();
        assert frames[|before|..] == if ok then [Frame(old(NextMeta(0)), None, None)] else [];
        SentNothing(frames[|before|..], mb, ok);
        return;
      }
      if route.packet {
        ok := WritePackets(mb);
      } else {
        ok := WriteStream(mb);
      }
    }

    /** The frame that comes next. */
    lemma NextFrame(frames: seq<Frame>, mb: seq<Buffer>, followup0: bool)
      requires (followup <==> followup0 || frames != []) && (!route.packet ==> |Flat(Contents(mb))| <= 8192)
      ensures IsNext(route, frames, DataFrame(NextMeta(OPTION_DATA), mb), followup0)
    {
    }

    method WriteStream(mb: seq<Buffer>) returns (ok: bool)
      requires Valid() && !route.packet && Flat(Contents(mb)) != []
      modifies this`followup, this`sent, this`frames, this`room
      ensures Valid() && followup && old(frames) <= frames
      ensures AreNext(route, frames[|old(frames)|..], old(followup))
      ensures Carries(route, frames[|old(frames)|..], mb, ok)
      ensures room == old(room) - |frames[|old(frames)|..]| && (!ok ==> room == 0 || !old(Openable()))
      ensures !old(Openable()) ==> !ok && frames == old(frames)
    {
      hide Flat, EncodeFrame, WriteMeta, Payload, Valid, Contents, AreNext, NoEndpoints, IsNext, Openable, MetaOn;
      ghost var before, all := frames, Flat(Contents(mb));
      ghost var new': seq<Frame> := [];
      NoPayload();
      NoneNext(route, old(followup));
      var left := mb;
      while Flat(Contents(left)) != []
        invariant Valid() && frames == before + new' && (followup <==> old(followup) || new' != [])
        invariant AreNext(route, new', old(followup)) && room == old(room) - |new'|
        invariant Openable() == old(Openable()) && (new' != [] ==> Openable())
        invariant Payload(new') + Flat(Contents(left)) == all
        invariant NoEndpoints(mb) ==> NoEndpoints(left) && forall f :: f in new' ==> f.udp == None
        decreases |left| + |Flat(Contents(left))|
      {
        var rest, chunk := SplitBuffers(left, 8192);
        ghost var f := DataFrame(NextMeta(OPTION_DATA), chunk);
        Split(left);
        NextFrame(new', chunk, old(followup));
        ok := WriteData(chunk);
        if !ok {
          assert frames[|before|..] == new';
          return;
        }
        NoEndpointSent(f, chunk);
        Sent(route, new', f, Flat(Contents(chunk)), Flat(Contents(rest)), old(followup));
        assert before + new' + [f] == before + (new' + [f]);
        new', left := new' + [f], rest;
      }
      assert frames[|before|..] == new';
      assert Payload(new') + [] == Payload(new');
      ok := true;
    }

    method WritePackets(mb: seq<Buffer>) returns (ok: bool)
      requires Valid() && route.packet && Flat(Contents(mb)) != []
      modifies this`followup, this`sent, this`frames, this`room
      ensures Valid() && followup && old(frames) <= frames
      ensures AreNext(route, frames[|old(frames)|..], old(followup))
      ensures Carries(route, frames[|old(frames)|..], mb, ok)
      ensures room == old(room) - |frames[|old(frames)|..]| && (!ok ==> room == 0 || !old(Openable()))
      ensures !old(Openable()) ==> !ok && frames == old(frames)
    {
      hide Flat, EncodeFrame, WriteMeta, Payload, Valid, Contents, AreNext, OnePer, Carries, IsNext, Openable, MetaOn;
      ghost var before, all := frames, Flat(Contents(mb));
      ghost var new': seq<Frame> := [];
      NoPayload();
      NoneNext(route, old(followup));
      NonePer(mb);
      var left := mb;
      while Flat(Contents(left)) != []
        invariant Valid() && frames == before + new' && (followup <==> old(followup) || new' != [])
        invariant AreNext(route, new', old(followup)) && room == old(room) - |new'|
        invariant Openable() == old(Openable()) && (new' != [] ==> Openable())
        invariant Payload(new') + Flat(Contents(left)) == all
        invariant |new'| <= |mb| && left == mb[|new'|..] && OnePer(new', mb)
        decreases |left|
      {
        Split(left);
        var b, rest := left[0], left[1..];
        ghost var f := DataFrame(NextMeta(OPTION_DATA), [b]);
        OneBuffer(b);
        NextFrame(new', [b], old(followup));
        ok := WriteData([b]);
        if !ok {
          assert frames == before + new' && frames[|before|..] == new';
          CarriedPackets(route, new', mb, left, ok);
          return;
        }
        OneMore(new', f, mb);
        Sent(route, new', f, b.data, Flat(Contents(rest)), old(followup));
        assert before + new' + [f] == before + (new' + [f]);
        new', left := new' + [f], rest;
      }
      assert frames[|before|..] == new';
      SomethingSent(new', Flat(Contents(left)), all);
      ok := true;
      CarriedPackets(route, new', mb, left, ok);
    }

    /** Tells the peer that the session is over; whether that gets out is not looked at. */
    method Close()
      requires Valid()
      modifies this`sent, this`frames, this`room
      ensures Valid()
      ensures frames == if old(room) > 0 then old(frames) + [EndFrame(route.id, hasError)] else old(frames)
      ensures room == if old(room) > 0 then old(room) - 1 else 0
    {
      var ok := Send(Meta(route.id, STATUS_END, if hasError then OPTION_ERROR else 0, None, NO_GLOBAL_ID, None), None,
                     None);
    }
  }

  /** The frame that ends a session says with its option whether that is because of an error. */
  lemma EndOnWire(hi: byte, lo: byte, e: bool)
    ensures EncodeFrame(EndFrame((hi as int) * 256 + lo, e)) == Some([0, 4, hi, lo, 3, if e then 2 else 0])
  {
    hide EncodeFrame;
    BareOnWire(hi, lo, STATUS_END, if e then OPTION_ERROR else 0);
  }

  lemma NoneNext(r: Route, followup0: bool)
    ensures AreNext(r, [], followup0)
  {
  }

  /** One more frame, with `data` off the front of what was left. */
  lemma Sent(r: Route, frames: seq<Frame>, f: Frame, data: bytes, rest: bytes, followup0: bool)
    requires AreNext(r, frames, followup0) && IsNext(r, frames, f, followup0) && FrameData(f) == data
    ensures AreNext(r, frames + [f], followup0)
    ensures Payload(frames + [f]) + rest == Payload(frames) + (data + rest)
  {
    PayloadSnoc(frames, f);
    forall i | 0 <= i <= |frames|
      ensures IsNext(r, (frames + [f])[..i], (frames + [f])[i], followup0)
    {
      assert (frames + [f])[..i] == frames[..i];
      assert frames[..|frames|] == frames;
    }
  }

  lemma Split(left: seq<Buffer>)
    requires Flat(Contents(left)) != []
    ensures left != [] && Flat(Contents(left)) == left[0].data + Flat(Contents(left[1..]))
  {
    assert Contents(left)[1..] == Contents(left[1..]);
  }

  lemma OneBuffer(b: Buffer)
    ensures Flat(Contents([b])) == b.data
  {
    assert Contents([b]) == [b.data];
    FlatOne(b.data);
  }

  lemma NoEndpointSent(f: Frame, mb: seq<Buffer>)
    requires f.udp == if |mb| == 1 then mb[0].udp else None
    ensures NoEndpoints(mb) ==> f.udp == None
  {
  }

  lemma LeftEmpty(mb: seq<Buffer>, k: nat)
    requires k <= |mb| && Flat(Contents(mb[k..])) == []
    ensures forall i :: k <= i < |mb| ==> mb[i].data == []
  {
    FlatEmpty(Contents(mb[k..]));
    assert forall i :: k <= i < |mb| ==> mb[i].data == Contents(mb[k..])[i - k];
  }

  function DataFrame(meta: Meta, mb: seq<Buffer>): Frame {
    Frame(meta, if |mb| == 1 then mb[0].udp else None, Some(Flat(Contents(mb))))
  }

  function EndFrame(id: uint16, hasError: bool): Frame {
    Frame(Meta(id, STATUS_END, if hasError then OPTION_ERROR else 0, None, NO_GLOBAL_ID, None), None, None)
  }

  ghost predicate OnePer(frames: seq<Frame>, mb: seq<Buffer>) {
    && |frames| <= |mb|
    && forall i :: 0 <= i < |frames| ==> frames[i].data == Some(mb[i].data) && frames[i].udp == mb[i].udp
  }

  /** One frame for each buffer with data around, up to an error; all-empty writes have one frame without data. */
  ghost predicate PerBuffer(frames: seq<Frame>, mb: seq<Buffer>, ok: bool) {
    if Flat(Contents(mb)) == [] then |frames| <= 1 && forall f :: f in frames ==> f.data == None && f.udp == None
    else
      && OnePer(frames, mb)
      && (ok ==> forall i :: |frames| <= i < |mb| ==> mb[i].data == [])
  }

  /** Frames `new'` carry a write: all of it, or on an error some beginning. */
  ghost predicate Carries(r: Route, new': seq<Frame>, mb: seq<Buffer>, ok: bool) {
    && Payload(new') <= Flat(Contents(mb))
    && (ok ==> Payload(new') == Flat(Contents(mb)) && new' != [])
    && (NoEndpoints(mb) ==> forall f :: f in new' ==> f.udp == None)
    && (r.packet ==> PerBuffer(new', mb, ok))
  }

  lemma NonePer(mb: seq<Buffer>)
    ensures OnePer([], mb)
  {
  }

  lemma OneMore(frames: seq<Frame>, f: Frame, mb: seq<Buffer>)
    requires OnePer(frames, mb) && |frames| < |mb| && f.data == Some(mb[|frames|].data) && f.udp == mb[|frames|].udp
    ensures OnePer(frames + [f], mb)
  {
  }

  lemma CarriedPackets(r: Route, frames: seq<Frame>, mb: seq<Buffer>, left: seq<Buffer>, ok: bool)
    requires OnePer(frames, mb) && left == mb[|frames|..] && Flat(Contents(mb)) != []
    requires Payload(frames) + Flat(Contents(left)) == Flat(Contents(mb)) && (ok ==> Flat(Contents(left)) == [])
    ensures r.packet ==> Carries(r, frames, mb, ok)
  {
    hide Flat;
    NoPayload();
    if ok {
      assert Payload(frames) + [] == Payload(frames);
      LeftEmpty(mb, |frames|);
    }
  }

  lemma SomethingSent(frames: seq<Frame>, left: bytes, all: bytes)
    requires Payload(frames) + left == all != [] && left == []
    ensures frames != []
  {
  }

  lemma NoPayload()
    ensures Payload([]) == []
  {
  }

  lemma SentNothing(frames: seq<Frame>, mb: seq<Buffer>, ok: bool)
    requires Flat(Contents(mb)) == [] && |frames| <= 1 && forall f :: f in frames ==> f.data == None && f.udp == None
    ensures Payload(frames) == [] && PerBuffer(frames, mb, ok)
  {
    FlatEmpty(Datas(frames));
  }
}
