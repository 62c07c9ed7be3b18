/** One session's input on its way to the link, from the first payload to the End frame. */
module MuxClients {
  import opened ByteSeq
  import opened Buffers
  import opened MuxFrames
  import opened MuxWriters

  /** What the first, timed read of the input gives. */
  datatype First = Read(mb: seq<Buffer>) | NothingYet | InputFails

  function Joined(deliveries: seq<seq<Buffer>>): seq<Buffer> {
    if deliveries == [] then [] else deliveries[0] + Joined(deliveries[1..])
  }

  function Front(first: First): seq<Buffer> {
    if first.Read? then first.mb else []
  }

  function Input(first: First, rest: seq<seq<Buffer>>): seq<Buffer> {
    Front(first) + Joined(rest)
  }

  function Body(frames: seq<Frame>): seq<Frame> {
    if IsOver(frames) then frames[..|frames| - 1] else frames
  }

  predicate IsOver(frames: seq<Frame>) {
    frames != [] && frames[|frames| - 1].meta.status == STATUS_END
  }

  /** All that one session puts on the link: the frame that opens it, those that go on, and at most one End frame. */
  ghost predicate OneSession(r: Route, frames: seq<Frame>) {
    && AreNext(r, Body(frames), false)
    && (IsOver(frames) ==> exists e :: frames[|frames| - 1] == EndFrame(r.id, e))
  }

  /** Frames that carry all of the input, or on an error some beginning of it. */
  ghost predicate CarriesInput(r: Route, frames: seq<Frame>, input: seq<Buffer>, whole: bool) {
    && Payload(frames) <= Flat(Contents(input))
    && (r.packet ==> Solid(Datas(frames)) <= Solid(Contents(input)))
    && (whole ==> Payload(frames) == Flat(Contents(input)))
    && (whole && r.packet ==> Solid(Datas(frames)) == Solid(Contents(input)))
    && (NoEndpoints(input) ==> forall f :: f in frames ==> f.udp == None)
  }

  /** A writer in good order. */
  ghost predicate Ready(w: Writer)
    reads w
  {
    w.Valid() && AreNext(w.route, w.frames, false) && (w.followup <==> w.frames != [])
  }

  /** One more delivery of the input. */
  method WriteOn(w: Writer, mb: seq<Buffer>, ghost input: seq<Buffer>) returns (ok: bool)
    requires Ready(w) && CarriesInput(w.route, w.frames, input, true)
    modifies w`followup, w`sent, w`frames, w`room
    ensures w.Valid() && AreNext(w.route, w.frames, false)
    ensures ok ==> Ready(w) && w.frames != []
    ensures CarriesInput(w.route, w.frames, input + mb, ok)
    ensures ok || w.room == 0 || !old(w.Openable())
    ensures !old(w.Openable()) ==> !ok && w.frames == old(w.frames) && w.room == old(w.room)
  {
    hide Carries, CarriesInput, AreNext, WriteMeta;
    ghost var before := w.frames;
    ok := w.WriteMultiBuffer(mb);
    ghost var new' := w.frames[|before|..];
    assert w.frames == before + new';
    NextConcat(w.route, before, new');
    CarriesOn(w.route, before, new', input, mb, ok);
  }

  /** The first payload, or an empty write that only opens the session. */
  method WriteFirstPayload(w: Writer, first: First) returns (ok: bool)
    requires Ready(w) && w.frames == []
    modifies w`followup, w`sent, w`frames, w`room
    ensures w.Valid() && AreNext(w.route, w.frames, false)
    ensures ok ==> Ready(w) && w.frames != []
    ensures CarriesInput(w.route, w.frames, Front(first), ok)
    ensures first.InputFails? ==> !ok && w.frames == [] && w.room == old(w.room)
    ensures !first.InputFails? && !ok ==> w.room == 0 || !old(w.Openable())
    ensures !old(w.Openable()) ==> !ok && w.frames == [] && w.room == old(w.room)
  {
    hide CarriesInput, AreNext, WriteMeta, EncodeFrame;
    NothingCarried(w.route);
    if first.InputFails? {
      return false;
    }
    ok := WriteOn(w, Front(first), []);
    assert [] + Front(first) == Front(first);
  }

  /** The deliveries of the input one by one, up to the first that does not get out. */
  method CopyRest(w: Writer, ghost front: seq<Buffer>, rest: seq<seq<Buffer>>) returns (ok: bool, ghost n: nat)
    requires Ready(w) && w.frames != [] && CarriesInput(w.route, w.frames, front, true)
    modifies w`followup, w`sent, w`frames, w`room
    ensures w.Valid() && AreNext(w.route, w.frames, false)
    ensures ok ==> w.frames != [] && n == |rest|
    ensures n <= |rest| && CarriesInput(w.route, w.frames, front + Joined(rest[..n]), ok)
    ensures !ok ==> w.room == 0
  {
    hide CarriesInput, AreNext, WriteMeta, EncodeFrame, Flat, Contents, Joined;
    ghost var input := front;
    NoneJoined(front, rest);
    ok := true;
    n := 0;
    var i := 0;
    while i < |rest|
      invariant 0 <= i == n <= |rest| && input == front + Joined(rest[..i])
      invariant Ready(w) && w.frames != [] && CarriesInput(w.route, w.frames, input, true)
    {
      JoinedSnoc(rest, i);
      assert front + Joined(rest[..i]) + rest[i] == front + (Joined(rest[..i]) + rest[i]);
      n := n + 1;
      if Flat(Contents(rest[i])) != [] {
        ok := WriteOn(w, rest[i], input);
        if !ok {
          return;
        }
      } else {
        StillCarries(w.route, w.frames, input, rest[i]);
      }
      input := input + rest[i];
      i := i + 1;
    }
  }

  /**
   * Everything from the input to the link. An End frame gets out only if the link has taken all that was read; its
   * error flag says whether the input broke off. If the session cannot be opened there is nothing but an error.
   */
  method FetchInput(w: Writer, first: First, rest: seq<seq<Buffer>>, broken: bool)
    requires w.Valid() && w.frames == [] && !w.followup && !w.hasError
    modifies w
    ensures w.Valid() && OneSession(w.route, w.frames)
    ensures var fails := first.InputFails? || !old(w.Openable());
            && CarriesInput(w.route, w.frames, Input(first, rest), IsOver(w.frames) && !fails)
            && Input(first, rest) == (if first.Read? then first.mb else []) + Joined(rest)
            && (IsOver(w.frames) ==> w.frames[|w.frames| - 1] == EndFrame(w.route.id, fails || broken))
            && (IsOver(w.frames) && !fails ==> |w.frames| > 1)
            && (fails ==> Body(w.frames) == [])
    ensures w.room > 0 ==> IsOver(w.frames)
  {
    hide CarriesInput, AreNext, WriteMeta, EncodeFrame, Joined, OneSession, Flat, Contents;
    NothingCarried(w.route);
    ghost var n: nat, input := 0, Front(first);
    var ok := WriteFirstPayload(w, first);
    NoneJoined(input, rest);
    if ok {
      ok, n := CopyRest(w, input, rest);
      input := input + Joined(rest[..n]);
    }
    w.hasError := !ok || broken;
    ghost var body := w.frames;
    SplitJoined(first, rest, n);
    CarriesLess(w.route, body, input, Input(first, rest)[|input|..], ok);
    w.Close();
    Closed(w.route, body, w.frames, w.hasError);
    assert input + Input(first, rest)[|input|..] == Input(first, rest);
  }

  lemma NoneJoined(front: seq<Buffer>, rest: seq<seq<Buffer>>)
    ensures front + Joined(rest[..0]) == front
  {
  }

  /** The input read so far is the beginning of all there is. */
  lemma SplitJoined(first: First, rest: seq<seq<Buffer>>, i: nat)
    requires i <= |rest|
    ensures var front := Front(first);
            && front + Joined(rest[..i]) <= Input(first, rest)
            && (i == |rest| ==> front + Joined(rest[..i]) == Input(first, rest))
    decreases |rest| - i
  {
    if i == |rest| {
      assert rest[..i] == rest;
    } else {
      JoinedSnoc(rest, i);
      SplitJoined(first, rest, i + 1);
      var front := Front(first);
      assert front + Joined(rest[..i + 1]) == front + Joined(rest[..i]) + rest[i];
    }
  }

  lemma CarriesLess(r: Route, frames: seq<Frame>, input: seq<Buffer>, more: seq<Buffer>, whole: bool)
    requires CarriesInput(r, frames, input, whole)
    ensures CarriesInput(r, frames, input + more, whole && more == [])
  {
    hide Flat, Solid;
    assert Contents(input + more) == Contents(input) + Contents(more);
    FlatConcat(Contents(input), Contents(more));
    SolidConcat(Contents(input), Contents(more));
    if more == [] {
      assert input + more == input;
    }
  }

  /** An End frame carries nothing. */
  lemma Closed(r: Route, body: seq<Frame>, frames: seq<Frame>, e: bool)
    requires AreNext(r, body, false) && (frames == body || frames == body + [EndFrame(r.id, e)])
    ensures OneSession(r, frames) && Body(frames) == body && (IsOver(frames) <==> frames != body)
    ensures forall input, whole :: CarriesInput(r, body, input, whole) ==>
                CarriesInput(r, frames, input, whole) && CarriesInput(r, frames, input, false)
  {
    hide Flat, Solid;
    if frames == body {
      assert frames != [] ==> IsNext(r, body[..|body| - 1], body[|body| - 1], false);
    } else {
      var f := EndFrame(r.id, e);
      assert frames[..|frames| - 1] == body;
      PayloadSnoc(body, f);
      assert Payload(body) + [] == Payload(body);
      assert Datas(frames) == Datas(body) + [[]];
      SolidConcat(Datas(body), [[]]);
      SolidEmpty([[]]);
      assert Solid(Datas(body)) + [] == Solid(Datas(body));
    }
  }

  lemma NothingCarried(r: Route)
    ensures AreNext(r, [], false) && CarriesInput(r, [], [], true) && CarriesInput(r, [], [], false)
  {
  }

  lemma {:induction false} JoinedSnoc(deliveries: seq<seq<Buffer>>, i: nat)
    requires i < |deliveries|
    ensures Joined(deliveries[..i + 1]) == Joined(deliveries[..i]) + deliveries[i]
  {
    if i > 0 {
      JoinedSnoc(deliveries[1..], i - 1);
      assert deliveries[..i + 1][1..] == deliveries[1..][..i];
      assert deliveries[..i][1..] == deliveries[1..][..i - 1];
    }
  }

  lemma NextConcat(r: Route, a: seq<Frame>, b: seq<Frame>)
    requires AreNext(r, a, false) && AreNext(r, b, a != [])
    ensures AreNext(r, a + b, false)
  {
    forall i | 0 <= i < |a + b|
      ensures IsNext(r, (a + b)[..i], (a + b)[i], false)
    {
      if i < |a| {
        assert (a + b)[..i] == a[..i];
      } else {
        assert (a + b)[..i] == a + b[..i - |a|];
      }
    }
  }

  lemma CarriesOn(r: Route, a: seq<Frame>, b: seq<Frame>, input: seq<Buffer>, mb: seq<Buffer>, ok: bool)
    requires CarriesInput(r, a, input, true) && Carries(r, b, mb, ok)
    ensures CarriesInput(r, a + b, input + mb, ok)
    ensures ok ==> b != []
  {
    hide Flat, Solid, PerBuffer;
    assert Contents(input + mb) == Contents(input) + Contents(mb);
    assert Datas(a + b) == Datas(a) + Datas(b);
    FlatConcat(Contents(input), Contents(mb));
    PayloadConcat(a, b);
    if r.packet {
      SolidConcat(Contents(input), Contents(mb));
      SolidConcat(Datas(a), Datas(b));
      SolidPackets(b, mb, ok);
    }
  }

  lemma SolidPackets(frames: seq<Frame>, mb: seq<Buffer>, ok: bool)
    requires PerBuffer(frames, mb, ok)
    ensures Solid(Datas(frames)) <= Solid(Contents(mb))
    ensures ok ==> Solid(Datas(frames)) == Solid(Contents(mb))
  {
    hide Flat;
    var c, n := Contents(mb), |frames|;
    if Flat(c) == [] {
      FlatEmpty(c);
      SolidEmpty(c);
      SolidEmpty(Datas(frames));
    } else {
      assert c == c[..n] + c[n..];
      assert c[..n] == Datas(frames);
      SolidConcat(c[..n], c[n..]);
      SolidEmpty(c[n..]);
    }
  }

  /** A delivery without content needs no frame. */
  lemma StillCarries(r: Route, frames: seq<Frame>, input: seq<Buffer>, mb: seq<Buffer>)
    requires CarriesInput(r, frames, input, true) && Flat(Contents(mb)) == []
    ensures CarriesInput(r, frames, input + mb, true)
  {
    hide Flat, Solid;
    assert Contents(input + mb) == Contents(input) + Contents(mb);
    FlatConcat(Contents(input), Contents(mb));
    SolidConcat(Contents(input), Contents(mb));
    FlatEmpty(Contents(mb));
    SolidEmpty(Contents(mb));
    assert Flat(Contents(input)) + [] == Flat(Contents(input));
  }
}
