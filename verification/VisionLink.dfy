/** Vision connections: the two directions of one end on one state, and a writer against the reader it feeds. */
module VisionLinks {
  import opened ByteSeq
  import opened VisionPadding
  import opened TrafficStates
  import opened VisionReaders
  import opened VisionWriters

  /** What happens at one end: a write, or a read of what has come from the peer. */
  datatype Event = Writes(mb: seq<Option<bytes>>) | Reads(buffer: seq<bytes>)

  predicate IsPossible(e: Event) {
    e.Writes? ==> e.mb == [None] || forall i :: 0 <= i < |e.mb| ==> e.mb[i].Some? && |e.mb[i].value| <= BUF_SIZE
  }

  /** All bytes written. */
  function WrittenBy(events: seq<Event>): bytes {
    if events == [] then []
    else
      var e := events[|events| - 1];
      WrittenBy(events[..|events| - 1]) + (if e.Writes? then Flat(Present(e.mb)) else [])
  }

  /** All that comes from the peer, without reads that bring nothing. */
  function ReadBy(events: seq<Event>): seq<seq<bytes>> {
    if events == [] then []
    else
      var e := events[|events| - 1];
      ReadBy(events[..|events| - 1]) + (if e.Reads? && Flat(e.buffer) != [] then [e.buffer] else [])
  }

  function BuffersOf(inputs: seq<Read>): (r: seq<seq<bytes>>)
    ensures |r| == |inputs| && forall i :: 0 <= i < |r| ==> r[i] == inputs[i].buffer
  {
    seq(|inputs|, i requires 0 <= i < |inputs| => inputs[i].buffer)
  }

  /** A writer and a reader of one connection: they share a state, and in it one half. */
  ghost predicate OneEnd(w: VisionWriter, r: VisionReader)
    reads w, r
  {
    w.state == r.state && w.isUplink != r.isUplink
  }

  /** A client's or a server's end of a new connection; both directions work on one half of its state. */
  method NewEnd(uuid: bytes, isClient: bool, testseed: Option<Seed>) returns (w: VisionWriter, r: VisionReader)
    requires |uuid| == UUID_LEN && (testseed.Some? ==> SafeSeed(testseed.value))
    ensures fresh(w) && fresh(r) && fresh(w.state) && OneEnd(w, r) && w.state.userUUID == uuid
    ensures w.Valid() && w.Written() == [] && r.View() == START && w.state.numberOfPacketToFilter == 8
    ensures w.Link().isPadding && !w.Link().writerDirectCopy && !w.raw
  {
    var state := new TrafficState(uuid);
    w := new VisionWriter(state, isClient, testseed);
    r := new VisionReader(state, !isClient);
  }

  /** A read between two writes does not disturb the writer, although both work on the same half of the state. */
  method ReadBeside(w: VisionWriter, r: VisionReader, buffer: seq<bytes>, stale: (nat, nat) -> byte)
    returns (out: seq<bytes>)
    requires OneEnd(w, r) && w.Valid() && WellFormed(r.View().unpadder)
    modifies r.state
    ensures w.Valid() && w.Written() == old(w.Written())
    ensures WellFormed(r.View().unpadder)
    ensures (r.View(), Flat(out)) ==
              ReadStep(r.state.userUUID, old(r.View()), Read(buffer, old(r.state.numberOfPacketToFilter) > 0))
    ensures r.state.numberOfPacketToFilter <= old(r.state.numberOfPacketToFilter)
  {
    hide ReadStep, FilterFrom, SafeSeed, Stream, Contents, Flat;
    out := r.ReadMultiBuffer(buffer, stale);
    OtherDirectionKeepsValid(w);
  }

  /** A write between two reads does not disturb the reader. */
  method WriteBeside(w: VisionWriter, r: VisionReader, mb: seq<Option<bytes>>, stale: (nat, nat) -> byte)
    requires OneEnd(w, r) && w.Valid() && IsPossible(Writes(mb))
    modifies w, w.state
    ensures w.Valid() && w.Written() == old(w.Written()) + Flat(Present(mb))
    ensures r.View() == old(r.View())
    ensures r.state.numberOfPacketToFilter <= old(r.state.numberOfPacketToFilter)
  {
    hide FilterFrom, SafeSeed, Stream, Contents, Flat;
    w.WriteMultiBuffer(mb, stale);
  }

  /**
   * One end over any run, with writes and reads in any order: the writer has put out what was written, and the reader
   * has made of its reads what it makes of them alone, for some point at which filtering stops.
   */
  method Run(w: VisionWriter, r: VisionReader, events: seq<Event>, stale: (nat, nat, nat) -> byte)
    returns (outs: seq<bytes>, ghost inputs: seq<Read>)
    requires OneEnd(w, r) && w.Valid() && w.Written() == [] && r.View() == START
    requires forall i :: 0 <= i < |events| ==> IsPossible(events[i])
    modifies w, w.state
    ensures w.Valid() && w.Written() == WrittenBy(events)
    ensures ReadsOf(inputs) && BuffersOf(inputs) == ReadBy(events)
    ensures Flat(outs) == ReadRun(r.state.userUUID, START, inputs)
    ensures r.View() == ReadEnd(r.state.userUUID, START, inputs)
  {
    hide ReadStep, ReadRun, SafeSeed, Stream, Contents, Flat, Present, ReadEnd;
    var uuid := r.state.userUUID;
    outs, inputs := [], [];
    FlatNothing();
    assert ReadRun(uuid, START, []) == [] && ReadEnd(uuid, START, []) == START by {
      NoReads(uuid);
    }
    for n := 0 to |events|
      invariant w.Valid() && w.Written() == WrittenBy(events[..n])
      invariant WellFormed(r.View().unpadder)
      invariant BuffersOf(inputs) == ReadBy(events[..n])
      invariant forall i :: 0 <= i < |inputs| ==> Flat(inputs[i].buffer) != []
      invariant forall i, j :: 0 <= i < j < |inputs| ==> (inputs[j].filtering ==> inputs[i].filtering)
      invariant forall i :: 0 <= i < |inputs| ==> (r.state.numberOfPacketToFilter > 0 ==> inputs[i].filtering)
      invariant r.View() == ReadEnd(uuid, START, inputs) && Flat(outs) == ReadRun(uuid, START, inputs)
    {
      assert events[..n + 1][..n] == events[..n];
      match events[n] {
        case Writes(mb) =>
          WriteBeside(w, r, mb, (i, at) => stale(n, i, at));
        case Reads(buffer) =>
          ghost var next := Read(buffer, r.state.numberOfPacketToFilter > 0);
          var out := ReadBeside(w, r, buffer, (i, at) => stale(n, i, at));
          FlatConcat(outs, out);
          outs := outs + out;
          if Flat(buffer) != [] {
            ReadSnoc(uuid, START, inputs, next);
            inputs := inputs + [next];
          } else {
            NothingRead(uuid, ReadEnd(uuid, START, inputs), next);
          }
      }
    }
    assert events[..|events|] == events;
  }

  lemma NoReads(uuid: bytes)
    ensures ReadRun(uuid, START, []) == [] && ReadEnd(uuid, START, []) == START
  {
  }

  lemma NothingRead(uuid: bytes, r: Reading, read: Read)
    requires Flat(read.buffer) == []
    ensures ReadStep(uuid, r, read) == (r, [])
  {
  }

  /**
   * What one end has written, also over the raw connection, and the other reads in any cutting: it comes out as it was
   * written exactly if the reader is never mistaken. Such a reader goes over to raw copy exactly if the writer has, and
   * takes padding for over exactly if it is.
   */
  lemma WriterMeetsReader(w: VisionWriter, inputs: seq<Read>)
    requires w.Valid() && w.blocks != []
    requires ReadsOf(inputs) && inputs != [] && inputs[0].buffer != [] && |inputs[0].buffer[0]| >= 21
    requires Flat(Pieces(inputs)) == Flat(w.wire) + Flat(w.rawWire)
    ensures ReadRun(w.state.userUUID, START, inputs) == w.Written()
       <==> NeverMistakenFromStart(w.state.userUUID, inputs)
    ensures NeverMistakenFromStart(w.state.userUUID, inputs) ==>
              var r := ReadEnd(w.state.userUUID, START, inputs);
              (r.direct <==> w.raw || w.Link().writerDirectCopy) && (r.within <==> w.Link().isPadding)
  {
    hide ReadRun, ReadEnd, NeverMistakenFromStart, EncodeBlocks, Contents, Encodable, Chain, SafeSeed, Flat, ReadsOf,
        Pieces;
    var uuid, tail := w.state.userUUID, w.plain + Flat(w.rawWire);
    FlatNothing();
    assert uuid + EncodeBlocks(w.blocks) + w.plain + Flat(w.rawWire) == uuid + EncodeBlocks(w.blocks) + tail;
    assert Contents(w.blocks) + w.plain + Flat(w.rawWire) == Contents(w.blocks) + tail;
    VisionReaderRoundTrip(uuid, w.blocks, tail, inputs);
    if NeverMistakenFromStart(uuid, inputs) {
      SwitchesAtDirect(uuid, w.blocks, tail, inputs, |inputs|);
      assert inputs[..|inputs|] == inputs;
    }
  }
}
