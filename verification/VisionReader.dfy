/** The Vision reader: unpads until its own test says that the padded part is over. */
module VisionReaders {
  import opened ByteSeq
  import opened VisionPadding
  import opened VisionDecoder
  import opened TrafficStates

  /** One buffer list from the connection; `filtering` says whether packets are still being filtered. */
  datatype Read = Read(buffer: seq<bytes>, filtering: bool)

  datatype Reading = Reading(unpadder: Unpadder, within: bool, direct: bool)

  const START := Reading(INITIAL, true, false)

  /** The test the reader makes after a read. It looks at content, padding and command only. */
  function Decide(u: Unpadder, within: bool): Reading {
    if u.content > 0 || u.padding > 0 || u.current == 0 then Reading(u, true, false)
    else if u.current == COMMAND_END then Reading(u, false, false)
    else if u.current == COMMAND_DIRECT then Reading(u, false, true)
    else Reading(u, within, false)
  }

  function ReadStep(uuid: bytes, r: Reading, read: Read): (Reading, bytes) {
    if Flat(read.buffer) == [] || r.direct || !(r.within || read.filtering) then (r, Flat(read.buffer))
    else
      var (u, out) := UnpadRun(uuid, r.unpadder, read.buffer);
      (Decide(u, r.within), out)
  }

  function ReadRun(uuid: bytes, r: Reading, inputs: seq<Read>): bytes
    decreases inputs
  {
    if inputs == [] then []
    else
      var (r', out) := ReadStep(uuid, r, inputs[0]);
      out + ReadRun(uuid, r', inputs[1..])
  }

  function Pieces(inputs: seq<Read>): seq<bytes> {
    if inputs == [] then [] else inputs[0].buffer + Pieces(inputs[1..])
  }

  /** Reads carry bytes, and filtering does not resume. */
  predicate ReadsOf(inputs: seq<Read>) {
    && (forall i :: 0 <= i < |inputs| ==> Flat(inputs[i].buffer) != [])
    && (forall i, j :: 0 <= i < j < |inputs| ==> (inputs[j].filtering ==> inputs[i].filtering))
  }

  /** The decoder waits for header bytes of a last block, and the reader takes that for the end. */
  predicate LooksOver(u: Unpadder) {
    0 < u.command < 5 && u.content <= 0 && u.padding <= 0 && u.current in {COMMAND_END, COMMAND_DIRECT}
  }

  /**
   * No read meets a decoder inside a header where the reader believes the padded part over and acts on it:
   * at once for a Direct block, with an unfiltered read for an End block.
   */
  predicate NeverCutsHeader(uuid: bytes, u: Unpadder, inputs: seq<Read>)
    decreases inputs
  {
    inputs == [] ||
    (&& !(LooksOver(u) && (u.current == COMMAND_DIRECT || !inputs[0].filtering))
     && NeverCutsHeader(uuid, UnpadRun(uuid, u, inputs[0].buffer).0, inputs[1..]))
  }

  /** The reader gives this read to the decoder. */
  predicate Looks(r: Reading, read: Read) {
    !r.direct && (r.within || read.filtering)
  }

  /**
   * Every read that goes to the decoder is free of false starts, and when the reader has stopped looking the decoder is
   * really at the end.
   */
  predicate NeverMistaken(uuid: bytes, r: Reading, inputs: seq<Read>)
    decreases inputs
  {
    inputs == [] ||
    if Looks(r, inputs[0]) then
      && Quiet(uuid, r.unpadder, inputs[0].buffer)
      && NeverMistaken(uuid, ReadStep(uuid, r, inputs[0]).0, inputs[1..])
    else Idle(r.unpadder)
  }

  // ---------------------------------------------------------------------------------------------

  lemma {:induction false} RunConcat(uuid: bytes, u: Unpadder, a: seq<bytes>, b: seq<bytes>)
    ensures UnpadRun(uuid, u, a + b).0 == UnpadRun(uuid, UnpadRun(uuid, u, a).0, b).0
    ensures UnpadRun(uuid, u, a + b).1 == UnpadRun(uuid, u, a).1 + UnpadRun(uuid, UnpadRun(uuid, u, a).0, b).1
    decreases a
  {
    hide UnpadPiece;
    if a == [] {
      assert a + b == b;
    } else {
      assert (a + b)[1..] == a[1..] + b;
      RunConcat(uuid, UnpadPiece(uuid, u, a[0]).0, a[1..], b);
    }
  }

  predicate WellFormed(u: Unpadder) {
    Idle(u) || (Active(u) && u.command <= 5 && (u.command == 5 ==> u.current == 0))
  }

  lemma {:induction false} UnpadWellFormed(u: Unpadder, p: bytes)
    requires WellFormed(u) || (u.command == 5 && p != [])
    ensures WellFormed(Unpad(u, p).0)
    decreases p
  {
    if p != [] && !Idle(u) {
      UnpadWellFormed(Feed(u, p[0]).0, p[1..]);
    }
  }

  lemma {:induction false} RunWellFormed(uuid: bytes, u: Unpadder, pieces: seq<bytes>)
    requires WellFormed(u)
    ensures WellFormed(UnpadRun(uuid, u, pieces).0)
    decreases pieces
  {
    if pieces != [] {
      UnpadWellFormed(u, pieces[0]);
      if Starts(uuid, pieces[0]) {
        UnpadWellFormed(u.(command := 5), pieces[0][UUID_LEN..]);
      }
      RunWellFormed(uuid, UnpadPiece(uuid, u, pieces[0]).0, pieces[1..]);
    }
  }

  /** Inside the last block, behind its command byte. */
  predicate InLastBlock(u: Unpadder, command: int) {
    Active(u) && u.command < 5 && u.current == command
  }

  lemma {:induction false} LastBlockStaysLast(u: Unpadder, p: bytes, command: int)
    requires InLastBlock(u, command) && command != 0
    ensures Idle(Unpad(u, p).0) || InLastBlock(Unpad(u, p).0, command)
    decreases p
  {
    if p != [] {
      var v := Feed(u, p[0]).0;
      if Idle(v) {
        IdlePassesThrough(v, p[1..]);
      } else {
        LastBlockStaysLast(v, p[1..], command);
      }
    }
  }

  /** Bytes that begin inside a header decode to fewer bytes. */
  lemma {:induction false} HeaderBytesVanish(uuid: bytes, u: Unpadder, pieces: seq<bytes>)
    requires u.command > 0 && Flat(pieces) != []
    ensures |UnpadRun(uuid, u, pieces).1| < |Flat(pieces)|
    decreases pieces
  {
    var p := pieces[0];
    if p == [] {
      HeaderBytesVanish(uuid, u, pieces[1..]);
    } else {
      UnpadShrinks(Feed(u, p[0]).0, p[1..]);
      RunShrinks(uuid, Unpad(u, p).0, pieces[1..]);
    }
  }

  lemma {:induction false} QuietConcat(uuid: bytes, u: Unpadder, a: seq<bytes>, b: seq<bytes>)
    requires Quiet(uuid, u, a + b)
    ensures Quiet(uuid, u, a) && Quiet(uuid, UnpadRun(uuid, u, a).0, b)
    decreases a
  {
    if a == [] {
      assert a + b == b;
    } else {
      assert (a + b)[1..] == a[1..] + b;
      QuietConcat(uuid, Unpad(u, a[0]).0, a[1..], b);
    }
  }

  /** Once it takes the padded part for over, the reader hands out bytes as they come. */
  lemma {:induction false} RawReads(uuid: bytes, r: Reading, inputs: seq<Read>)
    requires ReadsOf(inputs)
    requires r.direct || (!r.within && (inputs != [] ==> !inputs[0].filtering))
    ensures ReadRun(uuid, r, inputs) == Flat(Pieces(inputs))
    decreases inputs
  {
    if inputs != [] {
      FlatConcat(inputs[0].buffer, Pieces(inputs[1..]));
      RawReads(uuid, r, inputs[1..]);
    }
  }

  /** The reader is still where the decoder is, or will look at the bytes anyway. */
  predicate InStep(r: Reading, next: bool) {
    || Idle(r.unpadder)
    || (!r.direct && r.within)
    || (!r.direct && next && InLastBlock(r.unpadder, COMMAND_END))
  }

  /** The reader's state as a read leaves it. */
  predicate AfterRead(r: Reading) {
    && WellFormed(r.unpadder)
    && (LooksOver(r.unpadder) ==> !r.within && (r.direct <==> r.unpadder.current == COMMAND_DIRECT))
    && (!LooksOver(r.unpadder) ==> InStep(r, false))
  }

  /** A read in step with the decoder returns what the decoder returns and keeps its counters. */
  lemma StepAgrees(uuid: bytes, r: Reading, read: Read)
    requires |uuid| == UUID_LEN && Flat(read.buffer) != [] && Quiet(uuid, r.unpadder, read.buffer)
    requires WellFormed(r.unpadder) && InStep(r, read.filtering)
    ensures var (r', out) := ReadStep(uuid, r, read);
            && out == UnpadRun(uuid, r.unpadder, read.buffer).1
            && r'.unpadder == UnpadRun(uuid, r.unpadder, read.buffer).0
            && AfterRead(r')
  {
    hide Unpad, UnpadRun;
    RunWellFormed(uuid, r.unpadder, read.buffer);
    SplitInvariant(uuid, r.unpadder, read.buffer);
    if Idle(r.unpadder) {
      IdlePassesThrough(r.unpadder, Flat(read.buffer));
    } else if !r.within {
      LastBlockStaysLast(r.unpadder, Flat(read.buffer), COMMAND_END);
    }
  }

  /** The reader follows the decoder for as long as it does not leave it in the middle of a header. */
  lemma {:induction false} ReaderFollowsDecoder(uuid: bytes, r: Reading, inputs: seq<Read>)
    requires |uuid| == UUID_LEN && ReadsOf(inputs) && AfterRead(r)
    requires Quiet(uuid, r.unpadder, Pieces(inputs))
    ensures ReadRun(uuid, r, inputs) == UnpadRun(uuid, r.unpadder, Pieces(inputs)).1
       <==> NeverCutsHeader(uuid, r.unpadder, inputs)
    decreases inputs
  {
    hide Unpad, UnpadPiece, Starts;
    if inputs != [] {
      var buffer, rest, u := inputs[0].buffer, Pieces(inputs[1..]), r.unpadder;
      if LooksOver(u) && (u.current == COMMAND_DIRECT || !inputs[0].filtering) {
        RawReads(uuid, r, inputs);
        FlatConcat(buffer, rest);
        HeaderBytesVanish(uuid, u, Pieces(inputs));
      } else {
        var (r', out) := ReadStep(uuid, r, inputs[0]);
        RunConcat(uuid, u, buffer, rest);
        QuietConcat(uuid, u, buffer, rest);
        StepAgrees(uuid, r, inputs[0]);
        SamePrefix(out, ReadRun(uuid, r', inputs[1..]), UnpadRun(uuid, r'.unpadder, rest).1);
        ReaderFollowsDecoder(uuid, r', inputs[1..]);
      }
    }
  }

  lemma SamePrefix(a: bytes, x: bytes, y: bytes)
    ensures a + x == a + y <==> x == y
  {
    assert (a + x)[|a|..] == x && (a + y)[|a|..] == y;
  }

  /** Whatever the reader does, it hands out no more bytes than it gets. */
  lemma {:induction false} ReadShrinks(uuid: bytes, r: Reading, inputs: seq<Read>)
    ensures |ReadRun(uuid, r, inputs)| <= |Flat(Pieces(inputs))|
    decreases inputs
  {
    if inputs != [] {
      FlatConcat(inputs[0].buffer, Pieces(inputs[1..]));
      RunShrinks(uuid, r.unpadder, inputs[0].buffer);
      ReadShrinks(uuid, ReadStep(uuid, r, inputs[0]).0, inputs[1..]);
    }
  }

  /** Behind a false start the decoder ought to be idle. */
  lemma {:induction false} IdleAfterFalseStart(uuid: bytes, u: Unpadder, pieces: seq<bytes>)
    requires !Quiet(uuid, u, pieces)
    ensures Idle(Unpad(u, Flat(pieces)).0)
    decreases pieces
  {
    UnpadAppend(u, pieces[0], Flat(pieces[1..]));
    if Idle(u) {
      IdlePassesThrough(u, Flat(pieces));
    } else {
      IdleAfterFalseStart(uuid, Unpad(u, pieces[0]).0, pieces[1..]);
    }
  }

  /** Bytes that begin inside a header decode to fewer bytes, also uncut. */
  lemma HeaderVanishes(u: Unpadder, p: bytes)
    requires u.command > 0 && p != []
    ensures |Unpad(u, p).1| < |p|
  {
    UnpadShrinks(Feed(u, p[0]).0, p[1..]);
  }

  /** A read that is not free of false starts loses bytes for good. */
  lemma FalseStartLoses(uuid: bytes, u: Unpadder, buffer: seq<bytes>, r: Reading, inputs: seq<Read>)
    requires |uuid| == UUID_LEN && !Quiet(uuid, u, buffer)
    ensures |UnpadRun(uuid, u, buffer).1 + ReadRun(uuid, r, inputs)|
          < |Unpad(u, Flat(buffer) + Flat(Pieces(inputs))).1|
  {
    hide Unpad, UnpadRun, ReadRun, Quiet;
    SplitInvariant(uuid, u, buffer);
    IdleAfterFalseStart(uuid, u, buffer);
    UnpadAppend(u, Flat(buffer), Flat(Pieces(inputs)));
    IdlePassesThrough(Unpad(u, Flat(buffer)).0, Flat(Pieces(inputs)));
    ReadShrinks(uuid, r, inputs);
  }

  /** From a state that a read has left, the reader gives what the bytes decode to exactly if it is never mistaken. */
  lemma {:induction false} RightIfNeverMistaken(uuid: bytes, r: Reading, inputs: seq<Read>)
    requires |uuid| == UUID_LEN && ReadsOf(inputs) && AfterRead(r)
    ensures ReadRun(uuid, r, inputs) == Unpad(r.unpadder, Flat(Pieces(inputs))).1 <==> NeverMistaken(uuid, r, inputs)
    decreases inputs, 0
  {
    hide Unpad, UnpadPiece, UnpadRun, Starts, Quiet, Decide, WellFormed;
    var u := r.unpadder;
    if inputs == [] {
      UnpadNothing(u);
    } else {
      var buffer, rest := inputs[0].buffer, inputs[1..];
      FlatConcat(buffer, Pieces(rest));
      if !Looks(r, inputs[0]) {
        RawReads(uuid, r, inputs);
        if Idle(u) {
          IdlePassesThrough(u, Flat(Pieces(inputs)));
        } else {
          HeaderVanishes(u, Flat(Pieces(inputs)));
        }
      } else {
        if Quiet(uuid, u, buffer) {
          StepAgrees(uuid, r, inputs[0]);
        }
        RightFromRead(uuid, u, buffer, ReadStep(uuid, r, inputs[0]).0, rest);
      }
    }
  }

  /** The same from the middle of a read: `buffer` goes to the decoder, and then `r` is the reader's state. */
  lemma {:induction false} RightFromRead(uuid: bytes, u: Unpadder, buffer: seq<bytes>, r: Reading, rest: seq<Read>)
    requires |uuid| == UUID_LEN && ReadsOf(rest)
    requires Quiet(uuid, u, buffer) ==> AfterRead(r) && r.unpadder == UnpadRun(uuid, u, buffer).0
    ensures UnpadRun(uuid, u, buffer).1 + ReadRun(uuid, r, rest) == Unpad(u, Flat(buffer) + Flat(Pieces(rest))).1
       <==> Quiet(uuid, u, buffer) && NeverMistaken(uuid, r, rest)
    decreases rest, 1
  {
    hide Unpad, UnpadRun, ReadRun, Quiet, NeverMistaken, AfterRead, Pieces, Flat, ReadsOf;
    if Quiet(uuid, u, buffer) {
      SplitInvariant(uuid, u, buffer);
      UnpadAppend(u, Flat(buffer), Flat(Pieces(rest)));
      var out := UnpadRun(uuid, u, buffer).1;
      SamePrefix(out, ReadRun(uuid, r, rest), Unpad(r.unpadder, Flat(Pieces(rest))).1);
      RightIfNeverMistaken(uuid, r, rest);
    } else {
      FalseStartLoses(uuid, u, buffer, r, rest);
    }
  }

  /** The first read carries the identifier, so the reader looks at it whatever it is cut into. */
  lemma FirstRead(uuid: bytes, read: Read)
    requires |uuid| == UUID_LEN && read.buffer != [] && Starts(uuid, read.buffer[0])
    ensures var (r, out) := ReadStep(uuid, START, read);
            var (v, d) := UnpadRun(uuid, INITIAL, read.buffer);
            out == d && r.unpadder == v && AfterRead(r)
  {
    hide Unpad;
    var u := UnpadPiece(uuid, INITIAL, read.buffer[0]).0;
    UnpadWellFormed(INITIAL.(command := 5), read.buffer[0][UUID_LEN..]);
    RunWellFormed(uuid, u, read.buffer[1..]);
  }

  /** The first read, whose first buffer starts the padded part, and the state the reader goes on from. */
  predicate NeverMistakenFromStart(uuid: bytes, inputs: seq<Read>)
    requires inputs != [] && inputs[0].buffer != []
  {
    var buffer := inputs[0].buffer;
    && Quiet(uuid, UnpadPiece(uuid, INITIAL, buffer[0]).0, buffer[1..])
    && NeverMistaken(uuid, ReadStep(uuid, START, inputs[0]).0, inputs[1..])
  }

  /**
   * A whole padded stream and the plain bytes behind it, read through the reader in any cutting, come back unchanged
   * exactly if the reader is never mistaken: no piece that it gives to an idle decoder starts with the identifier, and
   * it does not stop looking while the decoder is inside a header.
   */
  lemma VisionReaderRoundTrip(uuid: bytes, bs: seq<Block>, tail: bytes, inputs: seq<Read>)
    requires |uuid| == UUID_LEN && Encodable(bs) && Chain(bs) && bs != []
    requires tail != [] ==> Terminated(bs)
    requires ReadsOf(inputs) && inputs != [] && inputs[0].buffer != [] && |inputs[0].buffer[0]| >= 21
    requires Flat(Pieces(inputs)) == uuid + EncodeBlocks(bs) + tail
    ensures ReadRun(uuid, START, inputs) == Contents(bs) + tail <==> NeverMistakenFromStart(uuid, inputs)
  {
    hide Unpad, EncodeBlocks, Contents, NeverMistakenFromStart, ReadRun, Pieces, ReadsOf, Flat, Encodable, Chain;
    var u0, s := INITIAL.(command := 5), EncodeBlocks(bs) + tail;
    assert uuid + EncodeBlocks(bs) + tail == uuid + s;
    DecodeStream(u0, bs, tail);
    RightFromStart(uuid, s, inputs);
  }

  lemma RightFromStart(uuid: bytes, s: bytes, inputs: seq<Read>)
    requires |uuid| == UUID_LEN && Flat(Pieces(inputs)) == uuid + s
    requires ReadsOf(inputs) && inputs != [] && inputs[0].buffer != [] && |inputs[0].buffer[0]| >= 21
    ensures ReadRun(uuid, START, inputs) == Unpad(INITIAL.(command := 5), s).1 <==> NeverMistakenFromStart(uuid, inputs)
  {
    hide Unpad, UnpadPiece, UnpadRun, NeverMistaken, Quiet, ReadStep, AfterRead, Flat;
    var u0, buffer, rest := INITIAL.(command := 5), inputs[0].buffer, inputs[1..];
    var b1, n := buffer[1..], |buffer[0]| - UUID_LEN;
    var (v, d) := UnpadPiece(uuid, INITIAL, buffer[0]);
    var (r, out) := ReadStep(uuid, START, inputs[0]);
    assert Pieces(inputs)[1..] == b1 + Pieces(rest);
    FirstPiece(uuid, s, Pieces(inputs));
    FlatConcat(b1, Pieces(rest));
    assert uuid + s == uuid + [] + s;
    BeginsWithIdentifier(uuid, [], s, Pieces(inputs));
    FirstRead(uuid, inputs[0]);
    FirstOut(uuid, buffer);
    var all := UnpadRun(uuid, v, b1).1 + ReadRun(uuid, r, rest);
    assert ReadRun(uuid, START, inputs) == d + all;
    assert s == s[..n] + s[n..];
    UnpadAppend(u0, s[..n], s[n..]);
    SamePrefix(d, all, Unpad(v, s[n..]).1);
    RightFromRead(uuid, v, b1, r, rest);
  }

  lemma FirstOut(uuid: bytes, buffer: seq<bytes>)
    requires buffer != []
    ensures var (v, d) := UnpadPiece(uuid, INITIAL, buffer[0]);
            var (w, d1) := UnpadRun(uuid, v, buffer[1..]);
            UnpadRun(uuid, INITIAL, buffer) == (w, d + d1)
  {
  }

  /**
   * If no later piece of the plain part starts with the identifier, it is enough that no read finds the decoder inside
   * the last block's header at a point that the reader mistakes for the end.
   */
  lemma ReaderWithoutFalseStarts(uuid: bytes, bs: seq<Block>, tail: bytes, inputs: seq<Read>)
    requires |uuid| == UUID_LEN && Encodable(bs) && Chain(bs) && bs != []
    requires tail != [] ==> Terminated(bs)
    requires ReadsOf(inputs) && Pieces(inputs) != [] && |Pieces(inputs)[0]| >= 21
    requires Flat(Pieces(inputs)) == uuid + EncodeBlocks(bs) + tail
    requires NoFalseStart(uuid, Pieces(inputs)[1..], |uuid| + |EncodeBlocks(bs)| - |Pieces(inputs)[0]|)
    ensures ReadRun(uuid, START, inputs) == Contents(bs) + tail <==> NeverCutsHeader(uuid, INITIAL, inputs)
  {
    hide Unpad, UnpadPiece, UnpadRun, ReadStep, EncodeBlocks, Contents, NoFalseStart, Quiet, Pieces;
    VisionRoundTrip(uuid, bs, tail, Pieces(inputs));
    SecondRead(uuid, bs, tail, inputs);
    var (r, out) := ReadStep(uuid, START, inputs[0]);
    ReaderFollowsDecoder(uuid, r, inputs[1..]);
    SamePrefix(out, ReadRun(uuid, r, inputs[1..]), UnpadRun(uuid, r.unpadder, Pieces(inputs[1..])).1);
  }

  /** After the first read the reader is in step, and what is left holds no false start. */
  lemma SecondRead(uuid: bytes, bs: seq<Block>, tail: bytes, inputs: seq<Read>)
    requires |uuid| == UUID_LEN && Encodable(bs) && Chain(bs) && bs != []
    requires tail != [] ==> Terminated(bs)
    requires ReadsOf(inputs) && Pieces(inputs) != [] && |Pieces(inputs)[0]| >= 21
    requires Flat(Pieces(inputs)) == uuid + EncodeBlocks(bs) + tail
    requires NoFalseStart(uuid, Pieces(inputs)[1..], |uuid| + |EncodeBlocks(bs)| - |Pieces(inputs)[0]|)
    ensures inputs != []
    ensures var (r, out) := ReadStep(uuid, START, inputs[0]);
            && AfterRead(r) && Quiet(uuid, r.unpadder, Pieces(inputs[1..]))
            && r.unpadder == UnpadRun(uuid, INITIAL, inputs[0].buffer).0
            && UnpadRun(uuid, INITIAL, Pieces(inputs)).1 == out + UnpadRun(uuid, r.unpadder, Pieces(inputs[1..])).1
  {
    hide Unpad, UnpadPiece, ReadStep, EncodeBlocks, NoFalseStart, Quiet, Flat;
    FlatNothing();
    var buffer, rest := inputs[0].buffer, Pieces(inputs[1..]);
    assert Pieces(inputs) == buffer + rest;
    assert buffer != [];
    QuietAfterFirstPiece(uuid, bs, tail, Pieces(inputs));
    assert Pieces(inputs)[1..] == buffer[1..] + rest;
    QuietConcat(uuid, UnpadPiece(uuid, INITIAL, buffer[0]).0, buffer[1..], rest);
    BeginsWithIdentifier(uuid, EncodeBlocks(bs), tail, Pieces(inputs));
    FirstRead(uuid, inputs[0]);
    RunConcat(uuid, INITIAL, buffer, rest);
  }

  lemma BeginsWithIdentifier(uuid: bytes, encoded: bytes, tail: bytes, pieces: seq<bytes>)
    requires |uuid| == UUID_LEN && pieces != [] && |pieces[0]| >= 21
    requires Flat(pieces) == uuid + encoded + tail
    ensures Starts(uuid, pieces[0])
  {
    assert uuid + encoded + tail == uuid + (encoded + tail);
    CutBehindPrefix(uuid, encoded + tail, pieces[0], Flat(pieces[1..]));
  }

  /** The reader's state behind some reads. */
  function ReadEnd(uuid: bytes, r: Reading, inputs: seq<Read>): Reading
    decreases inputs
  {
    if inputs == [] then r else ReadEnd(uuid, ReadStep(uuid, r, inputs[0]).0, inputs[1..])
  }

  lemma {:induction false} ReadSnoc(uuid: bytes, r: Reading, inputs: seq<Read>, next: Read)
    ensures var (after, out) := ReadStep(uuid, ReadEnd(uuid, r, inputs), next);
            && ReadEnd(uuid, r, inputs + [next]) == after
            && ReadRun(uuid, r, inputs + [next]) == ReadRun(uuid, r, inputs) + out
    decreases inputs
  {
    hide ReadStep;
    if inputs == [] {
      assert [next][1..] == [];
      assert ReadRun(uuid, r, [next]) == ReadStep(uuid, r, next).1 + [];
    } else {
      assert (inputs + [next])[1..] == inputs[1..] + [next];
      ReadSnoc(uuid, ReadStep(uuid, r, inputs[0]).0, inputs[1..], next);
    }
  }

  // ---------------------------------------------------------------------------------------------
  // When the reader switches

  /**
   * What a read leaves behind: an idle decoder behind a Direct block means raw copy, behind an End or Direct block that
   * padding is over; and nothing else means that.
   */
  predicate Told(r: Reading) {
    && (r.direct ==> r.unpadder.current == COMMAND_DIRECT)
    && (!r.within ==> r.unpadder.current in {COMMAND_END, COMMAND_DIRECT})
    && (Idle(r.unpadder) ==>
          && (r.unpadder.current == COMMAND_DIRECT ==> r.direct)
          && (r.unpadder.current in {COMMAND_END, COMMAND_DIRECT} ==> !r.within))
  }

  /** Once a command other than Continue has been read it stays. */
  lemma {:induction false} CurrentStays(u: Unpadder, p: bytes)
    requires WellFormed(u) && u.current != 0
    ensures Unpad(u, p).0.current == u.current
    decreases p
  {
    if p != [] && !Idle(u) {
      UnpadWellFormed(u, p[..1]);
      FeedIsUnpad(u, p[0]);
      assert p[..1] == [p[0]];
      CurrentStays(Feed(u, p[0]).0, p[1..]);
    }
  }

  lemma FeedIsUnpad(u: Unpadder, d: byte)
    requires !Idle(u)
    ensures Unpad(u, [d]).0 == Feed(u, d).0
  {
    assert [d][1..] == [];
  }

  /** A read in step keeps the reader told. */
  lemma StepTells(uuid: bytes, r: Reading, read: Read)
    requires |uuid| == UUID_LEN && Flat(read.buffer) != [] && Quiet(uuid, r.unpadder, read.buffer)
    requires WellFormed(r.unpadder) && Looks(r, read) && Told(r)
    ensures var r' := ReadStep(uuid, r, read).0;
            Told(r') && r'.unpadder == Unpad(r.unpadder, Flat(read.buffer)).0 && WellFormed(r'.unpadder)
  {
    hide Unpad, UnpadRun, Quiet;
    SplitInvariant(uuid, r.unpadder, read.buffer);
    RunWellFormed(uuid, r.unpadder, read.buffer);
    if r.unpadder.current != 0 {
      CurrentStays(r.unpadder, Flat(read.buffer));
    }
  }

  /** A reader that is never mistaken stays told, and its decoder is where the bytes have brought it. */
  lemma {:induction false} StaysTold(uuid: bytes, r: Reading, inputs: seq<Read>)
    requires |uuid| == UUID_LEN && ReadsOf(inputs) && WellFormed(r.unpadder) && Told(r)
             && NeverMistaken(uuid, r, inputs)
    ensures var r' := ReadEnd(uuid, r, inputs);
            Told(r') && r'.unpadder == Unpad(r.unpadder, Flat(Pieces(inputs))).0 && WellFormed(r'.unpadder)
    decreases inputs
  {
    hide Unpad, UnpadRun, Quiet, Decide, WellFormed, Told, ReadStep;
    if inputs == [] {
      UnpadNothing(r.unpadder);
    } else {
      var buffer, rest := inputs[0].buffer, inputs[1..];
      FlatConcat(buffer, Pieces(rest));
      if Looks(r, inputs[0]) {
        StepTells(uuid, r, inputs[0]);
        UnpadAppend(r.unpadder, Flat(buffer), Flat(Pieces(rest)));
        StaysTold(uuid, ReadStep(uuid, r, inputs[0]).0, rest);
      } else {
        NoMoreLooking(uuid, r, inputs);
        IdlePassesThrough(r.unpadder, Flat(Pieces(inputs)));
      }
    }
  }

  /** A reader that has stopped looking stays as it is. */
  lemma {:induction false} NoMoreLooking(uuid: bytes, r: Reading, inputs: seq<Read>)
    requires ReadsOf(inputs) && (inputs != [] ==> !Looks(r, inputs[0]))
    ensures ReadEnd(uuid, r, inputs) == r
    decreases inputs
  {
    if inputs != [] {
      NoMoreLooking(uuid, r, inputs[1..]);
    }
  }

  /** Nobody who is never mistaken in the end has been mistaken before, and stops looking only at an idle decoder. */
  lemma {:induction false} NotMistakenBefore(uuid: bytes, r: Reading, inputs: seq<Read>, k: nat)
    requires k <= |inputs| && NeverMistaken(uuid, r, inputs) && ReadsOf(inputs)
    ensures NeverMistaken(uuid, r, inputs[..k])
    ensures k < |inputs| && !Looks(ReadEnd(uuid, r, inputs[..k]), inputs[k]) ==>
              Idle(ReadEnd(uuid, r, inputs[..k]).unpadder)
    decreases inputs
  {
    hide ReadStep, Quiet;
    if k > 0 {
      var rest := inputs[1..];
      assert inputs[..k][1..] == rest[..k - 1];
      if Looks(r, inputs[0]) {
        NotMistakenBefore(uuid, ReadStep(uuid, r, inputs[0]).0, rest, k - 1);
      } else {
        assert forall i, j :: 0 <= i < j < k ==> (inputs[..k][j].filtering ==> inputs[..k][i].filtering);
        NoMoreLooking(uuid, r, inputs[..k]);
      }
    }
  }

  /** Behind some beginning of a padded stream: where the decoder is, and what the last command was. */
  lemma DecoderAt(bs: seq<Block>, tail: bytes, m: nat)
    requires Encodable(bs) && Chain(bs) && bs != [] && (tail != [] ==> Terminated(bs))
    requires m <= |EncodeBlocks(bs) + tail|
    ensures var u := Unpad(INITIAL.(command := 5), (EncodeBlocks(bs) + tail)[..m]).0;
            && (Idle(u) <==> Terminated(bs) && m >= |EncodeBlocks(bs)|)
            && (Idle(u) ==> u.current == bs[|bs| - 1].command)
            && (m == |EncodeBlocks(bs) + tail| && !Idle(u) ==> u.command == 5)
  {
    hide Unpad, EncodeBlocks, Encodable, Chain;
    var u0, e := INITIAL.(command := 5), EncodeBlocks(bs);
    IdleExactlyAfterChain(u0, bs, tail, m);
    UnpadBlocks(u0, bs);
    if Terminated(bs) && m >= |e| {
      assert (e + tail)[..m] == e + tail[..m - |e|];
      UnpadAppend(u0, e, tail[..m - |e|]);
      IdlePassesThrough(Unpad(u0, e).0, tail[..m - |e|]);
    } else if m == |e + tail| {
      assert (e + tail)[..m] == e;
    }
  }

  /** The bytes of the first `k` reads. */
  lemma {:induction false} FrontPieces(inputs: seq<Read>, k: nat)
    requires k <= |inputs|
    ensures Flat(Pieces(inputs)) == Flat(Pieces(inputs[..k])) + Flat(Pieces(inputs[k..]))
    decreases inputs
  {
    if k == 0 {
      assert inputs[..0] == [] && inputs[0..] == inputs;
    } else {
      FrontPieces(inputs[1..], k - 1);
      assert inputs[..k][1..] == inputs[1..][..k - 1] && inputs[1..][k - 1..] == inputs[k..];
      FlatConcat(inputs[0].buffer, Pieces(inputs[1..]));
      FlatConcat(inputs[0].buffer, Pieces(inputs[..k][1..]));
    }
  }

  /** After the first `k` reads of a stream whose reader is never mistaken. */
  lemma StateAfter(uuid: bytes, s: bytes, inputs: seq<Read>, k: nat)
    requires |uuid| == UUID_LEN && Flat(Pieces(inputs)) == uuid + s && 1 <= k <= |inputs|
    requires ReadsOf(inputs) && inputs[0].buffer != [] && |inputs[0].buffer[0]| >= 21
    requires NeverMistakenFromStart(uuid, inputs)
    ensures var r, m := ReadEnd(uuid, START, inputs[..k]), |Flat(Pieces(inputs[..k]))| - UUID_LEN;
            && 0 <= m <= |s| && (k == |inputs| ==> m == |s|)
            && Told(r) && WellFormed(r.unpadder) && r.unpadder == Unpad(INITIAL.(command := 5), s[..m]).0
            && (k < |inputs| && !Looks(r, inputs[k]) ==> Idle(r.unpadder))
  {
    hide Unpad, UnpadPiece, UnpadRun, NeverMistaken, Quiet, ReadStep, Flat, Told, WellFormed, Pieces;
    var buffer, rest := inputs[0].buffer, inputs[1..];
    var u0, b1, n := INITIAL.(command := 5), buffer[1..], |buffer[0]| - UUID_LEN;
    assert inputs[..k][1..] == rest[..k - 1];
    FirstState(uuid, s, inputs);
    var (r, out) := ReadStep(uuid, START, inputs[0]);
    NotMistakenBefore(uuid, r, rest, k - 1);
    StaysTold(uuid, r, rest[..k - 1]);
    FrontPieces(inputs, k);
    FrontPieces(inputs, 1);
    FrontPieces(inputs[..k], 1);
    var p, q := Flat(buffer), Flat(Pieces(rest[..k - 1]));
    OnlyFirst(inputs);
    OnlyFirst(inputs[..k]);
    assert Flat(Pieces(inputs[..k])) == p + q;
    var all := Flat(Pieces(inputs[k..]));
    assert uuid + s == p + q + all;
    Cuts(uuid, s, p, q, all);
    UnpadAppend(u0, s[..|p| - UUID_LEN], q);
    if k == |inputs| {
      assert inputs[k..] == [];
      NoPieces();
    }
  }

  lemma NoPieces()
    ensures Flat(Pieces([])) == []
  {
  }

  lemma OnlyFirst(inputs: seq<Read>)
    requires inputs != []
    ensures Flat(Pieces(inputs)) == Flat(inputs[0].buffer) + Flat(Pieces(inputs[1..]))
  {
    FlatConcat(inputs[0].buffer, Pieces(inputs[1..]));
  }

  lemma Cuts(uuid: bytes, s: bytes, p: bytes, q: bytes, all: bytes)
    requires uuid + s == p + q + all && |p| >= |uuid|
    ensures var n := |p| - |uuid|;
            n + |q| <= |s| && s[..n + |q|] == s[..n] + q && (all == [] ==> n + |q| == |s|)
  {
    var n := |p| - |uuid|;
    assert (uuid + s)[|uuid|..] == s;
    assert (p + q + all)[|p|..|p| + |q|] == q;
    assert s[n..n + |q|] == (uuid + s)[|p|..|p| + |q|];
  }

  /** The first read brings the decoder to where its bytes are, and the reader is told. */
  lemma FirstState(uuid: bytes, s: bytes, inputs: seq<Read>)
    requires |uuid| == UUID_LEN && Flat(Pieces(inputs)) == uuid + s && inputs != []
    requires ReadsOf(inputs) && inputs[0].buffer != [] && |inputs[0].buffer[0]| >= 21
    requires NeverMistakenFromStart(uuid, inputs)
    ensures var r, n := ReadStep(uuid, START, inputs[0]).0, |Flat(inputs[0].buffer)| - UUID_LEN;
            && 0 <= n <= |s| && Told(r) && WellFormed(r.unpadder)
            && r.unpadder == Unpad(INITIAL.(command := 5), s[..n]).0
            && NeverMistaken(uuid, r, inputs[1..]) && ReadsOf(inputs[1..])
  {
    hide Unpad, UnpadPiece, UnpadRun, NeverMistaken, Quiet, Told, Decide, ReadStep, WellFormed, Flat;
    var u0, buffer, rest := INITIAL.(command := 5), inputs[0].buffer, inputs[1..];
    var b1, k := buffer[1..], |buffer[0]| - UUID_LEN;
    var (v, d) := UnpadPiece(uuid, INITIAL, buffer[0]);
    assert Pieces(inputs)[1..] == b1 + Pieces(rest);
    FirstPiece(uuid, s, Pieces(inputs));
    FlatConcat(b1, Pieces(rest));
    assert uuid + [] + s == uuid + s;
    BeginsWithIdentifier(uuid, [], s, Pieces(inputs));
    FirstTold(uuid, inputs[0]);
    FirstOut(uuid, buffer);
    SplitInvariant(uuid, v, b1);
    FlatHead(buffer);
    UnpadAppend(u0, s[..k], Flat(b1));
    SliceOn(s, k, Flat(b1), Flat(Pieces(rest)));
  }

  lemma SliceOn(s: bytes, k: nat, p: bytes, rest: bytes)
    requires k <= |s| && s[k..] == p + rest
    ensures k + |p| <= |s| && s[..k + |p|] == s[..k] + p
  {
    assert s[k..][..|p|] == p;
  }

  lemma FirstTold(uuid: bytes, read: Read)
    requires |uuid| == UUID_LEN && read.buffer != [] && Starts(uuid, read.buffer[0]) && Flat(read.buffer) != []
    ensures var r := ReadStep(uuid, START, read).0;
            Told(r) && WellFormed(r.unpadder) && r.unpadder == UnpadRun(uuid, INITIAL, read.buffer).0
  {
    hide Unpad, UnpadRun;
    FirstRead(uuid, read);
  }

  lemma FlatHead(mb: seq<bytes>)
    requires mb != []
    ensures |Flat(mb)| == |mb[0]| + |Flat(mb[1..])|
  {
  }

  /**
   * A reader that is never mistaken goes over to raw copy in the very read that reaches the end of a Direct block, and
   * in no other case. From the end of an End or Direct block on it takes padding for over.
   */
  lemma SwitchesAtDirect(uuid: bytes, bs: seq<Block>, tail: bytes, inputs: seq<Read>, k: nat)
    requires |uuid| == UUID_LEN && Encodable(bs) && Chain(bs) && bs != []
    requires tail != [] ==> Terminated(bs)
    requires ReadsOf(inputs) && 1 <= k <= |inputs| && inputs[0].buffer != [] && |inputs[0].buffer[0]| >= 21
    requires Flat(Pieces(inputs)) == uuid + EncodeBlocks(bs) + tail
    requires NeverMistakenFromStart(uuid, inputs)
    ensures var r := ReadEnd(uuid, START, inputs[..k]);
            var over := Terminated(bs) && |Flat(Pieces(inputs[..k]))| >= UUID_LEN + |EncodeBlocks(bs)|;
            && (r.direct <==> over && bs[|bs| - 1].command == COMMAND_DIRECT)
            && (over ==> (r.within <==> bs[|bs| - 1].command !in {COMMAND_END, COMMAND_DIRECT}))
            && (!over && k == |inputs| ==> r.within)
  {
    hide Unpad, NeverMistakenFromStart, ReadEnd, EncodeBlocks, Encodable, Chain, Flat, Pieces, ReadsOf;
    var s := EncodeBlocks(bs) + tail;
    assert uuid + EncodeBlocks(bs) + tail == uuid + s;
    StateAfter(uuid, s, inputs, k);
    DecoderAt(bs, tail, |Flat(Pieces(inputs[..k]))| - UUID_LEN);
  }

  /** One content byte, and then an End block cut right behind its command byte. */
  const LEAK_UUID: bytes := [9, 9, 9, 9, 9, 9, 9, 9, 9, 9, 9, 9, 9, 9, 9, 9]
  const LEAK_FIRST: bytes := LEAK_UUID + [0, 0, 1, 0, 0, 7] + [1]
  const LEAK_REST: bytes := [0, 0, 0, 0]

  lemma LeakPiece()
    ensures UnpadPiece(LEAK_UUID, INITIAL, LEAK_FIRST) == (Unpadder(4, 0, 0, 1), [7])
  {
    hide Unpad;
    var u0, u1 := INITIAL.(command := 5), Unpadder(5, 0, 0, 0);
    var b := Block(COMMAND_CONTINUE, [7], []);
    assert EncodeBlock(b) == [0, 0, 1, 0, 0, 7];
    assert LEAK_FIRST[..UUID_LEN] == LEAK_UUID && LEAK_FIRST[UUID_LEN..] == EncodeBlock(b) + [1];
    UnpadBlock(u0, b);
    UnpadAppend(u0, EncodeBlock(b), [1]);
    UnpadSilent(u1, [1]);
    assert [1][1..] == [];
    UnpadNothing(Unpadder(4, 0, 0, 1));
    assert [7] + [] == [7];
  }

  /**
   * The case in which bytes are lost: filtering is over, and a read ends right behind the command byte of
   * the End block. The rest of the header comes out as content.
   */
  lemma CutHeaderLeaks()
    ensures var bs := [Block(COMMAND_CONTINUE, [7], []), Block(COMMAND_END, [], [])];
            && LEAK_FIRST + LEAK_REST == LEAK_UUID + EncodeBlocks(bs)
            && Contents(bs) == [7]
    ensures ReadRun(LEAK_UUID, START, [Read([LEAK_FIRST], false), Read([LEAK_REST], false)]) == [7, 0, 0, 0, 0]
  {
    hide UnpadPiece, Unpad, UnpadRun, EncodeBlocks, Contents, Flat;
    LeakBlocks();
    LeakPiece();
    var i0, i1 := Read([LEAK_FIRST], false), Read([LEAK_REST], false);
    var r1 := Reading(Unpadder(4, 0, 0, 1), false, false);
    FlatOne(LEAK_FIRST);
    FlatOne(LEAK_REST);
    OnePiece(LEAK_UUID, INITIAL, LEAK_FIRST);
    assert ReadStep(LEAK_UUID, START, i0) == (r1, [7]);
    assert ReadStep(LEAK_UUID, r1, i1) == (r1, LEAK_REST);
    assert [i0, i1][1..] == [i1] && [i1][1..] == [];
    assert ReadRun(LEAK_UUID, r1, [i1]) == LEAK_REST + ReadRun(LEAK_UUID, r1, []) == LEAK_REST;
  }

  /** An End block without content or padding, and plain bytes that begin like a padded part. */
  const FALSE_FIRST: bytes := LEAK_UUID + [1, 0, 0, 0, 0]
  const FALSE_REST: bytes := LEAK_UUID + [0, 0, 0, 0, 0]

  /**
   * The other case: the padded part is over, but a read that looks like another one goes to the decoder because
   * packets are still being filtered. Unfiltered, the same bytes come out as they are.
   */
  lemma FalseStartIsLost(filtering: bool)
    ensures var bs := [Block(COMMAND_END, [], [])];
            FALSE_FIRST + FALSE_REST == LEAK_UUID + EncodeBlocks(bs) + FALSE_REST && Contents(bs) == []
    ensures ReadRun(LEAK_UUID, START, [Read([FALSE_FIRST], true), Read([FALSE_REST], filtering)]) ==
              if filtering then [] else FALSE_REST
  {
    hide UnpadPiece, Unpad, UnpadRun, EncodeBlock, Flat;
    var b := Block(COMMAND_END, [], []);
    var u0 := INITIAL.(command := 5);
    var i0, i1 := Read([FALSE_FIRST], true), Read([FALSE_REST], filtering);
    assert [b][1..] == [];
    assert EncodeBlock(b) == [1, 0, 0, 0, 0] by {
      EmptyBlock(COMMAND_END);
    }
    FlatOne(FALSE_FIRST);
    FlatOne(FALSE_REST);
    OnePiece(LEAK_UUID, INITIAL, FALSE_FIRST);
    StartedBy(INITIAL, COMMAND_END);
    var u1 := Unpadder(-1, -1, -1, 1);
    var r1 := Reading(u1, false, false);
    assert ReadStep(LEAK_UUID, START, i0) == (r1, []);
    OnePiece(LEAK_UUID, u1, FALSE_REST);
    StartedBy(u1, COMMAND_CONTINUE);
    var (r2, out) := ReadStep(LEAK_UUID, r1, i1);
    assert out == if filtering then [] else FALSE_REST;
    assert [i0, i1][1..] == [i1] && [i1][1..] == [];
    assert ReadRun(LEAK_UUID, r1, [i1]) == out + ReadRun(LEAK_UUID, r2, []) == out;
    assert [] + out == out;
  }

  lemma EmptyBlock(command: byte)
    ensures EncodeBlock(Block(command, [], [])) == [command, 0, 0, 0, 0]
  {
  }

  /** An idle decoder on the identifier and an empty block. */
  lemma StartedBy(u: Unpadder, command: byte)
    requires Idle(u)
    ensures UnpadPiece(LEAK_UUID, u, LEAK_UUID + [command, 0, 0, 0, 0]) ==
              (Settle(Unpadder(0, 0, 0, command)), [])
  {
    hide Unpad, Settle;
    var p := LEAK_UUID + [command, 0, 0, 0, 0];
    EmptyBlock(command);
    UnpadBlock(u.(command := 5), Block(command, [], []));
    assert p[..UUID_LEN] == LEAK_UUID && p[UUID_LEN..] == [command, 0, 0, 0, 0];
  }

  lemma LeakBlocks()
    ensures var bs := [Block(COMMAND_CONTINUE, [7], []), Block(COMMAND_END, [], [])];
            && LEAK_FIRST + LEAK_REST == LEAK_UUID + EncodeBlocks(bs)
            && Contents(bs) == [7]
  {
    var b0, b1 := Block(COMMAND_CONTINUE, [7], []), Block(COMMAND_END, [], []);
    assert [b0, b1][1..] == [b1] && [b1][1..] == [];
    assert EncodeBlock(b0) == [0, 0, 1, 0, 0, 7] && EncodeBlock(b1) == [1, 0, 0, 0, 0];
    assert EncodeBlocks([b1]) == EncodeBlock(b1) && Contents([b1]) == [];
  }

  /** A reader leaves the two flags of the writer that works on the same half of the state. */
  predicate ReaderPartOnly(before: LinkState, after: LinkState) {
    after.isPadding == before.isPadding && after.writerDirectCopy == before.writerDirectCopy
  }

  /** The reader over the shared traffic state; an uplink reader works on the inbound half. */
  class VisionReader {
    const state: TrafficState
    const isUplink: bool

    constructor (state: TrafficState, isUplink: bool)
      ensures this.state == state && this.isUplink == isUplink
    {
      this.state := state;
      this.isUplink := isUplink;
    }

    function Link(): LinkState
      reads this, state
    {
      if isUplink then state.inbound else state.outbound
    }

    function View(): Reading
      reads this, state
    {
      Reading(Link().unpadder, Link().withinPaddingBuffers, Link().readerDirectCopy)
    }

    method SetReading(r: Reading)
      modifies state`inbound, state`outbound
      ensures View() == r
      ensures Link() == old(Link()).(unpadder := r.unpadder, withinPaddingBuffers := r.within,
                                     readerDirectCopy := r.direct)
      ensures if isUplink then state.outbound == old(state.outbound) else state.inbound == old(state.inbound)
    {
      var link := Link().(unpadder := r.unpadder, withinPaddingBuffers := r.within, readerDirectCopy := r.direct);
      if isUplink {
        state.inbound := link;
      } else {
        state.outbound := link;
      }
    }

    /** The decoder on one buffer: header bytes one at a time, content and padding in runs. */
    method XtlsUnpadding(buffer: bytes) returns (newbuffer: bytes)
      requires WellFormed(View().unpadder)
      modifies state`inbound, state`outbound
      ensures (View().unpadder, newbuffer) == UnpadPiece(state.userUUID, old(View().unpadder), buffer)
      ensures View() == old(View()).(unpadder := View().unpadder)
      ensures if isUplink then state.outbound == old(state.outbound) else state.inbound == old(state.inbound)
      ensures ReaderPartOnly(old(Link()), Link())
    {
      hide Unpad, HeaderByte, Feed;
      var u, b := View().unpadder, buffer;
      if Idle(u) {
        if Starts(state.userUUID, b) {
          b := b[UUID_LEN..];
          u := u.(command := 5);
        } else {
          IdlePassesThrough(u, b);
          return b;
        }
      }
      ghost var u0, b0 := u, b;
      newbuffer := [];
      EmptyPrefix(Unpad(u, b).1);
      while b != []
        invariant Active(u) && state.inbound == old(state.inbound) && state.outbound == old(state.outbound)
        invariant Unpad(u0, b0) == (Unpad(u, b).0, newbuffer + Unpad(u, b).1)
        decreases |b|
      {
        ghost var c, done := b, newbuffer;
        if u.command > 0 {
          UnpadHeaderByte(u, b);
          u := HeaderByte(u, b[0]);
          b := b[1..];
        } else if u.content > 0 {
          var len := if |b| < u.content then |b| else u.content;
          UnpadContent(u, b, len);
          newbuffer := newbuffer + b[..len];
          b := b[len..];
          u := u.(content := u.content - len);
          assert done + (c[..len] + Unpad(Settle(u), b).1) == newbuffer + Unpad(Settle(u), b).1;
        } else {
          var len := if |b| < u.padding then |b| else u.padding;
          UnpadPadding(u, b, len);
          b := b[len..];
          u := u.(padding := u.padding - len);
        }
        assert Unpad(u0, b0) == (Unpad(Settle(u), b).0, newbuffer + Unpad(Settle(u), b).1);
        if u.command <= 0 && u.content <= 0 && u.padding <= 0 {
          if u.current == 0 {
            u := u.(command := 5);
          } else {
            u := Unpadder(-1, -1, -1, u.current);
            IdlePassesThrough(u, b);
            newbuffer := newbuffer + b;
            SetReading(View().(unpadder := u));
            return;
          }
        }
      }
      UnpadNothing(u);
      assert newbuffer + [] == newbuffer;
      SetReading(View().(unpadder := u));
    }

    /** Decides whether the padded part is over. */
    method AfterUnpadding()
      requires !View().direct
      modifies state`inbound, state`outbound
      ensures View() == Decide(old(View()).unpadder, old(View()).within) && View().unpadder == old(View()).unpadder
      ensures if isUplink then state.outbound == old(state.outbound) else state.inbound == old(state.inbound)
      ensures ReaderPartOnly(old(Link()), Link())
    {
      var u := Link().unpadder;
      if u.content > 0 || u.padding > 0 || u.current == 0 {
        SetReading(View().(within := true));
      } else if u.current == COMMAND_END {
        SetReading(View().(within := false));
      } else if u.current == COMMAND_DIRECT {
        SetReading(View().(within := false, direct := true));
      }
    }

    /** One read. Raw bytes that a TLS connection still holds at the switch are not part of this model. */
    method ReadMultiBuffer(buffer: seq<bytes>, stale: (nat, nat) -> byte) returns (out: seq<bytes>)
      requires WellFormed(View().unpadder) && |state.userUUID| == UUID_LEN && state.FilterInvariant()
      modifies state
      ensures state.FilterInvariant() && state.numberOfPacketToFilter <= old(state.numberOfPacketToFilter)
      ensures WellFormed(View().unpadder)
      ensures (View(), Flat(out)) ==
              ReadStep(state.userUUID, old(View()), Read(buffer, old(state.numberOfPacketToFilter) > 0))
      ensures state.Filtering() ==
                if Flat(buffer) == [] || old(View()).direct || old(state.numberOfPacketToFilter) <= 0
                then old(state.Filtering())
                else FilterFrom(old(state.Filtering()), Whole(out), stale, 0)
      ensures if isUplink then state.outbound == old(state.outbound) else state.inbound == old(state.inbound)
      ensures ReaderPartOnly(old(Link()), Link())
    {
      hide Unpad, UnpadPiece, FilterFrom, AllowsXtls, Decide;
      if Flat(buffer) == [] || Link().readerDirectCopy
         || !(Link().withinPaddingBuffers || state.numberOfPacketToFilter > 0) {
        return buffer;
      }
      ghost var u0 := View().unpadder;
      var uuid := state.userUUID;
      out := [];
      for i := 0 to |buffer|
        invariant WellFormed(View().unpadder)
        invariant UnpadRun(uuid, u0, buffer[..i]) == (View().unpadder, Flat(out))
        invariant View() == old(View()).(unpadder := View().unpadder)
        invariant if isUplink then state.outbound == old(state.outbound) else state.inbound == old(state.inbound)
        invariant ReaderPartOnly(old(Link()), Link())
        invariant state.Filtering() == old(state.Filtering()) && state.FilterInvariant()
      {
        assert buffer[..i + 1] == buffer[..i] + [buffer[i]];
        RunConcat(uuid, u0, buffer[..i], [buffer[i]]);
        OnePiece(uuid, View().unpadder, buffer[i]);
        RunWellFormed(uuid, View().unpadder, [buffer[i]]);
        var newbuffer := XtlsUnpadding(buffer[i]);
        if |newbuffer| > 0 {
          FlatSnoc(out, newbuffer);
          out := out + [newbuffer];
        } else {
          assert Flat(out) + newbuffer == Flat(out);
        }
      }
      assert buffer[..|buffer|] == buffer;
      AfterUnpadding();
      if state.numberOfPacketToFilter > 0 {
        state.XtlsFilterTls(Whole(out), stale);
      }
    }
  }

  /** Buffers none of which is nil. */
  function Whole(mb: seq<bytes>): seq<Option<bytes>> {
    seq(|mb|, i requires 0 <= i < |mb| => Some(mb[i]))
  }

  lemma UnpadHeaderByte(u: Unpadder, b: bytes)
    requires u.command > 0 && b != []
    ensures Unpad(u, b) == Unpad(Settle(HeaderByte(u, b[0])), b[1..])
    ensures HeaderByte(u, b[0]).command == u.command - 1
  {
    UnpadSilent(u, b);
  }

  lemma OnePiece(uuid: bytes, u: Unpadder, p: bytes)
    ensures UnpadRun(uuid, u, [p]) == UnpadPiece(uuid, u, p)
  {
    assert [p][1..] == [];
    var d := UnpadPiece(uuid, u, p).1;
    assert d + [] == d;
  }
}
