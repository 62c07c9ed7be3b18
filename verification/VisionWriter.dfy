/** The Vision writer: pads what it writes, ends the padded part once, and may then go on in raw copy. */
module VisionWriters {
  import opened ByteSeq
  import opened VisionPadding
  import opened VisionDecoder
  import opened TlsRecords
  import opened TrafficStates

  /** Content of the largest buffer that still leaves room for the identifier and the header. */
  const MAX_CONTENT: int := BUF_SIZE - 21

  predicate StartsApplicationData(b: bytes) {
    |b| >= 6 && b[..3] == APPLICATION_DATA_START
  }

  /** A TLS record with application data (section 5.1 of RFC 8446). */
  lemma DataStarts(b: bytes)
    ensures StartsApplicationData(b) <==> |b| >= 6 && b[0] == 23 && b[1] == 3 && b[2] == 3
  {
    if |b| >= 6 {
      assert b[..3] == [b[0], b[1], b[2]];
    }
  }

  /** `bytes.LastIndex`: the last position at which the pattern occurs, or -1. */
  function LastIndex(b: bytes, pattern: bytes, upTo: int): (r: int)
    requires -1 <= upTo <= |b|
    ensures -1 <= r <= upTo
    ensures r >= 0 ==> pattern <= b[r..]
    ensures forall k :: r < k <= upTo ==> !(pattern <= b[k..])
    decreases upTo + 1
  {
    if upTo < 0 then -1
    else if pattern <= b[upTo..] then upTo
    else LastIndex(b, pattern, upTo - 1)
  }

  /** Where a buffer that is too full is cut: at its last TLS record, else in the middle. */
  function CutPoint(b: bytes): int {
    var index := LastIndex(b, APPLICATION_DATA_START, |b|);
    if index < 21 || index > MAX_CONTENT then BUF_SIZE / 2 else index
  }

  function Cut(b: bytes): seq<bytes>
    requires |b| <= BUF_SIZE
  {
    if |b| >= MAX_CONTENT then [b[..CutPoint(b)], b[CutPoint(b)..]] else [b]
  }

  /** The first bytes of an application data record. */
  predicate RecordAt(b: bytes, i: nat) {
    i + 3 <= |b| && b[i] == 0x17 && b[i + 1] == 0x03 && b[i + 2] == 0x03
  }

  /** The last application data record of a buffer begins at `i`. */
  ghost predicate LastRecordAt(b: bytes, i: nat) {
    RecordAt(b, i) && forall k: nat :: i < k ==> !RecordAt(b, k)
  }

  /** A buffer without room for the header is cut in front of its last record, if that leaves room, or in halves. */
  lemma CutsAtLastRecord(b: bytes)
    requires |b| <= BUF_SIZE
    ensures |b| < BUF_SIZE - 21 ==> Cut(b) == [b]
    ensures forall i: nat :: |b| >= BUF_SIZE - 21 && LastRecordAt(b, i) && 21 <= i <= BUF_SIZE - 21 ==>
              Cut(b) == [b[..i], b[i..]]
    ensures |b| >= BUF_SIZE - 21 && (forall i: nat :: LastRecordAt(b, i) ==> i < 21 || i > BUF_SIZE - 21) ==>
              Cut(b) == [b[..4096], b[4096..]]
  {
    hide LastIndex;
    var index := LastIndex(b, APPLICATION_DATA_START, |b|);
    forall k: nat | k <= |b|
      ensures APPLICATION_DATA_START <= b[k..] <==> RecordAt(b, k)
    {
      StartsThere(b, k);
    }
    if index >= 0 {
      assert LastRecordAt(b, index);
      forall i: nat | LastRecordAt(b, i)
        ensures i == index
      {
        assert RecordAt(b, i) && RecordAt(b, index);
      }
    }
  }

  lemma StartsThere(b: bytes, k: nat)
    requires k <= |b|
    ensures APPLICATION_DATA_START <= b[k..] <==> RecordAt(b, k)
  {
    if k + 3 <= |b| {
      assert b[k..][0] == b[k] && b[k..][1] == b[k + 1] && b[k..][2] == b[k + 2];
    }
  }

  function Reshaped(mb: seq<bytes>): seq<bytes>
    requires forall i :: 0 <= i < |mb| ==> |mb[i]| <= BUF_SIZE
  {
    if mb == [] then [] else Reshaped(mb[..|mb| - 1]) + Cut(mb[|mb| - 1])
  }

  /** Reshaping keeps the bytes and leaves only buffers that can be padded. */
  lemma {:induction false} ReshapedFits(mb: seq<bytes>)
    requires forall i :: 0 <= i < |mb| ==> |mb[i]| <= BUF_SIZE
    ensures Flat(Reshaped(mb)) == Flat(mb)
    ensures forall i :: 0 <= i < |Reshaped(mb)| ==> |Reshaped(mb)[i]| <= MAX_CONTENT
    ensures |Reshaped(mb)| >= |mb|
  {
    if mb != [] {
      var front, b := mb[..|mb| - 1], mb[|mb| - 1];
      ReshapedFits(front);
      assert mb == front + [b];
      FlatSnoc(front, b);
      FlatConcat(Reshaped(front), Cut(b));
      if |b| >= MAX_CONTENT {
        FlatConcat([b[..CutPoint(b)]], [b[CutPoint(b)..]]);
        FlatOne(b[..CutPoint(b)]);
        FlatOne(b[CutPoint(b)..]);
        assert [b[..CutPoint(b)]] + [b[CutPoint(b)..]] == Cut(b);
        assert b[..CutPoint(b)] + b[CutPoint(b)..] == b;
      } else {
        FlatOne(b);
      }
    }
  }

  lemma {:induction false} ReshapedSmall(mb: seq<bytes>)
    requires forall i :: 0 <= i < |mb| ==> |mb[i]| < MAX_CONTENT
    ensures Reshaped(mb) == mb
  {
    if mb != [] {
      ReshapedSmall(mb[..|mb| - 1]);
      assert mb == mb[..|mb| - 1] + [mb[|mb| - 1]];
    }
  }

  method ReshapeMultiBuffer(buffer: seq<bytes>) returns (mb: seq<bytes>)
    requires forall i :: 0 <= i < |buffer| ==> |buffer[i]| <= BUF_SIZE
    ensures mb == Reshaped(buffer)
  {
    var needReshape := 0;
    for i := 0 to |buffer|
      invariant needReshape >= 0
      invariant needReshape == 0 ==> forall k :: 0 <= k < i ==> |buffer[k]| < MAX_CONTENT
    {
      if |buffer[i]| >= MAX_CONTENT {
        needReshape := needReshape + 1;
      }
    }
    if needReshape == 0 {
      ReshapedSmall(buffer);
      return buffer;
    }
    mb := [];
    for i := 0 to |buffer|
      invariant mb == Reshaped(buffer[..i])
    {
      assert buffer[..i + 1][..i] == buffer[..i];
      if |buffer[i]| >= MAX_CONTENT {
        var index := LastIndex(buffer[i], APPLICATION_DATA_START, |buffer[i]|);
        if index < 21 || index > MAX_CONTENT {
          index := BUF_SIZE / 2;
        }
        mb := mb + [buffer[i][..index], buffer[i][index..]];
      } else {
        mb := mb + [buffer[i]];
      }
    }
    assert buffer[..|buffer|] == buffer;
  }

  lemma {:induction false} EncodeSnoc(bs: seq<Block>, b: Block)
    ensures EncodeBlocks(bs + [b]) == EncodeBlocks(bs) + EncodeBlock(b)
    ensures Contents(bs + [b]) == Contents(bs) + b.content
  {
    hide EncodeBlock;
    if bs == [] {
      assert [b][1..] == [];
      assert bs + [b] == [b];
      assert EncodeBlocks([b]) == EncodeBlock(b) + [];
      assert Contents([b]) == b.content + [];
    } else {
      assert (bs + [b])[1..] == bs[1..] + [b];
      EncodeSnoc(bs[1..], b);
      assert EncodeBlocks(bs + [b]) == EncodeBlock(bs[0]) + (EncodeBlocks(bs[1..]) + EncodeBlock(b));
      assert Contents(bs + [b]) == bs[0].content + (Contents(bs[1..]) + b.content);
    }
  }

  /** The padded part on the wire: the identifier once, then the blocks. */
  function Stream(uuid: bytes, bs: seq<Block>): bytes {
    if bs == [] then [] else uuid + EncodeBlocks(bs)
  }

  lemma StreamSnoc(uuid: bytes, bs: seq<Block>, b: Block)
    ensures Stream(uuid, bs + [b]) == Stream(uuid, bs) + (if bs == [] then uuid else []) + EncodeBlock(b)
  {
    hide EncodeBlock;
    EncodeSnoc(bs, b);
  }

  function Present(mb: seq<Option<bytes>>): seq<bytes> {
    if mb == [] then []
    else (if mb[0].Some? then [mb[0].value] else []) + Present(mb[1..])
  }

  lemma {:induction false} PresentAll(mb: seq<Option<bytes>>)
    requires forall i :: 0 <= i < |mb| ==> mb[i].Some?
    ensures |Present(mb)| == |mb|
    ensures forall i :: 0 <= i < |mb| ==> Present(mb)[i] == mb[i].value
  {
    if mb != [] {
      PresentAll(mb[1..]);
    }
  }

  predicate PresentFits(mb: seq<Option<bytes>>) {
    forall i :: 0 <= i < |Present(mb)| ==> |Present(mb)[i]| <= BUF_SIZE
  }

  lemma PresentSizes(mb: seq<Option<bytes>>)
    requires mb == [None] || forall i :: 0 <= i < |mb| ==> mb[i].Some? && |mb[i].value| <= BUF_SIZE
    ensures mb == [None] ==> Present(mb) == [] && Flat(Present(mb)) == []
    ensures PresentFits(mb) && forall i :: 0 <= i < |Present(mb)| ==> |Present(mb)[i]| <= BUF_SIZE
  {
    if mb == [None] {
      assert mb[1..] == [];
      assert Present(mb) == Present(mb[1..]) == [];
    } else {
      PresentAll(mb);
    }
  }

  /** Appending either grows the padded part and what follows it, or what follows it alone. */
  lemma Accounted(before: bytes, after: bytes, plain: bytes, tail: bytes, added: bytes)
    requires (plain == [] && after + tail == before + added) || (after == before && tail == added)
    ensures after + (plain + tail) == (before + plain) + added
  {
    if plain == [] {
      assert plain + tail == tail && before + plain == before;
    }
  }

  lemma NothingRaw(b: bytes, rawWire: seq<bytes>)
    requires rawWire == []
    ensures b + Flat(rawWire) == b
  {
  }

  /** The buffers put out carry the blocks between `before` and `after`, and those carry what was taken. */
  ghost predicate Booked(uuid: bytes, before: seq<Block>, after: seq<Block>, out: seq<bytes>, taken: seq<bytes>) {
    && Stream(uuid, after) == Stream(uuid, before) + Flat(out)
    && Contents(after) == Contents(before) + Flat(taken)
    && forall k :: 0 <= k < |out| ==> |out[k]| <= BUF_SIZE
  }

  lemma NothingBooked(uuid: bytes, before: seq<Block>)
    ensures Booked(uuid, before, before, [], [])
  {
  }

  lemma BookedMeans(uuid: bytes, before: seq<Block>, after: seq<Block>, out: seq<bytes>, taken: seq<bytes>)
    requires Booked(uuid, before, after, out, taken)
    ensures Stream(uuid, after) + [] == Stream(uuid, before) + Flat(out)
    ensures Contents(after) + [] == Contents(before) + Flat(taken)
    ensures forall k :: 0 <= k < |out| ==> |out[k]| <= BUF_SIZE
  {
  }

  lemma BookOne(uuid: bytes, before: seq<Block>, now: seq<Block>, after: seq<Block>, out: seq<bytes>, taken: seq<bytes>,
                padded: bytes, b: bytes)
    requires Booked(uuid, before, now, out, taken) && |padded| <= BUF_SIZE
    requires Stream(uuid, after) == Stream(uuid, now) + padded && Contents(after) == Contents(now) + b
    ensures Booked(uuid, before, after, out + [padded], taken + [b])
  {
    hide Stream, Contents, Flat;
    FlatSnoc(out, padded);
    FlatSnoc(taken, b);
  }

  /** The last block may be followed by buffers that are not padded. */
  lemma BookRest(uuid: bytes, before: seq<Block>, now: seq<Block>, after: seq<Block>, out: seq<bytes>,
                 taken: seq<bytes>, rest: seq<bytes>, b: bytes, plain: seq<bytes>)
    requires Booked(uuid, before, now, out, taken) && forall i :: 0 <= i < |rest| ==> |rest[i]| <= BUF_SIZE
    requires Stream(uuid, after) + Flat(plain) == Stream(uuid, now) + Flat(rest) && Contents(after) == Contents(now) + b
    ensures Stream(uuid, after) + Flat(plain) == Stream(uuid, before) + Flat(out + rest)
    ensures Contents(after) + Flat(plain) == Contents(before) + Flat(taken + [b] + plain)
    ensures forall i :: 0 <= i < |out + rest| ==> |(out + rest)[i]| <= BUF_SIZE
  {
    hide Stream, Contents, Flat;
    FlatConcat(out, rest);
    FlatSnoc(taken, b);
    FlatConcat(taken + [b], plain);
    var s, c := Stream(uuid, before), Contents(before);
    assert Stream(uuid, now) + Flat(rest) == s + (Flat(out) + Flat(rest));
    assert Contents(now) + b + Flat(plain) == c + (Flat(taken) + b + Flat(plain));
    Within(out, rest);
  }

  lemma Within(a: seq<bytes>, b: seq<bytes>)
    requires forall i :: 0 <= i < |a| ==> |a[i]| <= BUF_SIZE
    requires forall i :: 0 <= i < |b| ==> |b[i]| <= BUF_SIZE
    ensures forall i :: 0 <= i < |a + b| ==> |(a + b)[i]| <= BUF_SIZE
  {
  }

  /** What a padding pass has reached: the blocks so far and the two flags it steers. */
  ghost predicate PassInvariant(bs: seq<Block>, isPadding: bool, switching: bool, enableXtls: bool, more: bool) {
    && Encodable(bs) && Chain(bs)
    && (isPadding ==> !Terminated(bs) && !switching)
    && (!isPadding && more ==> !Terminated(bs) && switching == enableXtls)
    && (!isPadding && !more ==>
          Terminated(bs) && bs[|bs| - 1].command == (if switching then COMMAND_DIRECT else COMMAND_END))
  }

  /** Buffer `i` begins application data that the write holds in whole records. */
  predicate IsWholeData(mb: seq<bytes>, i: int, isTLS: bool, isComplete: bool)
    requires 0 <= i < |mb|
  {
    isTLS && isComplete && StartsApplicationData(mb[i])
  }

  /** Long padding is asked for inside TLS: for whole application data, and for all that comes before it. */
  ghost predicate AsksLong(mb: seq<bytes>, i: nat, isTLS: bool, isComplete: bool)
    requires i < |mb|
  {
    isTLS
    && (IsWholeData(mb, i, isTLS, isComplete) || forall k :: 0 <= k < i ==> !IsWholeData(mb, k, isTLS, isComplete))
  }

  /** One block for each of the first buffers, padded as it should be. */
  ghost predicate PadsBuffers(new': seq<Block>, mb: seq<bytes>, isTLS: bool, isComplete: bool, seed: Seed) {
    && |new'| <= |mb|
    && forall i :: 0 <= i < |new'| ==>
         new'[i].content == mb[i] && IsPadded(new'[i], AsksLong(mb, i, isTLS, isComplete), seed)
  }

  /** How many buffers are padded: all, or up to the first at which padding ends early. */
  ghost predicate PadsUpTo(n: nat, mb: seq<bytes>, early: bool, isTLS: bool, isComplete: bool)
    requires n <= |mb|
  {
    && (forall i :: 0 <= i < n - 1 ==> !(early && !IsWholeData(mb, i, isTLS, isComplete)))
    && (n < |mb| ==> n > 0 && early && !IsWholeData(mb, n - 1, isTLS, isComplete))
  }

  /** The first `i` buffers have been padded, none early, and `longPadding` is asked for what is no application data. */
  ghost predicate PadsSoFar(new': seq<Block>, mb: seq<bytes>, i: nat, longPadding: bool, early: bool, isTLS: bool,
                            isComplete: bool, seed: Seed) {
    && PadsBuffers(new', mb, isTLS, isComplete, seed) && |new'| == i <= |mb|
    && (forall k :: 0 <= k < i ==> !(early && !IsWholeData(mb, k, isTLS, isComplete)))
    && (longPadding <==> isTLS && forall k :: 0 <= k < i ==> !IsWholeData(mb, k, isTLS, isComplete))
  }

  lemma NothingPadded(mb: seq<bytes>, early: bool, isTLS: bool, isComplete: bool, seed: Seed)
    ensures PadsSoFar([], mb, 0, isTLS, early, isTLS, isComplete, seed)
  {
  }

  lemma PadsOneMore(new': seq<Block>, mb: seq<bytes>, i: nat, longPadding: bool, early: bool, isTLS: bool,
                    isComplete: bool, seed: Seed, b: Block)
    requires PadsSoFar(new', mb, i, longPadding, early, isTLS, isComplete, seed) && i < |mb| && b.content == mb[i]
    requires IsPadded(b, longPadding || IsWholeData(mb, i, isTLS, isComplete), seed)
    ensures PadsBuffers(new' + [b], mb, isTLS, isComplete, seed)
    ensures IsWholeData(mb, i, isTLS, isComplete) ==>
              PadsSoFar(new' + [b], mb, i + 1, false, early, isTLS, isComplete, seed)
    ensures !IsWholeData(mb, i, isTLS, isComplete) && !early ==>
              PadsSoFar(new' + [b], mb, i + 1, longPadding, early, isTLS, isComplete, seed)
    ensures !IsWholeData(mb, i, isTLS, isComplete) && early ==>
              PadsUpTo(i + 1, mb, early, isTLS, isComplete)
  {
    hide IsPadded, StartsApplicationData;
    forall k | 0 <= k <= i
      ensures (new' + [b])[k].content == mb[k] && IsPadded((new' + [b])[k], AsksLong(mb, k, isTLS, isComplete), seed)
    {
      if k < i {
        assert (new' + [b])[k] == new'[k];
      } else {
        assert AsksLong(mb, i, isTLS, isComplete) <==> longPadding || IsWholeData(mb, i, isTLS, isComplete);
      }
    }
  }

  lemma AllPadded(new': seq<Block>, mb: seq<bytes>, longPadding: bool, early: bool, isTLS: bool, isComplete: bool,
                  seed: Seed)
    requires PadsSoFar(new', mb, |mb|, longPadding, early, isTLS, isComplete, seed)
    ensures PadsBuffers(new', mb, isTLS, isComplete, seed) && PadsUpTo(|new'|, mb, early, isTLS, isComplete)
  {
    hide IsPadded, StartsApplicationData;
  }

  /** What a write has put out as blocks: one with padding only if asked for, else one a buffer. */
  ghost predicate WritesBlocks(new': seq<Block>, mb: seq<bytes>, headerOnly: bool, early: bool, isTLS: bool, seed: Seed)
    requires forall i :: 0 <= i < |mb| ==> |mb[i]| <= BUF_SIZE
  {
    if headerOnly then
      |new'| == 1 && new'[0].command == COMMAND_CONTINUE && new'[0].content == [] && IsPadded(new'[0], true, seed)
    else
      var reshaped, isComplete := Reshaped(mb), IsRecordSequence(Flat(mb));
      PadsBuffers(new', reshaped, isTLS, isComplete, seed) && PadsUpTo(|new'|, reshaped, early, isTLS, isComplete)
  }

  /** A writer changes its own two flags of its half of the state; the rest belongs to the reader. */
  predicate OwnFlagsOnly(before: LinkState, after: LinkState) {
    after == before.(isPadding := after.isPadding, writerDirectCopy := after.writerDirectCopy)
  }

  lemma NothingPassed(bs: seq<Block>, enableXtls: bool)
    requires PassInvariant(bs, true, false, enableXtls, true)
    ensures PassInvariant(bs, true, false, enableXtls, false)
  {
  }

  class VisionWriter {
    const state: TrafficState
    const isUplink: bool
    const testseed: Seed
    var writeOnceUserUUID: Option<bytes>
    /** The writer has been replaced by the raw connection. */
    var raw: bool
    /** Buffers handed to the original writer, and to the raw connection. */
    var wire: seq<bytes>
    var rawWire: seq<bytes>
    ghost var blocks: seq<Block>
    ghost var plain: bytes

    function Link(): LinkState
      reads this, state
    {
      if isUplink then state.outbound else state.inbound
    }

    method SetLink(isPadding: bool, writerDirectCopy: bool)
      modifies state`inbound, state`outbound
      ensures Link() == old(Link()).(isPadding := isPadding, writerDirectCopy := writerDirectCopy)
      ensures if isUplink then state.inbound == old(state.inbound) else state.outbound == old(state.outbound)
      ensures state.FilterInvariant() == old(state.FilterInvariant())
    {
      if isUplink {
        state.outbound := state.outbound.(isPadding := isPadding, writerDirectCopy := writerDirectCopy);
      } else {
        state.inbound := state.inbound.(isPadding := isPadding, writerDirectCopy := writerDirectCopy);
      }
    }

    /**
     * Every run: Continue blocks, then at most one End or Direct block, then plain bytes. The terminator is
     * Direct exactly when writing goes on (or will, with the next write) over the raw connection.
     */
    ghost predicate Valid()
      reads this, state
    {
      && Shape()
      && Flat(wire) == Stream(state.userUUID, blocks) + plain
      && (forall i :: 0 <= i < |wire| ==> |wire[i]| <= BUF_SIZE)
    }

    ghost predicate Shape()
      reads this, state
    {
      && |state.userUUID| == UUID_LEN && SafeSeed(testseed) && state.FilterInvariant()
      && writeOnceUserUUID == (if blocks == [] then Some(state.userUUID) else None)
      && Encodable(blocks) && Chain(blocks)
      && (Terminated(blocks) ==> blocks[|blocks| - 1].command in {COMMAND_END, COMMAND_DIRECT})
      && (Link().isPadding <==> !Terminated(blocks))
      && (Link().writerDirectCopy || raw <==> Terminated(blocks) && blocks[|blocks| - 1].command == COMMAND_DIRECT)
      && !(Link().writerDirectCopy && raw)
      && (plain != [] ==> Terminated(blocks) && blocks[|blocks| - 1].command == COMMAND_END)
      && (rawWire != [] ==> raw)
    }

    /** The bytes that reach the peer's application. */
    ghost function Written(): bytes
      reads this
    {
      Contents(blocks) + plain + Flat(rawWire)
    }

    constructor (state: TrafficState, isUplink: bool, testseed: Option<Seed>)
      requires |state.userUUID| == UUID_LEN && state.FilterInvariant()
      requires state.inbound == NEW_LINK && state.outbound == NEW_LINK
      requires testseed.Some? ==> SafeSeed(testseed.value)
      ensures this.state == state && this.isUplink == isUplink
      ensures Valid() && Written() == []
      ensures this.testseed == if testseed.Some? then testseed.value else Seed(900, 500, 900, 256)
    {
      this.state := state;
      this.isUplink := isUplink;
      this.testseed := if testseed.Some? then testseed.value else DEFAULT_SEED;
      writeOnceUserUUID := Some(state.userUUID);
      raw := false;
      wire, rawWire, blocks, plain := [], [], [], [];
    }

    /** Pads one buffer and records the block; the identifier is written at most once. */
    method Pad(content: bytes, command: byte, longPadding: bool) returns (padded: bytes, ghost block: Block)
      requires SafeSeed(testseed) && |content| <= MAX_CONTENT
      requires writeOnceUserUUID.Some? ==> |writeOnceUserUUID.value| == UUID_LEN
      modifies this`writeOnceUserUUID
      ensures writeOnceUserUUID == None
      ensures block.command == command && block.content == content && Encodable([block])
      ensures IsPadded(block, longPadding, testseed)
      ensures padded == (if old(writeOnceUserUUID).Some? then old(writeOnceUserUUID).value else []) + EncodeBlock(block)
      ensures |padded| <= BUF_SIZE
    {
      SafeSeedSuffices(testseed, |content|, 0, longPadding);
      var draw: nat :| draw < DrawBound(|content|, longPadding, testseed);
      PaddedFormHidesLength(content, command, writeOnceUserUUID, draw, longPadding, testseed);
      var r := XtlsPadding(content, command, writeOnceUserUUID, draw, longPadding, testseed);
      padded, block := r.value.1, r.value.0;
      writeOnceUserUUID := None;
    }

    /**
     * When the padded part ends: with whole application data records inside TLS, or, for a peer not known to
     * speak TLS 1.2 or above, one packet before filtering stops.
     */
    ghost predicate Ends(mb: seq<bytes>, isComplete: bool)
      reads state
    {
      || (mb != [] && !state.isTLS12orAbove && state.numberOfPacketToFilter <= 1)
      || (state.isTLS && isComplete && exists i :: 0 <= i < |mb| && StartsApplicationData(mb[i]))
    }

    /** The peer is not known to speak TLS 1.2 or above, and this is the last packet to be filtered. */
    ghost predicate EndsEarly()
      reads state
    {
      !state.isTLS12orAbove && state.numberOfPacketToFilter <= 1
    }

    /** Records one padded buffer behind the blocks so far. */
    method PadNext(content: bytes, command: byte, longPadding: bool) returns (padded: bytes)
      requires SafeSeed(testseed) && |state.userUUID| == UUID_LEN && |content| <= MAX_CONTENT
      requires writeOnceUserUUID == (if blocks == [] then Some(state.userUUID) else None)
      requires Encodable(blocks) && Chain(blocks) && !Terminated(blocks)
      modifies this`writeOnceUserUUID, this`blocks
      ensures writeOnceUserUUID == (if blocks == [] then Some(state.userUUID) else None)
      ensures Encodable(blocks) && Chain(blocks)
      ensures Terminated(blocks) <==> command != COMMAND_CONTINUE
      ensures blocks != [] && blocks[|blocks| - 1].command == command
      ensures Stream(state.userUUID, blocks) == Stream(state.userUUID, old(blocks)) + padded
      ensures Contents(blocks) == Contents(old(blocks)) + content
      ensures |padded| <= BUF_SIZE
      ensures |blocks| == |old(blocks)| + 1 && old(blocks) <= blocks && blocks[|old(blocks)|].content == content
      ensures IsPadded(blocks[|old(blocks)|], longPadding, testseed)
    {
      hide Stream, Contents, EncodeBlock, SafeSeed, IsPadded;
      ghost var block;
      padded, block := Pad(content, command, longPadding);
      EncodeSnoc(blocks, block);
      StreamSnoc(state.userUUID, blocks, block);
      blocks := blocks + [block];
      assert Encodable([block]) ==> [block][0].content == block.content && |block.padding| < 0x1_0000;
    }

    /** The early end: an End block, and the buffers behind it stay as they are. */
    method PadEarly(b: bytes, after: seq<bytes>, longPadding: bool, ghost isPadding: bool, ghost switching: bool)
      returns (out: seq<bytes>)
      requires SafeSeed(testseed) && |state.userUUID| == UUID_LEN && |b| <= MAX_CONTENT
      requires writeOnceUserUUID == (if blocks == [] then Some(state.userUUID) else None)
      requires PassInvariant(blocks, isPadding, switching, state.enableXtls, true) && !state.enableXtls
      requires forall i :: 0 <= i < |after| ==> |after[i]| <= MAX_CONTENT
      modifies this`writeOnceUserUUID, this`blocks
      ensures writeOnceUserUUID == (if blocks == [] then Some(state.userUUID) else None)
      ensures PassInvariant(blocks, false, false, state.enableXtls, false) && !switching
      ensures Stream(state.userUUID, blocks) + Flat(after) == Stream(state.userUUID, old(blocks)) + Flat(out)
      ensures Contents(blocks) == Contents(old(blocks)) + b
      ensures |blocks| == |old(blocks)| + 1 && old(blocks) <= blocks && blocks[|old(blocks)|].content == b
      ensures IsPadded(blocks[|old(blocks)|], longPadding, testseed)
      ensures forall i :: 0 <= i < |out| ==> |out[i]| <= BUF_SIZE
    {
      hide Stream, Contents, Flat, SafeSeed;
      var early := PadNext(b, COMMAND_END, longPadding);
      out := [early] + after;
      FlatOne(early);
      FlatConcat([early], after);
    }

    lemma EndsNot(isComplete: bool)
      ensures !Ends([], isComplete)
    {
    }

    lemma EndsNext(mb: seq<bytes>, i: nat, isComplete: bool)
      requires i < |mb|
      ensures EndsEarly() <==> !state.isTLS12orAbove && state.numberOfPacketToFilter <= 1
      ensures IsWholeData(mb, i, state.isTLS, isComplete) <==> state.isTLS && isComplete && StartsApplicationData(mb[i])
      ensures Ends(mb[..i + 1], isComplete) <==>
                Ends(mb[..i], isComplete) || EndsEarly() || IsWholeData(mb, i, state.isTLS, isComplete)
      ensures Ends(mb[..i + 1], isComplete) ==> Ends(mb, isComplete)
    {
      assert mb[..i + 1] == mb[..i] + [mb[i]];
      forall k | 0 <= k < |mb[..i + 1]|
        ensures mb[..i + 1][k] == mb[k]
      {
      }
    }

    /** Buffer `i` of a pass in which padding does not end early. */
    method PadOne(mb: seq<bytes>, i: nat, isComplete: bool, isPadding: bool, switching: bool, longPadding: bool)
      returns (padded: bytes, isPadding': bool, switching': bool, longPadding': bool)
      requires i < |mb| && |mb[i]| <= MAX_CONTENT && SafeSeed(testseed) && |state.userUUID| == UUID_LEN
      requires writeOnceUserUUID == (if blocks == [] then Some(state.userUUID) else None)
      requires PassInvariant(blocks, isPadding, switching, state.enableXtls, true)
      modifies this`writeOnceUserUUID, this`blocks
      ensures writeOnceUserUUID == (if blocks == [] then Some(state.userUUID) else None)
      ensures PassInvariant(blocks, isPadding', switching', state.enableXtls, i + 1 < |mb|)
      ensures |blocks| == |old(blocks)| + 1 && old(blocks) <= blocks && blocks[|old(blocks)|].content == mb[i]
      ensures IsPadded(blocks[|old(blocks)|],
                       longPadding || IsWholeData(mb, i, state.isTLS, isComplete), testseed)
      ensures Stream(state.userUUID, blocks) == Stream(state.userUUID, old(blocks)) + padded
      ensures Contents(blocks) == Contents(old(blocks)) + mb[i]
      ensures |padded| <= BUF_SIZE
      ensures isPadding' <==> isPadding && !IsWholeData(mb, i, state.isTLS, isComplete)
      ensures longPadding' <==> longPadding && !IsWholeData(mb, i, state.isTLS, isComplete)
      ensures switching' <==> switching || (IsWholeData(mb, i, state.isTLS, isComplete) && state.enableXtls)
    {
      hide IsPadded, Stream, Contents, SafeSeed, StartsApplicationData;
      var command, long := COMMAND_CONTINUE, longPadding;
      isPadding', switching', longPadding' := isPadding, switching, longPadding;
      if state.isTLS && StartsApplicationData(mb[i]) && isComplete {
        if state.enableXtls {
          switching' := true;
        }
        if i == |mb| - 1 {
          command := if state.enableXtls then COMMAND_DIRECT else COMMAND_END;
        }
        long, isPadding', longPadding' := true, false, false;
      } else if i == |mb| - 1 && !isPadding {
        command := if state.enableXtls then COMMAND_DIRECT else COMMAND_END;
      }
      padded := PadNext(mb[i], command, long);
    }

    /** The padding pass over one reshaped write. `tail` is what follows an early End block unpadded. */
    method PadBuffers(mb: seq<bytes>, isComplete: bool)
      returns (out: seq<bytes>, isPadding: bool, switching: bool, ghost tail: bytes)
      requires SafeSeed(testseed) && |state.userUUID| == UUID_LEN && state.FilterInvariant()
      requires writeOnceUserUUID == (if blocks == [] then Some(state.userUUID) else None)
      requires PassInvariant(blocks, true, false, state.enableXtls, true)
      requires forall i :: 0 <= i < |mb| ==> |mb[i]| <= MAX_CONTENT
      modifies this`writeOnceUserUUID, this`blocks
      ensures writeOnceUserUUID == (if blocks == [] then Some(state.userUUID) else None)
      ensures PassInvariant(blocks, isPadding, switching, state.enableXtls, false)
      ensures Stream(state.userUUID, blocks) + tail == Stream(state.userUUID, old(blocks)) + Flat(out)
      ensures Contents(blocks) + tail == Contents(old(blocks)) + Flat(mb)
      ensures forall i :: 0 <= i < |out| ==> |out[i]| <= BUF_SIZE
      ensures tail != [] ==> !isPadding && !switching
      ensures old(blocks) <= blocks
      ensures !isPadding <==> Ends(mb, isComplete)
      ensures switching <==> !isPadding && state.enableXtls
      ensures PadsBuffers(blocks[|old(blocks)|..], mb, state.isTLS, isComplete, testseed)
      ensures PadsUpTo(|blocks| - |old(blocks)|, mb, EndsEarly(), state.isTLS, isComplete)
    {
      hide IsPadded, Stream, Contents, Flat, SafeSeed, Encodable, Chain, StartsApplicationData, PadsSoFar, PadsBuffers,
          PadsUpTo, Booked, PassInvariant, IsWholeData, VisionWriter.Ends, VisionWriter.EndsEarly;
      EndsNot(isComplete);
      out, tail := [], [];
      ghost var new': seq<Block> := [];
      NothingPadded(mb, EndsEarly(), state.isTLS, isComplete, testseed);
      isPadding, switching := true, false;
      var longPadding := state.isTLS;
      var i := 0;
      FlatNothing();
      NothingBooked(state.userUUID, blocks);
      NothingPassed(blocks, state.enableXtls);
      while i < |mb|
        invariant 0 <= i <= |mb|
        invariant writeOnceUserUUID == (if blocks == [] then Some(state.userUUID) else None)
        invariant PassInvariant(blocks, isPadding, switching, state.enableXtls, i < |mb|)
        invariant Booked(state.userUUID, old(blocks), blocks, out, mb[..i])
        invariant !isPadding <==> Ends(mb[..i], isComplete)
        invariant switching <==> !isPadding && state.enableXtls
        invariant blocks == old(blocks) + new' && |new'| == i
        invariant PadsSoFar(new', mb, i, longPadding, EndsEarly(), state.isTLS, isComplete, testseed)
      {
        var b := mb[i];
        EndsNext(mb, i, isComplete);
        assert mb[..i + 1] == mb[..i] + [b];
        ghost var now, was := blocks, longPadding;
        if !(state.isTLS && StartsApplicationData(b) && isComplete)
           && !state.isTLS12orAbove && state.numberOfPacketToFilter <= 1 {
          var rest := PadEarly(b, mb[i + 1..], longPadding, isPadding, switching);
          PadsOneMore(new', mb, i, was, EndsEarly(), state.isTLS, isComplete, testseed, blocks[|old(blocks)| + i]);
          assert blocks[|old(blocks)|..] == new' + [blocks[|old(blocks)| + i]];
          tail := Flat(mb[i + 1..]);
          assert mb == mb[..i] + [b] + mb[i + 1..];
          BookRest(state.userUUID, old(blocks), now, blocks, out, mb[..i], rest, b, mb[i + 1..]);
          out, isPadding := out + rest, false;
          return;
        }
        var padded;
        padded, isPadding, switching, longPadding := PadOne(mb, i, isComplete, isPadding, switching, longPadding);
        PadsOneMore(new', mb, i, was, EndsEarly(), state.isTLS, isComplete, testseed, blocks[|old(blocks)| + i]);
        new' := new' + [blocks[|old(blocks)| + i]];
        BookOne(state.userUUID, old(blocks), now, blocks, out, mb[..i], padded, b);
        out := out + [padded];
        i := i + 1;
      }
      assert mb[..|mb|] == mb;
      BookedMeans(state.userUUID, old(blocks), blocks, out, mb);
      AllPadded(new', mb, longPadding, EndsEarly(), state.isTLS, isComplete, testseed);
      assert blocks[|old(blocks)|..] == new';
    }

    /** The padding of one write; without buffers it is a block of padding only. */
    method PadWrite(mb: seq<bytes>, headerOnly: bool) returns (out: seq<bytes>, ghost tail: bytes)
      requires Shape() && Link().isPadding && (headerOnly ==> mb == [])
      requires forall i :: 0 <= i < |mb| ==> |mb[i]| <= BUF_SIZE
      modifies this`writeOnceUserUUID, this`blocks, state`inbound, state`outbound
      ensures Shape() && old(blocks) <= blocks
      ensures Stream(state.userUUID, blocks) + tail == Stream(state.userUUID, old(blocks)) + Flat(out)
      ensures Contents(blocks) + tail == Contents(old(blocks)) + Flat(mb)
      ensures forall i :: 0 <= i < |out| ==> |out[i]| <= BUF_SIZE
      ensures tail != [] ==> Terminated(blocks) && blocks[|blocks| - 1].command == COMMAND_END
      ensures Terminated(blocks) <==> !headerOnly && Ends(Reshaped(mb), IsRecordSequence(Flat(mb)))
      ensures Terminated(blocks) ==> (blocks[|blocks| - 1].command == COMMAND_DIRECT <==> state.enableXtls)
      ensures WritesBlocks(blocks[|old(blocks)|..], mb, headerOnly, EndsEarly(), state.isTLS, testseed)
      ensures if isUplink then state.inbound == old(state.inbound) else state.outbound == old(state.outbound)
      ensures OwnFlagsOnly(old(Link()), Link())
    {
      hide Stream, Contents, Flat, SafeSeed, IsPadded, PadsBuffers, PadsUpTo, Reshaped, IsRecordSequence, Encodable,
          Chain;
      if headerOnly {
        var padded := PadNext([], COMMAND_CONTINUE, true);
        out, tail := [padded], [];
        FlatOne(padded);
        FlatNothing();
      } else {
        var isComplete := IsCompleteRecord(mb);
        ReshapedFits(mb);
        var reshaped := ReshapeMultiBuffer(mb);
        var isPadding, switching;
        out, isPadding, switching, tail := PadBuffers(reshaped, isComplete);
        SetLink(isPadding, switching);
      }
    }

    /**
     * One write. A nil buffer, alone, asks for a block of padding only. `stale` is what pooled arrays hold behind the
     * content.
     */
    method WriteMultiBuffer(mb: seq<Option<bytes>>, stale: (nat, nat) -> byte)
      requires Valid()
      requires mb == [None] || forall i :: 0 <= i < |mb| ==> mb[i].Some? && |mb[i].value| <= BUF_SIZE
      modifies this, state
      ensures Valid() && state.numberOfPacketToFilter <= old(state.numberOfPacketToFilter)
      ensures Written() == old(Written()) + Flat(Present(mb))
      ensures raw == (old(raw) || old(Link().writerDirectCopy))
      ensures old(blocks) <= blocks && (old(Terminated(blocks)) ==> blocks == old(blocks))
      ensures raw ==> wire == old(wire) && rawWire == old(rawWire) + Present(mb)
      ensures PresentFits(mb)
      ensures old(!Terminated(blocks)) ==>
                WritesBlocks(blocks[|old(blocks)|..], Present(mb), mb == [None], EndsEarly(), state.isTLS, testseed)
      ensures old(!Terminated(blocks)) ==>
                (Terminated(blocks) <==>
                  mb != [None] && Ends(Reshaped(Present(mb)), IsRecordSequence(Flat(Present(mb)))))
      ensures old(!Terminated(blocks)) && Terminated(blocks) ==>
                (blocks[|blocks| - 1].command == COMMAND_DIRECT <==> state.enableXtls)
      ensures if isUplink then state.inbound == old(state.inbound) else state.outbound == old(state.outbound)
      ensures OwnFlagsOnly(old(Link()), Link())
      ensures state.Filtering() ==
                if old(state.numberOfPacketToFilter) > 0 then FilterFrom(old(state.Filtering()), mb, stale, 0)
                    else old(state.Filtering())
    {
      hide Stream, Contents, Flat, SafeSeed, Present, Encodable, Chain, FilterFrom, IsPadded, PadsBuffers, PadsUpTo,
          WritesBlocks, PresentFits, Reshaped, IsRecordSequence, VisionWriter.Ends, VisionWriter.EndsEarly;
      if Link().writerDirectCopy {
        raw := true;
        SetLink(Link().isPadding, false);
      }
      if state.numberOfPacketToFilter > 0 {
        state.XtlsFilterTls(mb, stale);
      }
      PresentSizes(mb);
      var out := Present(mb);
      ghost var tail := Flat(out);
      if Link().isPadding {
        out, tail := PadWrite(out, mb == [None]);
      }
      Emit(out, tail, Flat(Present(mb)), old(blocks));
    }

    /** Hands the outcome of a write to the connection in use. */
    method Emit(out: seq<bytes>, ghost tail: bytes, ghost payload: bytes, ghost before: seq<Block>)
      requires Shape() && Flat(wire) == Stream(state.userUUID, before) + plain
      requires forall i :: 0 <= i < |wire| ==> |wire[i]| <= BUF_SIZE
      requires forall i :: 0 <= i < |out| ==> |out[i]| <= BUF_SIZE
      requires raw ==> blocks == before && payload == Flat(out)
      requires !raw ==>
                 || (&& plain == []
                     && Stream(state.userUUID, blocks) + tail == Stream(state.userUUID, before) + Flat(out)
                     && Contents(blocks) + tail == Contents(before) + payload)
                 || (before == blocks && tail == Flat(out) == payload)
      requires !raw && tail != [] ==> Terminated(blocks) && blocks[|blocks| - 1].command == COMMAND_END
      modifies this`wire, this`rawWire, this`plain
      ensures Valid()
      ensures Written() == Contents(before) + old(plain) + Flat(old(rawWire)) + payload
      ensures raw ==> wire == old(wire) && rawWire == old(rawWire) + out
    {
      hide Stream, Contents, Flat, SafeSeed;
      if raw {
        FlatConcat(rawWire, out);
        rawWire := rawWire + out;
        assert Contents(blocks) + plain + (Flat(old(rawWire)) + payload)
            == Contents(blocks) + plain + Flat(old(rawWire)) + payload;
      } else {
        FlatConcat(wire, out);
        wire := wire + out;
        Accounted(Contents(before), Contents(blocks), plain, tail, payload);
        Accounted(Stream(state.userUUID, before), Stream(state.userUUID, blocks), plain, tail, Flat(out));
        plain := plain + tail;
        NothingRaw(Contents(blocks) + plain, rawWire);
        NothingRaw(Contents(before) + old(plain), rawWire);
      }
    }
  }

  /**
   * What else happens to the shared state between two writes keeps the writer valid, as long as its own two flags stay.
   * The reader of the same connection works on the same half of the state.
   */
  twostate lemma OtherDirectionKeepsValid(w: VisionWriter)
    requires old(w.Valid()) && unchanged(w)
    requires w.state.FilterInvariant()
    requires w.Link().isPadding == old(w.Link()).isPadding
    requires w.Link().writerDirectCopy == old(w.Link()).writerDirectCopy
    ensures w.Valid() && w.Written() == old(w.Written())
  {
  }

  /** What the writer put on the wire before raw copy, cut anywhere, decodes to what was written. */
  lemma WriterMeetsDecoder(w: VisionWriter, pieces: seq<bytes>)
    requires w.Valid() && w.blocks != []
    requires pieces != [] && |pieces[0]| >= 21 && Flat(pieces) == Flat(w.wire)
    ensures UnpadRun(w.state.userUUID, INITIAL, pieces).1 + Flat(w.rawWire) == w.Written()
       <==> NoFalseStart(w.state.userUUID, pieces[1..], UUID_LEN + |EncodeBlocks(w.blocks)| - |pieces[0]|)
  {
    hide UnpadRun, EncodeBlocks, Contents, NoFalseStart, Encodable, Chain, SafeSeed, Flat;
    VisionRoundTrip(w.state.userUUID, w.blocks, w.plain, pieces);
    var r := UnpadRun(w.state.userUUID, INITIAL, pieces).1;
    var c := Contents(w.blocks) + w.plain;
    if r + Flat(w.rawWire) == c + Flat(w.rawWire) {
      assert r == (r + Flat(w.rawWire))[..|r|];
      assert c == (c + Flat(w.rawWire))[..|c|];
    }
  }
}
