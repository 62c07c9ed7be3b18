/** The readers that a frame's data is read through: as a stream, or as one packet. */
module MuxReaders {
  import opened ByteSeq
  import opened Buffers

  /** The data of a frame is all there. */
  predicate DataComplete(s: bytes) {
    |s| >= 2 && |s| >= 2 + FromU16(s[0], s[1])
  }

  function DataLen(s: bytes): nat
    requires |s| >= 2
  {
    FromU16(s[0], s[1])
  }

  /** Chunks with a plain 16-bit length, at most `maxNumChunk` of them unless that is zero. */
  class ChunkStreamReader {
    const reader: BufferedReader
    const maxNumChunk: nat
    var leftOverSize: nat
    var numChunk: nat

    constructor (reader: BufferedReader, maxNumChunk: nat)
      ensures this.reader == reader && this.maxNumChunk == maxNumChunk && leftOverSize == 0 && numChunk == 0
    {
      this.reader := reader;
      this.maxNumChunk := maxNumChunk;
      leftOverSize, numChunk := 0, 0;
    }

    /** The next read begins a chunk that may not be read any more. */
    predicate Exhausted()
      reads this
    {
      leftOverSize == 0 && maxNumChunk > 0 && numChunk >= maxNumChunk
    }

    /** Part of the current chunk, after the length of a new one if the last is used up. */
    method ReadMultiBuffer() returns (mb: seq<bytes>, status: Status)
      modifies this, reader
      ensures status in {Ok, Eof, UnexpectedEof}
      ensures reader.Left() <= old(reader.Left()) && (status == Ok ==> reader.Left() < old(reader.Left()))
      ensures status != Ok ==> mb == []
      ensures numChunk == old(numChunk) + (if old(leftOverSize) == 0 then 1 else 0)
      ensures old(Exhausted()) <==> old(leftOverSize) == 0 && 0 < maxNumChunk <= old(numChunk)
      ensures old(Exhausted()) ==> status == Eof && reader.Remaining() == old(reader.Remaining()) && leftOverSize == 0
      ensures !old(Exhausted()) && old(leftOverSize) == 0 && |old(reader.Remaining())| < 2 ==>
                status != Ok && reader.Remaining() == [] && (status == Eof <==> old(reader.Remaining()) == [])
      ensures !old(Exhausted()) && old(leftOverSize) == 0 && |old(reader.Remaining())| >= 2 ==>
                Progress(old(reader.Remaining())[2..], DataLen(old(reader.Remaining())), mb, status)
      ensures old(leftOverSize) > 0 ==> Progress(old(reader.Remaining()), old(leftOverSize), mb, status)
    {
      var size := leftOverSize;
      if size == 0 {
        numChunk := numChunk + 1;
        if maxNumChunk > 0 && numChunk > maxNumChunk {
          return [], Eof;
        }
        var sizeBytes, st := reader.ReadFull(2);
        if st != Ok {
          return [], st;
        }
        assert old(reader.Remaining())[..2] == sizeBytes && old(reader.Remaining())[2..] == reader.Remaining();
        size := FromU16(sizeBytes[0], sizeBytes[1]);
        if size == 0 {
          return [], Eof;
        }
      }
      leftOverSize := size;
      ghost var before := reader.Remaining();
      mb, status := reader.ReadAtMost(size);
      if Flat(mb) != [] {
        leftOverSize := leftOverSize - |Flat(mb)|;
        return mb, Ok;
      }
      assert [] + reader.Remaining() == reader.Remaining();
      mb := [];
    }

    /** What a read does with a chunk of which `size` bytes are left, in front of `rest`. */
    ghost predicate Progress(rest: bytes, size: nat, mb: seq<bytes>, status: Status)
      reads this, reader
    {
      && (size == 0 ==> status == Eof && reader.Remaining() == rest && leftOverSize == 0)
      && (size > 0 ==>
            && status in {Ok, Eof}
            && (status == Ok ==>
                |Flat(mb)| <= size && Flat(mb) + reader.Remaining() == rest && leftOverSize == size - |Flat(mb)|)
            && (status == Eof ==> rest == [] == reader.Remaining() && leftOverSize == size))
    }
  }

  /** A frame's data read as one packet. */
  class PacketReader {
    const reader: BufferedReader
    var eof: bool

    constructor (reader: BufferedReader)
      ensures this.reader == reader && !eof
    {
      this.reader := reader;
      eof := false;
    }

    method ReadMultiBuffer() returns (packet: bytes, status: Status)
      modifies this, reader
      ensures reader.Left() <= old(reader.Left())
      ensures old(eof) ==> status == Eof && eof && reader.Remaining() == old(reader.Remaining())
      ensures !old(eof) ==> (eof <==> status == Ok)
      ensures !old(eof) && DataComplete(old(reader.Remaining())) && DataLen(old(reader.Remaining())) <= BUF_SIZE ==>
                var r := old(reader.Remaining());
                status == Ok && packet == r[2..2 + DataLen(r)] && reader.Remaining() == r[2 + DataLen(r)..]
      ensures !old(eof) && |old(reader.Remaining())| >= 2 && DataLen(old(reader.Remaining())) > BUF_SIZE ==>
                status == Failed
      ensures !old(eof) && !DataComplete(old(reader.Remaining())) ==> status != Ok
      ensures !old(eof) && status == Eof ==> !DataComplete(old(reader.Remaining())) && reader.Remaining() == []
      ensures status != Ok ==> packet == []
    {
      if eof {
        return [], Eof;
      }
      ghost var r := reader.Remaining();
      var sizeBytes, st := reader.ReadFull(2);
      if st != Ok {
        return [], st;
      }
      ghost var r2 := reader.Remaining();
      LengthCut(r, sizeBytes, r2);
      var size := FromU16(sizeBytes[0], sizeBytes[1]);
      if size > BUF_SIZE {
        return [], Failed;
      }
      var b;
      b, st := reader.ReadFull(size);
      if st != Ok {
        return [], st;
      }
      PacketCut(r, r2, b, reader.Remaining());
      eof := true;
      return b, Ok;
    }
  }

  lemma LengthCut(r: bytes, sizeBytes: bytes, rest: bytes)
    requires r == sizeBytes + rest && |sizeBytes| == 2
    ensures |r| >= 2 && r[2..] == rest && DataLen(r) == FromU16(sizeBytes[0], sizeBytes[1])
  {
  }

  lemma PacketCut(r: bytes, r2: bytes, b: bytes, rest: bytes)
    requires |r| >= 2 && r[2..] == r2 && r2 == b + rest && |b| == DataLen(r)
    ensures DataComplete(r) && r[2..2 + |b|] == b && r[2 + |b|..] == rest
  {
    assert r[2..2 + |b|] == r2[..|b|] && r[2 + |b|..] == r2[|b|..];
  }
}
