/** The reading end of a chunked AEAD stream. */
module AeadReaders {
  import opened ByteSeq
  import opened Buffers
  import opened Aeads
  import opened AeadWriters

  datatype Progress = Got | Waiting | Ended | Broken

  class AuthenticationReader {
    const auth: AEADAuthenticator
    const reader: BufferedReader
    const codec: SizeCodec
    const padding: Option<Padding>
    /** Calls so far of the padding generator and of the size parser. */
    var pads: nat
    var sizes: nat
    /** A size that has been read for a chunk that has not. */
    var size: nat
    var paddingLen: nat
    var hasSize: bool
    var done: bool

    constructor (auth: AEADAuthenticator, codec: SizeCodec, reader: BufferedReader, padding: Option<Padding>)
      requires auth.calls == 0
      ensures this.auth == auth && this.reader == reader && !done && !hasSize && pads == sizes == 0
      ensures Setup() == Aeads.Setup(auth.cipher, auth.nonces, auth.extra, codec, padding)
    {
      this.auth, this.codec, this.reader, this.padding := auth, codec, reader, padding;
      pads, sizes, size, paddingLen, hasSize, done := 0, 0, 0, 0, false, false;
    }

    function Setup(): Setup {
      Aeads.Setup(auth.cipher, auth.nonces, auth.extra, codec, padding)
    }

    /**
     * The reader has opened `auth.calls` of the chunks and stands in front of the next, or behind its size field. Of
     * the bytes of the chunks, `lost` never arrive.
     */
    ghost predicate At(chunks: seq<Chunk>, lost: bytes)
      reads this, reader, auth
    {
      var s, k := Setup(), auth.calls;
      && k <= |chunks| && InPlace(s, chunks)
      && if done then
           && k < |chunks| && chunks[k].plain == []
           && reader.Remaining() + lost == Sealed(s, k, chunks[k]) + Wire(s, k + 1, chunks[k + 1..])
         else if hasSize then
           && k < |chunks| && chunks[k].plain != [] && sizes == k + 1 && (padding.Some? ==> pads == k + 1)
           && size == Size(s, chunks[k]) && paddingLen == |chunks[k].pad|
           && reader.Remaining() + lost == Sealed(s, k, chunks[k]) + Wire(s, k + 1, chunks[k + 1..])
         else
           && sizes == k && (padding.Some? ==> pads == k)
           && reader.Remaining() + lost == Wire(s, k, chunks[k..])
    }

    /** The bytes of the next chunk and those behind it that arrive, a size field that has been read included. */
    ghost function Ahead(): nat
      reads this, reader
    {
      |reader.Remaining()| + if hasSize || done then codec.sizeBytes else 0
    }

    lemma AheadIs(chunks: seq<Chunk>, lost: bytes)
      requires At(chunks, lost) && Setup().Good()
      ensures auth.calls <= |chunks| && Ahead() + |lost| == |Wire(Setup(), auth.calls, chunks[auth.calls..])|
      ensures done ==> auth.calls < |chunks| && chunks[auth.calls].plain == []
    {
      hide Sealed, Inverts;
      var s, k := Setup(), auth.calls;
      if hasSize || done {
        WireHead(s, k, chunks[k..]);
        assert chunks[k..][1..] == chunks[k + 1..];
        assert MayBe(s, k, chunks[k]);
        assert |s.codec.encode(k, Size(s, chunks[k]))| == s.codec.sizeBytes;
      }
    }

    /** Behind the size field of chunk `auth.calls`, which has size `n` and padding `p`. */
    ghost predicate Sized(chunks: seq<Chunk>, lost: bytes, n: nat, p: nat)
      reads this, reader, auth
    {
      var s, k := Setup(), auth.calls;
      && k < |chunks| && InPlace(s, chunks) && !done && !hasSize
      && sizes == k + 1 && (padding.Some? ==> pads == k + 1)
      && n == Size(s, chunks[k]) && p == |chunks[k].pad|
      && reader.Remaining() + lost == Sealed(s, k, chunks[k]) + Wire(s, k + 1, chunks[k + 1..])
    }

    /** The size of the next chunk and the length of its padding. */
    method ReadSize(ghost chunks: seq<Chunk>, ghost lost: bytes) returns (n: nat, p: nat, status: Status)
      requires Setup().Good() && At(chunks, lost) && !done
      modifies this`hasSize, this`pads, this`sizes, reader
      ensures status in {Ok, Eof, UnexpectedEof}
      ensures status == Ok ==> Sized(chunks, lost, n, p) && (old(hasSize) ==> chunks[auth.calls].plain != [])
      ensures status == Ok <==> old(hasSize) || |old(reader.Remaining())| >= codec.sizeBytes
      ensures status == Eof <==> !old(hasSize) && old(reader.Remaining()) == []
      ensures status != Ok ==> reader.Remaining() == [] && (lost == [] ==> status == Eof && auth.calls == |chunks|)
      ensures status == Eof ==> At(chunks, lost)
      ensures status == Ok ==>
                |reader.Remaining()| == |old(reader.Remaining())| - (if old(hasSize) then 0 else codec.sizeBytes)
      ensures old(hasSize) || old(reader.BufferedBytes()) >= codec.sizeBytes ==> reader.source == old(reader.source)
    {
      hide Flat, Wire, WireOf, Sealed, MayBe, Size, Inverts, GoodCodec, InPlace;
      FieldHasBytes(codec);
      if hasSize {
        hasSize := false;
        return size, paddingLen, Ok;
      }
      ghost var k, before := auth.calls, reader.Remaining();
      FrontOfWire(Setup(), k, chunks, before, lost);
      var sizeBytes;
      sizeBytes, status := reader.ReadFull(codec.sizeBytes);
      if status != Ok {
        return 0, 0, status;
      }
      FieldRead(Setup(), k, chunks, before, lost, sizeBytes, reader.Remaining());
      p := 0;
      if padding.Some? {
        p := padding.value.next(pads);
        pads := pads + 1;
      }
      var decoded := codec.decode(sizes, sizeBytes);
      sizes := sizes + 1;
      return decoded.value, p, Ok;
    }

    /** The chunk behind a size field. */
    method ReadChunk(mb: seq<bytes>, n: nat, p: nat, ghost chunks: seq<Chunk>, ghost lost: bytes)
      returns (mb': seq<bytes>, progress: Progress)
      requires Setup().Good() && Sized(chunks, lost, n, p) && chunks[auth.calls].plain != []
      requires forall b :: b in mb ==> |b| <= BUF_SIZE
      modifies reader, auth
      ensures forall b :: b in mb' ==> |b| <= BUF_SIZE
      ensures progress in {Got, Ended, Broken}
      ensures progress == Got ==> At(chunks, lost) && auth.calls == old(auth.calls) + 1
      ensures progress == Got ==> Flat(mb') == Flat(mb) + chunks[old(auth.calls)].plain
      ensures progress == Got <==> |old(reader.Remaining())| >= n
      ensures progress == Ended <==> old(reader.Remaining()) == []
      ensures progress != Got ==> mb' == mb && auth.calls == old(auth.calls) && lost != [] && reader.Remaining() == []
      ensures old(reader.BufferedBytes()) >= n ==> reader.source == old(reader.source)
    {
      hide Flat, Wire, WireOf, Sealed, MayBe, Inverts, GoodCodec, InPlace;
      mb' := mb;
      ghost var k, before := auth.calls, reader.Remaining();
      ChunkAhead(Setup(), k, chunks, before, lost);
      var payload, status := reader.ReadFull(n);
      if status != Ok {
        return mb, if status == Eof then Ended else Broken;
      }
      ChunkRead(Setup(), k, chunks, before, lost, payload, reader.Remaining());
      var plain := auth.Open(payload[..n - p]);
      if n <= BUF_SIZE {
        mb' := mb + [plain.value];
        FlatSnoc(mb, plain.value);
      } else {
        mb' := MergeBytes(mb, plain.value);
      }
      return mb', Got;
    }

    /** The next chunk; a soft read only takes what is buffered already. */
    method ReadInternal(soft: bool, mb: seq<bytes>, ghost chunks: seq<Chunk>, ghost lost: bytes)
      returns (mb': seq<bytes>, progress: Progress)
      requires Setup().Good() && At(chunks, lost)
      requires forall b :: b in mb ==> |b| <= BUF_SIZE
      modifies this`hasSize, this`size, this`paddingLen, this`done, this`pads, this`sizes, reader, auth
      ensures forall b :: b in mb' ==> |b| <= BUF_SIZE
      ensures progress == Got ==> At(chunks, lost) && !done && auth.calls == old(auth.calls) + 1
      ensures progress == Got ==>
                Flat(mb') == Flat(mb) + chunks[old(auth.calls)].plain && chunks[old(auth.calls)].plain != []
      ensures progress != Got ==> mb' == mb && auth.calls == old(auth.calls)
      ensures progress == Waiting ==> soft && At(chunks, lost)
      ensures soft ==> progress != Broken && reader.source == old(reader.source) && (progress == Ended ==> done)
      ensures done ==> progress != Got && (progress == Ended ==> At(chunks, lost))
      ensures !soft ==> (progress, done) == Expected(Setup(), old(auth.calls), chunks, old(Ahead()))
    {
      hide Flat, Wire, WireOf, Sealed, MayBe, Inverts, GoodCodec, InPlace;
      mb' := mb;
      if soft && reader.BufferedBytes() < codec.sizeBytes {
        return mb, Waiting;
      }
      if done {
        return mb, Ended;
      }
      FieldHasBytes(codec);
      BufferedRemain(reader);
      ghost var k := auth.calls;
      SizesOf(chunks, lost);
      var n, p, status := ReadSize(chunks, lost);
      if status != Ok {
        return mb, if status == Eof then Ended else Broken;
      }
      if n == auth.cipher.overhead + p {
        done := true;
        return mb, Ended;
      }
      if soft && n > reader.BufferedBytes() {
        size, paddingLen, hasSize := n, p, true;
        return mb, Waiting;
      }
      mb', progress := ReadChunk(mb, n, p, chunks, lost);
    }

    /** What the state says about the size of the next chunk. */
    lemma SizesOf(chunks: seq<Chunk>, lost: bytes)
      requires At(chunks, lost) && Setup().Good()
      ensures auth.calls == |chunks| ==> reader.Remaining() == [] && !hasSize && !done
      ensures auth.calls < |chunks| ==>
                Size(Setup(), chunks[auth.calls]) ==
                  |chunks[auth.calls].plain| + auth.cipher.overhead + |chunks[auth.calls].pad|
    {
      AheadIs(chunks, lost);
    }

    lemma InRange(chunks: seq<Chunk>, lost: bytes)
      requires At(chunks, lost)
      ensures auth.calls <= |chunks|
    {
    }

    /** Up to 16 chunks; waits for the first only. Nothing that has been opened is lost. */
    method ReadMultiBuffer(ghost chunks: seq<Chunk>, ghost lost: bytes) returns (mb: seq<bytes>, progress: Progress)
      requires Setup().Good() && At(chunks, lost)
      modifies this`hasSize, this`size, this`paddingLen, this`done, this`pads, this`sizes, reader, auth
      ensures progress in {Got, Ended, Broken} && (progress != Got ==> mb == [] && auth.calls == old(auth.calls))
      ensures progress == Got ==> At(chunks, lost) && old(auth.calls) < auth.calls <= old(auth.calls) + 16
      ensures progress == Got ==> Flat(mb) == Flat(Plains(chunks[old(auth.calls)..auth.calls]))
      ensures progress == Got ==> forall i :: old(auth.calls) <= i < auth.calls ==> chunks[i].plain != []
      ensures progress == Expected(Setup(), old(auth.calls), chunks, old(Ahead())).0
      ensures progress != Got ==> done == Expected(Setup(), old(auth.calls), chunks, old(Ahead())).1
    {
      hide Flat, Plains, At, Expected, Ahead, Wire;
      ghost var k := auth.calls;
      FlatNothing();
      InRange(chunks, lost);
      mb, progress := ReadInternal(false, [], chunks, lost);
      if progress != Got {
        return [], progress;
      }
      InRange(chunks, lost);
      NoPlains(chunks, k);
      PlainsSnoc(chunks, k, k);
      var i := 1;
      while i < 16
        invariant 1 <= i <= 16 && At(chunks, lost) && k < auth.calls <= k + i && auth.calls <= |chunks|
        invariant Flat(mb) == Flat(Plains(chunks[k..auth.calls])) && forall b :: b in mb ==> |b| <= BUF_SIZE
        invariant forall j :: k <= j < auth.calls ==> chunks[j].plain != []
      {
        ghost var c := auth.calls;
        InRange(chunks, lost);
        mb, progress := ReadInternal(true, mb, chunks, lost);
        if progress == Waiting || progress == Ended {
          break;
        }
        InRange(chunks, lost);
        PlainsSnoc(chunks, k, c);
        i := i + 1;
      }
      progress := Got;
    }

    /**
     * Reads until there is no more, and joins what comes: the chunks up to the first that is empty or not there in
     * whole, and then what the bytes left over of that one make it look like.
     */
    method Drain(ghost chunks: seq<Chunk>, ghost lost: bytes) returns (all: bytes, progress: Progress)
      requires Setup().Good() && At(chunks, lost) && auth.calls == 0 && !hasSize && !done
      modifies this`hasSize, this`size, this`paddingLen, this`done, this`pads, this`sizes, reader, auth
      ensures auth.calls <= |chunks| && all == Flat(Plains(chunks[..auth.calls]))
      ensures forall i :: 0 <= i < auth.calls ==> chunks[i].plain != []
      ensures var left := |old(reader.Remaining())| - |Wire(Setup(), 0, chunks[..auth.calls])|;
              && left >= 0 && progress != Got && (progress, done) == Expected(Setup(), auth.calls, chunks, left)
    {
      hide Flat, Wire, Plains, At, Expected;
      all := [];
      NoPlains(chunks, 0);
      AheadIs(chunks, lost);
      while true
        invariant At(chunks, lost) && auth.calls <= |chunks| && all == Flat(Plains(chunks[0..auth.calls]))
        invariant forall i :: 0 <= i < auth.calls ==> chunks[i].plain != []
        decreases |chunks| - auth.calls
      {
        ghost var k := auth.calls;
        AheadIs(chunks, lost);
        WireSplit(Setup(), 0, chunks, k);
        assert chunks[0..] == chunks;
        var mb;
        mb, progress := ReadMultiBuffer(chunks, lost);
        if progress != Got {
          assert chunks[0..k] == chunks[..k];
          return;
        }
        AheadIs(chunks, lost);
        PlainsConcat(chunks, 0, k, auth.calls);
        all := all + Flat(mb);
      }
    }
  }

  /**
   * What a read makes of a chunk when `n` bytes of it and of what is behind it arrive. A transport that ends at a chunk
   * boundary, or right behind a size field, looks like an end; anywhere else it is broken.
   */
  ghost function Expected(s: Setup, k: nat, chunks: seq<Chunk>, n: int): (Progress, bool) {
    if k < |chunks| && chunks[k].plain == [] && n >= s.codec.sizeBytes then (Ended, true)
    else if k < |chunks| && chunks[k].plain != [] && n >= s.codec.sizeBytes + Size(s, chunks[k]) then (Got, false)
    else if n == 0 || n == s.codec.sizeBytes then (Ended, false)
    else (Broken, false)
  }

  lemma {:induction false} WireSplit(s: Setup, k: nat, chunks: seq<Chunk>, n: nat)
    requires n <= |chunks|
    ensures Wire(s, k, chunks) == Wire(s, k, chunks[..n]) + Wire(s, k + n, chunks[n..])
    decreases n
  {
    if n == 0 {
      assert chunks[0..] == chunks;
    } else {
      WireSplit(s, k + 1, chunks[1..], n - 1);
      assert chunks[..n][1..] == chunks[1..][..n - 1] && chunks[1..][n - 1..] == chunks[n..];
    }
  }

  /** If everything arrives, the end is clean: behind the last chunk, or at the first empty one. */
  lemma WholeWire(s: Setup, k: nat, chunks: seq<Chunk>)
    requires s.Good() && k <= |chunks| && InPlace(s, chunks)
    ensures var e := Expected(s, k, chunks, |Wire(s, k, chunks[k..])|);
            e.0 != Broken && (e.0 == Ended ==> (e.1 <==> k < |chunks|))
  {
    if k < |chunks| {
      WireHead(s, k, chunks[k..]);
      assert MayBe(s, k, chunks[k]);
      assert |s.codec.encode(k, Size(s, chunks[k]))| == s.codec.sizeBytes;
    }
  }

  /**
   * From end to end: a writer whose paddings are in step, and a reader set up alike over any cutting of what was
   * written, of which the bytes `lost` at the end never arrive. The reader gives the plain texts in order up to the
   * first empty chunk or the first that is not there in whole. If nothing is lost it is done exactly at an empty chunk.
   */
  method Transfer(writer: AuthenticationWriter, reader: AuthenticationReader, ghost lost: bytes)
    returns (all: bytes, progress: Progress)
    requires writer.Setup() == reader.Setup() && reader.Setup().Good() && writer.auth != reader.auth && writer.InStep()
    requires reader.auth.calls == reader.sizes == reader.pads == 0 && !reader.hasSize && !reader.done
    requires reader.reader.Remaining() + lost == writer.sent
    modifies reader, reader.reader, reader.auth
    ensures var n := reader.auth.calls;
            && n <= |writer.chunks| && all == Flat(Plains(writer.chunks[..n]))
            && (forall i :: 0 <= i < n ==> writer.chunks[i].plain != [])
            && var left := |writer.sent| - |lost| - |Wire(reader.Setup(), 0, writer.chunks[..n])|;
               && left >= 0 && progress != Got
               && (progress, reader.done) == Expected(reader.Setup(), n, writer.chunks, left)
    ensures lost == [] ==> progress == Ended && (reader.done <==> reader.auth.calls < |writer.chunks|)
    ensures reader.done ==> reader.auth.calls < |writer.chunks| && writer.chunks[reader.auth.calls].plain == []
  {
    hide Flat, Wire, WireOf, Sealed, MayBe, Inverts, GoodCodec, Plains;
    ghost var chunks := writer.chunks;
    assert chunks[0..] == chunks;
    all, progress := reader.Drain(chunks, lost);
    ghost var n := reader.auth.calls;
    WireSplit(reader.Setup(), 0, chunks, n);
    if lost == [] {
      WholeWire(reader.Setup(), n, chunks);
    }
  }

  /** A cipher that changes nothing, which is as good as any here. */
  const NO_CIPHER := Cipher(0, 0, (n, a, p) => p, (n, a, c) => Some(c))

  const SEVEN := Chunk([7], [])

  lemma SevenOnWire(s: Setup)
    requires s.cipher == NO_CIPHER && s.codec == PLAIN_SIZES && s.padding == None && forall k :: s.nonces(k) == []
    ensures s.Good() && InPlace(s, [SEVEN]) && Size(s, SEVEN) == 1
    ensures Wire(s, 0, [SEVEN]) == [0, 1, 7] && Wire(s, 0, []) == []
  {
    SizesComeBack(NO_CIPHER, s.nonces, s.extra);
    assert [SEVEN][1..] == [];
    assert U16(1) == [0, 1];
    assert WireOf(s, 0, SEVEN) == [0, 1] + ([7] + []);
  }

  /** One chunk with a plain text, of which only the size field arrives: a clean end by all that the reader says. */
  method EndBehindSizeField() returns (all: bytes, progress: Progress, done: bool)
    ensures all == [] && progress == Ended && !done
  {
    hide Wire, WireOf, Inverts, GoodCodec, Sealed, MayBe, Size;
    var auth := new AEADAuthenticator(NO_CIPHER, k => [], k => []);
    var field: bytes := [0, 1];
    FlatOne(field);
    assert FlatAll([[field]]) == Flat([field]) + FlatAll([]) == field;
    var transport := new BufferedReader([[field]]);
    var reader := new AuthenticationReader(auth, PLAIN_SIZES, transport, None);
    SevenOnWire(reader.Setup());
    ghost var chunks: seq<Chunk>, lost: bytes := [SEVEN], [7];
    assert chunks[0..] == chunks && field + lost == [0, 1, 7];
    all, progress := reader.Drain(chunks, lost);
    done := reader.done;
    assert chunks[..1] == chunks && chunks[..0] == [];
    NoPlains(chunks, 0);
    assert chunks[0..0] == [];
  }

  lemma NoPlains(chunks: seq<Chunk>, k: nat)
    requires k <= |chunks|
    ensures Flat(Plains(chunks[k..k])) == []
  {
  }

  /** Plain text number `k` behind those before it. */
  lemma PlainsSnoc(chunks: seq<Chunk>, i: nat, k: nat)
    requires i <= k < |chunks|
    ensures Flat(Plains(chunks[i..k + 1])) == Flat(Plains(chunks[i..k])) + chunks[k].plain
  {
    hide Flat;
    assert Plains(chunks[i..k + 1]) == Plains(chunks[i..k]) + [chunks[k].plain];
    FlatSnoc(Plains(chunks[i..k]), chunks[k].plain);
  }

  lemma PlainsConcat(chunks: seq<Chunk>, i: nat, j: nat, k: nat)
    requires i <= j <= k <= |chunks|
    ensures Flat(Plains(chunks[i..k])) == Flat(Plains(chunks[i..j])) + Flat(Plains(chunks[j..k]))
  {
    hide Flat;
    assert Plains(chunks[i..k]) == Plains(chunks[i..j]) + Plains(chunks[j..k]);
    FlatConcat(Plains(chunks[i..j]), Plains(chunks[j..k]));
  }

  lemma BufferedRemain(reader: BufferedReader)
    ensures reader.BufferedBytes() <= |reader.Remaining()|
  {
  }

  /** Two sizes cannot be told apart without bytes. */
  lemma FieldHasBytes(codec: SizeCodec)
    ensures GoodCodec(codec) ==> codec.sizeBytes > 0
  {
    if GoodCodec(codec) {
      var a, b := codec.encode(0, 0), codec.encode(0, 1);
      assert codec.decode(0, a) == Some(0) && codec.decode(0, b) == Some(1);
      assert a != b;
    }
  }

  lemma FrontOfWire(s: Setup, k: nat, chunks: seq<Chunk>, before: bytes, lost: bytes)
    requires s.Good() && InPlace(s, chunks) && k <= |chunks| && before + lost == Wire(s, k, chunks[k..])
    ensures k == |chunks| ==> before == [] == lost
    ensures k < |chunks| && lost == [] ==> |before| >= s.codec.sizeBytes
  {
    if k < |chunks| {
      WireHead(s, k, chunks[k..]);
      assert MayBe(s, k, chunks[k]);
      assert |s.codec.encode(k, Size(s, chunks[k]))| == s.codec.sizeBytes;
    }
  }

  lemma FieldRead(s: Setup, k: nat, chunks: seq<Chunk>, before: bytes, lost: bytes, sizeBytes: bytes, rest: bytes)
    requires s.Good() && InPlace(s, chunks) && k <= |chunks| && before + lost == Wire(s, k, chunks[k..])
    requires before == sizeBytes + rest && |sizeBytes| == s.codec.sizeBytes > 0
    ensures k < |chunks| && s.codec.decode(k, sizeBytes) == Some(Size(s, chunks[k])) && s.Pad(k) == |chunks[k].pad|
    ensures rest + lost == Sealed(s, k, chunks[k]) + Wire(s, k + 1, chunks[k + 1..])
  {
    hide Sealed, Wire, Inverts;
    FrontOfWire(s, k, chunks, before, lost);
    WireHead(s, k, chunks[k..]);
    assert chunks[k..][1..] == chunks[k + 1..];
    assert MayBe(s, k, chunks[k]);
    var field := s.codec.encode(k, Size(s, chunks[k]));
    var behind := Sealed(s, k, chunks[k]) + Wire(s, k + 1, chunks[k + 1..]);
    assert sizeBytes + (rest + lost) == before + lost;
    assert WireOf(s, k, chunks[k]) + Wire(s, k + 1, chunks[k + 1..]) == field + behind;
    SameFront(sizeBytes, rest + lost, field, behind);
  }

  lemma SameFront(a: bytes, b: bytes, c: bytes, d: bytes)
    requires a + b == c + d && |a| == |c|
    ensures a == c && b == d
  {
    assert a == (a + b)[..|a|] && b == (a + b)[|a|..];
    assert c == (c + d)[..|c|] && d == (c + d)[|c|..];
  }

  lemma ChunkAhead(s: Setup, k: nat, chunks: seq<Chunk>, before: bytes, lost: bytes)
    requires s.Good() && InPlace(s, chunks) && k < |chunks|
    requires before + lost == Sealed(s, k, chunks[k]) + Wire(s, k + 1, chunks[k + 1..])
    ensures |Sealed(s, k, chunks[k])| == Size(s, chunks[k])
    ensures lost == [] ==> |before| >= Size(s, chunks[k])
  {
    hide Wire, GoodCodec;
  }

  lemma ChunkRead(s: Setup, k: nat, chunks: seq<Chunk>, before: bytes, lost: bytes, payload: bytes, rest: bytes)
    requires s.Good() && InPlace(s, chunks) && k < |chunks|
    requires before + lost == Sealed(s, k, chunks[k]) + Wire(s, k + 1, chunks[k + 1..])
    requires before == payload + rest && |payload| == Size(s, chunks[k])
    ensures rest + lost == Wire(s, k + 1, chunks[k + 1..])
    ensures s.cipher.unseal(s.nonces(k), s.extra(k), payload[..|payload| - |chunks[k].pad|]) == Some(chunks[k].plain)
  {
    hide Wire, GoodCodec;
    ChunkAhead(s, k, chunks, before, lost);
    var c := chunks[k];
    assert payload + (rest + lost) == Sealed(s, k, c) + Wire(s, k + 1, chunks[k + 1..]);
    SameFront(payload, rest + lost, Sealed(s, k, c), Wire(s, k + 1, chunks[k + 1..]));
    assert Sealed(s, k, c)[..|payload| - |c.pad|] == s.SealAt(k, c.plain);
  }
}
