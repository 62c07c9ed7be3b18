/** The writing end of a chunked AEAD stream. */
module AeadWriters {
  import opened ByteSeq
  import opened Buffers
  import opened Aeads

  class AuthenticationWriter {
    const auth: AEADAuthenticator
    const codec: SizeCodec
    const padding: Option<Padding>
    const packet: bool
    /** Calls so far of the padding generator and of the size parser. */
    var pads: nat
    var sizes: nat
    /** What has been written, and the chunks in it. */
    var sent: bytes
    ghost var chunks: seq<Chunk>

    constructor (auth: AEADAuthenticator, codec: SizeCodec, packet: bool, padding: Option<Padding>)
      requires auth.calls == 0
      ensures InStep() && chunks == [] && this.auth == auth
      ensures Setup() == Aeads.Setup(auth.cipher, auth.nonces, auth.extra, codec, padding) && this.packet == packet
    {
      this.auth, this.codec, this.padding, this.packet := auth, codec, padding, packet;
      pads, sizes, sent, chunks := 0, 0, [], [];
    }

    function Setup(): Setup {
      Aeads.Setup(auth.cipher, auth.nonces, auth.extra, codec, padding)
    }

    /** The bytes of a chunk that are left for plain text whatever the padding. */
    function PayloadSize(): int {
      BUF_SIZE - auth.cipher.overhead - codec.sizeBytes - Setup().MaxPad()
    }

    /** What is on the wire are the chunks, each sealed with the keys of its place. */
    ghost predicate Framed()
      reads this, auth
    {
      && sent == Wire(Setup(), 0, chunks) && auth.calls == sizes == |chunks|
      && forall i :: 0 <= i < |chunks| ==> Size(Setup(), chunks[i]) < 0x1_0000
    }

    /** And the padding generator has been called once for each chunk, too. */
    ghost predicate InStep()
      reads this, auth
    {
      Framed() && (padding.Some? ==> pads == |chunks|) && InPlace(Setup(), chunks)
    }

    /** One chunk, unless it is too large for a buffer; the padding generator has then been called in vain. */
    method Seal(b: bytes, ghost k: nat) returns (eb: Option<bytes>, ghost c: Chunk)
      requires Setup().Good() && auth.calls == sizes == k
      modifies this`pads, this`sizes, auth
      ensures eb.Some? <==> Fits(Setup(), old(pads), b)
      ensures eb.Some? ==> eb.value == WireOf(Setup(), k, c) && c.plain == b && |c.pad| == Setup().Pad(old(pads))
                             && Size(Setup(), c) < 0x1_0000
      ensures auth.calls == sizes == (if eb.Some? then k + 1 else k)
              && pads == old(pads) + (if padding.Some? then 1 else 0)
    {
      hide Inverts, GoodCodec;
      var paddingSize := 0;
      if padding.Some? {
        paddingSize := padding.value.next(pads);
        pads := pads + 1;
      }
      c := Chunk([], []);
      var encryptedSize := |b| + auth.cipher.overhead;
      if codec.sizeBytes + encryptedSize + paddingSize > BUF_SIZE {
        return None, c;
      }
      var field := codec.encode(sizes, encryptedSize + paddingSize);
      sizes := sizes + 1;
      var sealed := auth.Seal(b);
      var random := SomeBytes(paddingSize);
      c := Chunk(b, random);
      assert field + (sealed.value + random) == field + sealed.value + random;
      return Some(field + sealed.value + random), c;
    }

    /** A write without content ends the stream; any other write never does. */
    method WriteMultiBuffer(mb: seq<bytes>)
      requires Setup().Good() && InStep() && PayloadSize() > 0
      modifies this`pads, this`sizes, this`sent, this`chunks, auth
      ensures Framed() && old(chunks) <= chunks
      ensures Flat(mb) == [] ==>
                InStep() && |chunks| == |old(chunks)| + 1 && chunks[|old(chunks)|].plain == []
      ensures Flat(mb) != [] ==> forall c :: c in chunks[|old(chunks)|..] ==> c.plain != []
      ensures Flat(mb) != [] && !packet ==> InStep() && Flat(Plains(chunks[|old(chunks)|..])) == Flat(mb)
      ensures Flat(mb) != [] && packet ==>
                && Plains(chunks[|old(chunks)|..]) == Kept(Setup(), old(pads), mb)
                && (InStep() <==> padding.None? || |Kept(Setup(), old(pads), mb)| == |Solid(mb)|)
                && ((forall b :: b in mb ==> |b| <= PayloadSize()) ==> Plains(chunks[|old(chunks)|..]) == Solid(mb))
    {
      hide Flat, Wire, WireOf, Inverts, GoodCodec, Kept, Solid, MayBe;
      ghost var before := chunks;
      if Flat(mb) == [] {
        ghost var p := pads;
        assert Setup().Pad(p) <= Setup().MaxPad();
        var e, c := Seal([], |before|);
        NothingQueued(Setup(), before);
        QueueOne(Setup(), before, [], [], c);
        assert before + ([] + [c]) == before + [c] && [] + e.value == e.value;
        InPlaceOne(Setup(), before, c, p);
        Commit(before, [c], e.value);
      } else if packet {
        WritePackets(mb);
        KeptSolid(Setup(), old(pads), mb);
        PlainsOf(chunks[|before|..]);
      } else {
        WriteStream(mb);
        PlainsOf(chunks[|before|..]);
      }
    }

    /** One write as a stream: chunks that join up to it, none of them empty. */
    method WriteStream(mb: seq<bytes>)
      requires Setup().Good() && InStep() && PayloadSize() > 0 && Flat(mb) != []
      modifies this`pads, this`sizes, this`sent, this`chunks, auth
      ensures InStep() && old(chunks) <= chunks
      ensures var new' := Plains(chunks[|old(chunks)|..]);
              && Flat(new') == Flat(mb) && (forall p :: p in new' ==> 0 < |p| <= PayloadSize())
              && forall i :: 0 <= i < |new'| - 1 ==>
                   |new'[i]| + auth.cipher.overhead + codec.sizeBytes
                   + (if padding.Some? then padding.value.max else 0) == 8192
    {
      hide AllOfSize, Flat, Plains, Wire, WireOf, MayBe, Inverts, GoodCodec, Queued, Size;
      ghost var before, all := chunks, Flat(mb);
      var out: bytes := [];
      ghost var got: seq<Chunk> := [];
      var left := mb;
      NoneOfSize(PayloadSize());
      NothingQueued(Setup(), before);
      assert before + [] == before;
      while Flat(left) != []
        invariant Queued(Setup(), before, got, out) && InPlace(Setup(), before + got) && chunks == before
                  && sent == old(sent)
        invariant auth.calls == sizes == |before| + |got| && (padding.Some? ==> pads == |before| + |got|)
        invariant Flat(Plains(got)) + Flat(left) == all
        invariant AllOfSize(got, PayloadSize(), Flat(left) == [])
        decreases |Flat(left)|
      {
        ghost var k := |before| + |got|;
        var rest, rawBytes := SplitBytes(left, PayloadSize());
        assert Setup().Pad(k) <= Setup().MaxPad();
        ghost var p := pads;
        var e, c := Seal(rawBytes, k);
        InPlaceOne(Setup(), before + got, c, p);
        assert before + (got + [c]) == before + got + [c];
        QueueOne(Setup(), before, got, out, c);
        assert Flat(Plains(got)) + (rawBytes + Flat(rest)) == Flat(Plains(got)) + rawBytes + Flat(rest);
        OneOfSize(got, PayloadSize(), c, Flat(rest) == []);
        out, got, left := out + e.value, got + [c], rest;
      }
      assert Flat(Plains(got)) + [] == Flat(Plains(got));
      SizesOfPlains(got, PayloadSize());
      Commit(before, got, out);
    }

    /** The chunks of one write go out together. */
    method Commit(ghost before: seq<Chunk>, ghost got: seq<Chunk>, out: bytes)
      requires Queued(Setup(), before, got, out) && chunks == before && sent == Wire(Setup(), 0, before)
      requires auth.calls == sizes == |before| + |got|
      modifies this`sent, this`chunks
      ensures Framed() && chunks == before + got && chunks[|before|..] == got
    {
      hide Wire;
      sent := sent + out;
      chunks := chunks + got;
      assert chunks[|before|..] == got;
    }

    /**
     * One write as packets: each buffer that is not empty and fits in a chunk of its own. A dropped packet takes a
     * padding length with it, and paddings are out of step from then on.
     */
    method WritePackets(mb: seq<bytes>)
      requires Setup().Good() && InStep()
      modifies this`pads, this`sizes, this`sent, this`chunks, auth
      ensures Framed() && old(chunks) <= chunks
      ensures Plains(chunks[|old(chunks)|..]) == Kept(Setup(), old(pads), mb)
      ensures InStep() <==> padding.None? || |Kept(Setup(), old(pads), mb)| == |Solid(mb)|
      ensures (forall b :: b in mb ==> |b| <= PayloadSize()) ==>
                InStep() && Plains(chunks[|old(chunks)|..]) == Solid(mb)
    {
      hide Flat, Plains, Wire, WireOf, MayBe, Inverts, GoodCodec, Queued, Solid, Kept, InPlace, Fits, Size;
      ghost var before := chunks;
      var out: bytes := [];
      ghost var got: seq<Chunk> := [];
      ghost var dropped: nat := 0;
      var i := 0;
      NothingQueued(Setup(), before);
      assert before + [] == before;
      assert mb[0..] == mb;
      while i < |mb|
        invariant 0 <= i <= |mb| && Queued(Setup(), before, got, out) && chunks == before && sent == old(sent)
        invariant auth.calls == sizes == |before| + |got|
        invariant pads == if padding.Some? then |before| + |got| + dropped else old(pads)
        invariant Plains(got) + Kept(Setup(), pads, mb[i..]) == Kept(Setup(), old(pads), mb)
        invariant |got| + dropped + |Solid(mb[i..])| == |Solid(mb)|
        invariant dropped == 0 || padding.None? ==> InPlace(Setup(), before + got)
      {
        ghost var k, atLoop, kept := |before| + |got|, pads, Kept(Setup(), old(pads), mb);
        KeptHead(Setup(), pads, mb[i..]);
        assert mb[i..][1..] == mb[i + 1..];
        if mb[i] != [] {
          var e, c := Seal(mb[i], k);
          if e.Some? {
            QueueOne(Setup(), before, got, out, c);
            Regroup(Plains(got), mb[i], Kept(Setup(), pads, mb[i + 1..]));
            InPlaceOne(Setup(), before + got, c, atLoop);
            assert before + (got + [c]) == before + got + [c];
            out, got := out + e.value, got + [c];
            assert Plains(got) + Kept(Setup(), pads, mb[i + 1..]) == kept;
          } else {
            dropped := dropped + 1;
            assert Plains(got) + Kept(Setup(), pads, mb[i + 1..]) == kept;
          }
        }
        i := i + 1;
      }
      assert Plains(got) + [] == Plains(got) && mb[i..] == [];
      NothingKept(Setup(), pads);
      Commit(before, got, out);
      if forall b :: b in mb ==> |b| <= PayloadSize() {
        AllKept(Setup(), old(pads), mb);
      }
    }
  }

  /** No chunk is empty or longer than `size`, and all are as long but perhaps the last. */
  ghost predicate AllOfSize(chunks: seq<Chunk>, size: int, over: bool) {
    && (forall i :: 0 <= i < |chunks| ==> 0 < |chunks[i].plain| <= size)
    && forall i :: 0 <= i < |chunks| && (!over || i < |chunks| - 1) ==> |chunks[i].plain| == size
  }

  lemma OneOfSize(chunks: seq<Chunk>, size: int, c: Chunk, over: bool)
    requires AllOfSize(chunks, size, false) && 0 < |c.plain| <= size && (over || |c.plain| == size)
    ensures AllOfSize(chunks + [c], size, over)
  {
  }

  lemma SizesOfPlains(chunks: seq<Chunk>, size: int)
    requires AllOfSize(chunks, size, true)
    ensures forall p :: p in Plains(chunks) ==> 0 < |p| <= size
    ensures forall i :: 0 <= i < |Plains(chunks)| - 1 ==> |Plains(chunks)[i]| == size
  {
  }

  lemma NoneOfSize(size: int)
    ensures AllOfSize([], size, false)
  {
  }

  lemma Regroup(a: seq<bytes>, b: bytes, c: seq<bytes>)
    ensures a + ([b] + c) == a + [b] + c
  {
  }

  /** A chunk fits exactly if it takes at most 8192 bytes on the wire. */
  lemma FitsBuffer(s: Setup, k: nat, p: nat, c: Chunk)
    requires s.Good() && |c.pad| == s.Pad(p)
    ensures Fits(s, p, c.plain) <==> Size(s, c) < 0x1_0000 && |WireOf(s, k, c)| <= 8192
  {
    if Size(s, c) < 0x1_0000 {
      assert |s.codec.encode(k, Size(s, c))| == s.codec.sizeBytes;
      assert |s.SealAt(k, c.plain)| == |c.plain| + s.cipher.overhead;
    }
  }

  /** A chunk with `b` and the padding of call `p` fits into a buffer. */
  predicate Fits(s: Setup, p: nat, b: bytes) {
    |b| + s.codec.sizeBytes + s.cipher.overhead + s.Pad(p) <= BUF_SIZE
  }

  /** The packets that are not dropped, when the padding generator has been called `p` times. */
  function Kept(s: Setup, p: nat, mb: seq<bytes>): seq<bytes>
    decreases |mb|
  {
    if mb == [] then []
    else if mb[0] == [] then Kept(s, p, mb[1..])
    else (if Fits(s, p, mb[0]) then [mb[0]] else []) + Kept(s, if s.padding.Some? then p + 1 else p, mb[1..])
  }

  lemma KeptHead(s: Setup, p: nat, mb: seq<bytes>)
    requires mb != []
    ensures var next := if s.padding.Some? then p + 1 else p;
            && (mb[0] == [] ==> Kept(s, p, mb) == Kept(s, p, mb[1..]) && Solid(mb) == Solid(mb[1..]))
            && (mb[0] != [] ==>
                  Solid(mb) == [mb[0]] + Solid(mb[1..])
                  && Kept(s, p, mb) ==
                       if Fits(s, p, mb[0]) then [mb[0]] + Kept(s, next, mb[1..]) else Kept(s, next, mb[1..]))
  {
    assert [] + Solid(mb[1..]) == Solid(mb[1..]);
    assert forall x :: [] + Kept(s, x, mb[1..]) == Kept(s, x, mb[1..]);
  }

  lemma PlainsOf(chunks: seq<Chunk>)
    ensures forall c :: c in chunks ==> c.plain in Plains(chunks)
  {
    forall i | 0 <= i < |chunks|
      ensures chunks[i].plain in Plains(chunks)
    {
      assert Plains(chunks)[i] == chunks[i].plain;
    }
  }

  lemma {:induction false} KeptSolid(s: Setup, p: nat, mb: seq<bytes>)
    ensures forall b :: b in Kept(s, p, mb) ==> b != []
    decreases |mb|
  {
    if mb != [] {
      KeptHead(s, p, mb);
      KeptSolid(s, p, mb[1..]);
      KeptSolid(s, p + 1, mb[1..]);
    }
  }

  lemma NothingKept(s: Setup, p: nat)
    ensures Kept(s, p, []) == [] && Solid([]) == []
  {
  }

  /** Packets that fit whatever the padding are all kept. */
  lemma {:induction false} AllKept(s: Setup, p: nat, mb: seq<bytes>)
    requires s.Good() && forall b :: b in mb ==> |b| + s.codec.sizeBytes + s.cipher.overhead + s.MaxPad() <= BUF_SIZE
    ensures Kept(s, p, mb) == Solid(mb)
    decreases |mb|
  {
    if mb != [] {
      KeptHead(s, p, mb);
      assert s.Pad(p) <= s.MaxPad() && s.Pad(p + 1) <= s.MaxPad();
      AllKept(s, p, mb[1..]);
      AllKept(s, p + 1, mb[1..]);
    }
  }

  /** Each chunk has the padding length of its place. */
  ghost predicate InPlace(s: Setup, chunks: seq<Chunk>) {
    forall i :: 0 <= i < |chunks| ==> MayBe(s, i, chunks[i])
  }

  lemma InPlaceOne(s: Setup, chunks: seq<Chunk>, c: Chunk, p: nat)
    requires |c.pad| == s.Pad(p) && Size(s, c) < 0x1_0000
    ensures InPlace(s, chunks) && (s.padding.None? || p == |chunks|) ==> InPlace(s, chunks + [c])
  {
  }

  /** Chunks `got` have been sealed behind `before` but are not on the wire yet. */
  ghost predicate Queued(s: Setup, before: seq<Chunk>, got: seq<Chunk>, out: bytes) {
    && Wire(s, 0, before + got) == Wire(s, 0, before) + out
    && forall i :: 0 <= i < |before + got| ==> Size(s, (before + got)[i]) < 0x1_0000
  }

  lemma NothingQueued(s: Setup, before: seq<Chunk>)
    requires forall i :: 0 <= i < |before| ==> Size(s, before[i]) < 0x1_0000
    ensures Queued(s, before, [], []) && Flat(Plains([])) == []
  {
    assert before + [] == before;
    assert Wire(s, 0, before) + [] == Wire(s, 0, before);
  }

  lemma QueueOne(s: Setup, before: seq<Chunk>, got: seq<Chunk>, out: bytes, c: Chunk)
    requires Queued(s, before, got, out) && Size(s, c) < 0x1_0000
    ensures Queued(s, before, got + [c], out + WireOf(s, |before| + |got|, c))
    ensures Plains(got + [c]) == Plains(got) + [c.plain] && Flat(Plains(got + [c])) == Flat(Plains(got)) + c.plain
  {
    hide Wire, WireOf, Flat, Size;
    assert before + (got + [c]) == before + got + [c];
    WireSnoc(s, 0, before + got, c);
    FlatSnoc(Plains(got), c.plain);
    assert Plains(got + [c]) == Plains(got) + [c.plain];
    var w := WireOf(s, |before| + |got|, c);
    assert Wire(s, 0, before) + out + w == Wire(s, 0, before) + (out + w);
  }

  method SomeBytes(n: nat) returns (random: bytes)
    ensures |random| == n
  {
    random := [];
    while |random| < n
      invariant |random| <= n
    {
      var b: byte := *;
      random := random + [b];
    }
  }
}
