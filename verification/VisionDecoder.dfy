/** The incremental Vision decoder: what one piece does to the carried state, and what whole runs return. */
module VisionDecoder {
  import opened ByteSeq
  import opened VisionPadding

  /** The carried counters: header bytes, content bytes and padding bytes still to come. */
  datatype Unpadder = Unpadder(command: int, content: int, padding: int, current: int)

  const INITIAL := Unpadder(-1, -1, -1, 0)

  predicate Idle(u: Unpadder) {
    u.command == -1 && u.content == -1 && u.padding == -1
  }

  predicate Active(u: Unpadder) {
    u.command > 0 || u.content > 0 || u.padding > 0
  }

  /** The test after every step: a finished block asks for the next header or ends the padded part. */
  function Settle(u: Unpadder): Unpadder {
    if Active(u) then u
    else if u.current == 0 then u.(command := 5)
    else Unpadder(-1, -1, -1, u.current)
  }

  function HeaderByte(u: Unpadder, d: byte): Unpadder {
    var v :=
      if u.command == 5 then u.(current := d)
      else if u.command == 4 then u.(content := (d as int) * 256)
      else if u.command == 3 then u.(content := u.content + d)
      else if u.command == 2 then u.(padding := (d as int) * 256)
      else if u.command == 1 then u.(padding := u.padding + d)
      else u;
    v.(command := u.command - 1)
  }

  /** One byte inside the padded part. */
  function Feed(u: Unpadder, d: byte): (Unpadder, bytes) {
    if u.command > 0 then (Settle(HeaderByte(u, d)), [])
    else if u.content > 0 then (Settle(u.(content := u.content - 1)), [d])
    else (Settle(u.(padding := u.padding - 1)), [])
  }

  /** Bytes fed one by one; once the padded part has ended, the rest passes through. */
  function Unpad(u: Unpadder, p: bytes): (Unpadder, bytes)
    decreases p
  {
    if p == [] then (u, [])
    else if Idle(u) then (u, p)
    else
      var (v, d) := Feed(u, p[0]);
      var (w, rest) := Unpad(v, p[1..]);
      (w, d + rest)
  }

  predicate Starts(uuid: bytes, p: bytes) {
    |p| >= 21 && uuid == p[..UUID_LEN]
  }

  /** One call of the decoder on one buffer. */
  function UnpadPiece(uuid: bytes, u: Unpadder, p: bytes): (Unpadder, bytes) {
    if Idle(u) && Starts(uuid, p) then Unpad(u.(command := 5), p[UUID_LEN..]) else Unpad(u, p)
  }

  /** An idle decoder lets everything through that does not begin with the identifier and a header. */
  lemma IdlePiece(uuid: bytes, u: Unpadder, p: bytes)
    requires Idle(u) && |uuid| == 16
    ensures UnpadPiece(uuid, u, p) ==
              if |p| >= 21 && p[..16] == uuid then Unpad(u.(command := 5), p[16..]) else (u, p)
  {
  }

  function UnpadRun(uuid: bytes, u: Unpadder, pieces: seq<bytes>): (Unpadder, bytes)
    decreases pieces
  {
    if pieces == [] then (u, [])
    else
      var (v, d) := UnpadPiece(uuid, u, pieces[0]);
      var (w, rest) := UnpadRun(uuid, v, pieces[1..]);
      (w, d + rest)
  }

  // ---------------------------------------------------------------------------------------------
  // One piece

  lemma {:induction false} UnpadAppend(u: Unpadder, p: bytes, q: bytes)
    ensures Unpad(u, p + q).0 == Unpad(Unpad(u, p).0, q).0
    ensures Unpad(u, p + q).1 == Unpad(u, p).1 + Unpad(Unpad(u, p).0, q).1
    decreases p
  {
    if p == [] {
      assert p + q == q;
    } else if Idle(u) {
    } else {
      assert (p + q)[1..] == p[1..] + q;
      UnpadAppend(Feed(u, p[0]).0, p[1..], q);
    }
  }

  lemma {:induction false} UnpadShrinks(u: Unpadder, p: bytes)
    ensures |Unpad(u, p).1| <= |p|
    decreases p
  {
    if p != [] && !Idle(u) {
      UnpadShrinks(Feed(u, p[0]).0, p[1..]);
    }
  }

  /** `k` content bytes in one go. */
  lemma {:induction false} UnpadContent(u: Unpadder, p: bytes, k: nat)
    requires u.command <= 0 && 0 < k <= u.content && k <= |p|
    ensures var v := Settle(u.(content := u.content - k));
            Unpad(u, p) == (Unpad(v, p[k..]).0, p[..k] + Unpad(v, p[k..]).1)
    decreases k
  {
    var v := u.(content := u.content - 1);
    assert Unpad(u, p) == (Unpad(Settle(v), p[1..]).0, [p[0]] + Unpad(Settle(v), p[1..]).1);
    if k > 1 {
      UnpadContent(v, p[1..], k - 1);
      assert p[1..][k - 1..] == p[k..];
      var rest := Unpad(Settle(u.(content := u.content - k)), p[k..]).1;
      assert [p[0]] + (p[1..][..k - 1] + rest) == p[..k] + rest;
    } else {
      assert [p[0]] == p[..1];
    }
  }

  /** `k` padding bytes in one go. */
  lemma {:induction false} UnpadPadding(u: Unpadder, p: bytes, k: nat)
    requires u.command <= 0 && u.content <= 0 && 0 < k <= u.padding && k <= |p|
    ensures Unpad(u, p) == Unpad(Settle(u.(padding := u.padding - k)), p[k..])
    decreases k
  {
    var v := u.(padding := u.padding - 1);
    UnpadSilent(u, p);
    if k > 1 {
      UnpadPadding(v, p[1..], k - 1);
      assert p[1..][k - 1..] == p[k..];
    }
  }

  /** A step that yields no content. */
  lemma UnpadSilent(u: Unpadder, p: bytes)
    requires p != [] && !Idle(u) && Feed(u, p[0]).1 == []
    ensures Unpad(u, p) == Unpad(Feed(u, p[0]).0, p[1..])
  {
    var rest := Unpad(Feed(u, p[0]).0, p[1..]).1;
    assert [] + rest == rest;
  }

  lemma UnpadNothing(u: Unpadder)
    ensures Unpad(u, []) == (u, [])
  {
  }

  lemma UnpadHeader(u: Unpadder, h: bytes)
    requires u.command == 5 && |h| == 5
    ensures Unpad(u, h) == (Settle(Unpadder(0, FromU16(h[1], h[2]), FromU16(h[3], h[4]), h[0])), [])
  {
    hide Unpad, Settle, U16;
    var u1 := Unpadder(4, u.content, u.padding, h[0]);
    var u2 := Unpadder(3, (h[1] as int) * 256, u.padding, h[0]);
    var u3 := Unpadder(2, FromU16(h[1], h[2]), u.padding, h[0]);
    var u4 := Unpadder(1, FromU16(h[1], h[2]), (h[3] as int) * 256, h[0]);
    HeaderStep(u, h, u1);
    HeaderStep(u1, h[1..], u2);
    HeaderStep(u2, h[2..], u3);
    HeaderStep(u3, h[3..], u4);
    UnpadSilent(u4, h[4..]);
    assert h[1..][1..] == h[2..] && h[2..][1..] == h[3..] && h[3..][1..] == h[4..] && h[4..][1..] == [];
    UnpadNothing(Feed(u4, h[4]).0);
  }

  lemma HeaderStep(u: Unpadder, p: bytes, v: Unpadder)
    requires p != [] && u.command > 1 && HeaderByte(u, p[0]) == v
    ensures Unpad(u, p) == Unpad(v, p[1..])
  {
    UnpadSilent(u, p);
  }

  lemma UnpadBody(content: bytes, padding: bytes, current: int)
    ensures var u := Settle(Unpadder(0, |content|, |padding|, current));
            Unpad(u, content + padding) == (Settle(Unpadder(0, 0, 0, current)), content)
  {
    var u := Unpadder(0, |content|, |padding|, current);
    var body := content + padding;
    if content != [] {
      UnpadContent(u, body, |content|);
      assert body[..|content|] == content && body[|content|..] == padding;
      assert content + [] == content;
    } else {
      assert body == padding;
    }
    var v := u.(content := 0);
    if padding != [] {
      UnpadPadding(v, padding, |padding|);
      assert padding[|padding|..] == [];
    }
  }

  function HeaderOf(b: Block): bytes {
    [b.command] + U16(|b.content|) + U16(|b.padding|)
  }

  lemma HeaderFields(b: Block)
    requires |b.content| < 0x1_0000 && |b.padding| < 0x1_0000
    ensures var h := HeaderOf(b);
            && |h| == 5 && h[0] == b.command
            && FromU16(h[1], h[2]) == |b.content| && FromU16(h[3], h[4]) == |b.padding|
  {
    hide U16;
  }

  lemma UnpadPastHeader(u: Unpadder, b: Block, rest: bytes)
    requires u.command == 5 && |b.content| < 0x1_0000 && |b.padding| < 0x1_0000
    ensures Unpad(u, HeaderOf(b) + rest) == Unpad(Settle(Unpadder(0, |b.content|, |b.padding|, b.command)), rest)
  {
    hide Unpad, Settle, U16, HeaderOf;
    var h := HeaderOf(b);
    HeaderFields(b);
    UnpadHeader(u, h);
    UnpadAppend(u, h, rest);
    EmptyPrefix(Unpad(Settle(Unpadder(0, |b.content|, |b.padding|, b.command)), rest).1);
  }

  lemma EmptyPrefix(p: bytes)
    ensures [] + p == p
  {
  }

  lemma UnpadBlock(u: Unpadder, b: Block)
    requires u.command == 5 && |b.content| < 0x1_0000 && |b.padding| < 0x1_0000
    ensures Unpad(u, EncodeBlock(b)) == (Settle(Unpadder(0, 0, 0, b.command)), b.content)
  {
    hide Unpad, Settle;
    assert EncodeBlock(b) == HeaderOf(b) + (b.content + b.padding);
    UnpadPastHeader(u, b, b.content + b.padding);
    UnpadBody(b.content, b.padding, b.command);
  }

  /** A chain of blocks decodes to its contents; a terminated one leaves the decoder idle. */
  lemma {:induction false} UnpadBlocks(u: Unpadder, bs: seq<Block>)
    requires u.command == 5 && Encodable(bs) && Chain(bs)
    ensures Unpad(u, EncodeBlocks(bs)).1 == Contents(bs)
    ensures Terminated(bs) ==>
              Idle(Unpad(u, EncodeBlocks(bs)).0) && Unpad(u, EncodeBlocks(bs)).0.current == bs[|bs| - 1].command
    ensures !Terminated(bs) ==> Unpad(u, EncodeBlocks(bs)).0.command == 5
    decreases bs
  {
    if bs != [] {
      UnpadBlock(u, bs[0]);
      UnpadAppend(u, EncodeBlock(bs[0]), EncodeBlocks(bs[1..]));
      if |bs| == 1 {
        assert bs[1..] == [];
        assert Unpad(u, EncodeBlocks(bs)).1 == bs[0].content + [];
      } else {
        assert bs[0].command == COMMAND_CONTINUE;
        assert forall i :: 0 <= i < |bs[1..]| ==> bs[1..][i] == bs[i + 1];
        UnpadBlocks(Unpadder(5, 0, 0, 0), bs[1..]);
        assert Terminated(bs) <==> Terminated(bs[1..]);
      }
    }
  }

  // ---------------------------------------------------------------------------------------------
  // Whole runs

  /**
   * No piece that begins when the decoder is idle looks like the start of a padded part.
   * `left` counts the bytes before the decoder becomes idle.
   */
  predicate NoFalseStart(uuid: bytes, pieces: seq<bytes>, left: int) {
    pieces == [] ||
    (&& !(left <= 0 && Starts(uuid, pieces[0]))
     && NoFalseStart(uuid, pieces[1..], left - |pieces[0]|))
  }

  /** The same condition by the state the decoder is in. */
  predicate Quiet(uuid: bytes, u: Unpadder, pieces: seq<bytes>)
    decreases pieces
  {
    pieces == [] ||
    (&& !(Idle(u) && Starts(uuid, pieces[0]))
     && Quiet(uuid, Unpad(u, pieces[0]).0, pieces[1..]))
  }

  lemma {:induction false} RunShrinks(uuid: bytes, u: Unpadder, pieces: seq<bytes>)
    ensures |UnpadRun(uuid, u, pieces).1| <= |Flat(pieces)|
    decreases pieces
  {
    if pieces != [] {
      var (v, d) := UnpadPiece(uuid, u, pieces[0]);
      UnpadShrinks(u, pieces[0]);
      if Starts(uuid, pieces[0]) {
        UnpadShrinks(u.(command := 5), pieces[0][UUID_LEN..]);
      }
      RunShrinks(uuid, v, pieces[1..]);
    }
  }

  /** Cutting the bytes into pieces makes a difference exactly when an idle decoder meets a false start. */
  lemma {:induction false} SplitInvariant(uuid: bytes, u: Unpadder, pieces: seq<bytes>)
    requires |uuid| == UUID_LEN
    ensures Quiet(uuid, u, pieces) ==> UnpadRun(uuid, u, pieces) == Unpad(u, Flat(pieces))
    ensures !Quiet(uuid, u, pieces) ==> |UnpadRun(uuid, u, pieces).1| < |Unpad(u, Flat(pieces)).1|
    decreases pieces
  {
    if pieces != [] {
      var p := pieces[0];
      UnpadAppend(u, p, Flat(pieces[1..]));
      if Idle(u) && Starts(uuid, p) {
        UnpadShrinks(u.(command := 5), p[UUID_LEN..]);
        RunShrinks(uuid, UnpadPiece(uuid, u, p).0, pieces[1..]);
      } else {
        SplitInvariant(uuid, Unpad(u, p).0, pieces[1..]);
      }
    }
  }

  lemma {:induction false} HeaderCountsDown(u: Unpadder, p: bytes)
    requires u.command > |p|
    ensures Unpad(u, p).0.command == u.command - |p|
    decreases p
  {
    if p != [] {
      HeaderCountsDown(Feed(u, p[0]).0, p[1..]);
    }
  }

  /** Inside a block the decoder is never idle. */
  lemma BusyInsideBlock(u: Unpadder, b: Block, k: nat)
    requires u.command == 5 && |b.content| < 0x1_0000 && |b.padding| < 0x1_0000
    requires k < |EncodeBlock(b)|
    ensures !Idle(Unpad(u, EncodeBlock(b)[..k]).0)
  {
    hide Unpad, Settle;
    var body := b.content + b.padding;
    assert EncodeBlock(b) == HeaderOf(b) + body;
    if k < 5 {
      HeaderCountsDown(u, EncodeBlock(b)[..k]);
    } else {
      assert EncodeBlock(b)[..k] == HeaderOf(b) + body[..k - 5];
      UnpadPastHeader(u, b, body[..k - 5]);
      BusyInsideBody(b.content, b.padding, b.command, k - 5);
    }
  }

  lemma BusyInsideBody(content: bytes, padding: bytes, current: int, j: nat)
    requires j < |content| + |padding|
    ensures !Idle(Unpad(Settle(Unpadder(0, |content|, |padding|, current)), (content + padding)[..j]).0)
  {
    var u := Unpadder(0, |content|, |padding|, current);
    var p := (content + padding)[..j];
    var c := if j < |content| then j else |content|;
    var v := u.(content := |content| - c);
    if c > 0 {
      UnpadContent(u, p, c);
    } else {
      assert p[c..] == p;
    }
    if j > c {
      UnpadPadding(v, p[c..], j - c);
      assert p[c..][j - c..] == [];
    } else {
      assert p[c..] == [];
    }
  }

  lemma IdlePassesThrough(u: Unpadder, p: bytes)
    requires Idle(u)
    ensures Unpad(u, p) == (u, p)
  {
  }

  lemma BlockDone(command: byte)
    ensures command == COMMAND_CONTINUE ==> Settle(Unpadder(0, 0, 0, command)) == Unpadder(5, 0, 0, 0)
    ensures command != COMMAND_CONTINUE ==> Idle(Settle(Unpadder(0, 0, 0, command)))
  {
  }

  /** Over a chain and what follows it, the decoder is idle exactly from the end of a terminated chain on. */
  lemma {:induction false} IdleExactlyAfterChain(u: Unpadder, bs: seq<Block>, tail: bytes, n: nat)
    requires u.command == 5 && Encodable(bs) && Chain(bs) && bs != []
    requires tail != [] ==> Terminated(bs)
    requires n <= |EncodeBlocks(bs) + tail|
    ensures Idle(Unpad(u, (EncodeBlocks(bs) + tail)[..n]).0) <==> Terminated(bs) && n >= |EncodeBlocks(bs)|
    decreases bs
  {
    hide Unpad, Settle, EncodeBlock;
    var e := EncodeBlock(bs[0]);
    var s := EncodeBlocks(bs) + tail;
    var s' := EncodeBlocks(bs[1..]) + tail;
    assert s == e + s';
    if n < |e| {
      assert s[..n] == e[..n];
      BusyInsideBlock(u, bs[0], n);
    } else {
      assert s[..n] == e + s'[..n - |e|];
      UnpadBlock(u, bs[0]);
      UnpadAppend(u, e, s'[..n - |e|]);
      BlockDone(bs[0].command);
      if |bs| == 1 {
        assert bs[1..] == [];
        if Terminated(bs) {
          IdlePassesThrough(Settle(Unpadder(0, 0, 0, bs[0].command)), s'[..n - |e|]);
        } else {
          assert s'[..n - |e|] == [];
          UnpadNothing(Unpadder(5, 0, 0, 0));
        }
      } else {
        assert bs[0].command == COMMAND_CONTINUE;
        assert forall i :: 0 <= i < |bs[1..]| ==> bs[1..][i] == bs[i + 1];
        IdleExactlyAfterChain(Unpadder(5, 0, 0, 0), bs[1..], tail, n - |e|);
      }
    }
  }

  /** `s` makes the decoder idle from byte `end` on, or never and then ends there. */
  ghost predicate IdleFrom(u0: Unpadder, s: bytes, end: nat, ends: bool) {
    && end <= |s|
    && (!ends ==> end == |s|)
    && forall n: nat :: n <= |s| ==> (Idle(Unpad(u0, s[..n]).0) <==> ends && n >= end)
  }

  /** Later pieces: the condition by byte counts is the condition by states. */
  lemma {:induction false} QuietByCounts(uuid: bytes, u0: Unpadder, s: bytes, end: nat, ends: bool, n: nat,
                                         pieces: seq<bytes>)
    requires |uuid| == UUID_LEN && IdleFrom(u0, s, end, ends)
    requires n <= |s| && s[n..] == Flat(pieces)
    ensures Quiet(uuid, Unpad(u0, s[..n]).0, pieces) <==> NoFalseStart(uuid, pieces, end - n)
    decreases pieces
  {
    hide Unpad;
    if pieces != [] {
      var p := pieces[0];
      assert s[n..][..|p|] == p && s[n..][|p|..] == Flat(pieces[1..]);
      assert s[..n + |p|] == s[..n] + p;
      assert s[n + |p|..] == s[n..][|p|..];
      UnpadAppend(u0, s[..n], p);
      QuietByCounts(uuid, u0, s, end, ends, n + |p|, pieces[1..]);
      assert end - (n + |p|) == end - n - |p|;
    }
  }

  /** The first piece strips the identifier and starts the padded part. */
  lemma FirstPiece(uuid: bytes, s: bytes, pieces: seq<bytes>)
    requires |uuid| == UUID_LEN && pieces != [] && |pieces[0]| >= 21
    requires Flat(pieces) == uuid + s
    ensures var n := |pieces[0]| - UUID_LEN;
            && n <= |s| && s[n..] == Flat(pieces[1..])
            && UnpadPiece(uuid, INITIAL, pieces[0]) == Unpad(INITIAL.(command := 5), s[..n])
  {
    hide Unpad;
    CutBehindPrefix(uuid, s, pieces[0], Flat(pieces[1..]));
  }

  lemma RunOnStream(uuid: bytes, s: bytes, end: nat, ends: bool, pieces: seq<bytes>)
    requires |uuid| == UUID_LEN && pieces != [] && |pieces[0]| >= 21
    requires Flat(pieces) == uuid + s
    requires IdleFrom(INITIAL.(command := 5), s, end, ends)
    ensures Quiet(uuid, UnpadPiece(uuid, INITIAL, pieces[0]).0, pieces[1..])
       <==> NoFalseStart(uuid, pieces[1..], end - (|pieces[0]| - UUID_LEN))
    ensures UnpadRun(uuid, INITIAL, pieces).1 == Unpad(INITIAL.(command := 5), s).1
       <==> NoFalseStart(uuid, pieces[1..], end - (|pieces[0]| - UUID_LEN))
  {
    hide Unpad, IdleFrom;
    var u0 := INITIAL.(command := 5);
    var n := |pieces[0]| - UUID_LEN;
    FirstPiece(uuid, s, pieces);
    var v := Unpad(u0, s[..n]).0;
    SplitInvariant(uuid, v, pieces[1..]);
    QuietByCounts(uuid, u0, s, end, ends, n, pieces[1..]);
    UnpadAppend(u0, s[..n], s[n..]);
    assert s == s[..n] + s[n..];
  }

  lemma IdleFromEnd(bs: seq<Block>, tail: bytes)
    requires Encodable(bs) && Chain(bs) && bs != []
    requires tail != [] ==> Terminated(bs)
    ensures IdleFrom(INITIAL.(command := 5), EncodeBlocks(bs) + tail, |EncodeBlocks(bs)|, Terminated(bs))
  {
    hide Unpad, EncodeBlocks;
    var u0, s := INITIAL.(command := 5), EncodeBlocks(bs) + tail;
    forall k: nat | k <= |s|
      ensures Idle(Unpad(u0, s[..k]).0) <==> Terminated(bs) && k >= |EncodeBlocks(bs)|
    {
      IdleExactlyAfterChain(u0, bs, tail, k);
    }
  }

  lemma QuietAfterFirstPiece(uuid: bytes, bs: seq<Block>, tail: bytes, pieces: seq<bytes>)
    requires |uuid| == UUID_LEN && Encodable(bs) && Chain(bs) && bs != []
    requires tail != [] ==> Terminated(bs)
    requires pieces != [] && |pieces[0]| >= 21
    requires Flat(pieces) == uuid + EncodeBlocks(bs) + tail
    ensures Quiet(uuid, UnpadPiece(uuid, INITIAL, pieces[0]).0, pieces[1..])
       <==> NoFalseStart(uuid, pieces[1..], |uuid| + |EncodeBlocks(bs)| - |pieces[0]|)
  {
    hide Unpad, UnpadRun, UnpadPiece, EncodeBlocks, NoFalseStart, Quiet;
    assert uuid + EncodeBlocks(bs) + tail == uuid + (EncodeBlocks(bs) + tail);
    IdleFromEnd(bs, tail);
    RunOnStream(uuid, EncodeBlocks(bs) + tail, |EncodeBlocks(bs)|, Terminated(bs), pieces);
  }

  /**
   * Padded blocks and the plain bytes after them, cut anywhere behind the first 21 bytes, come back
   * unchanged exactly when no later piece of the plain part looks like the start of a padded one.
   */
  lemma VisionRoundTrip(uuid: bytes, bs: seq<Block>, tail: bytes, pieces: seq<bytes>)
    requires |uuid| == UUID_LEN && Encodable(bs) && Chain(bs) && bs != []
    requires tail != [] ==> Terminated(bs)
    requires pieces != [] && |pieces[0]| >= 21
    requires Flat(pieces) == uuid + EncodeBlocks(bs) + tail
    ensures UnpadRun(uuid, INITIAL, pieces).1 == Contents(bs) + tail
       <==> NoFalseStart(uuid, pieces[1..], |uuid| + |EncodeBlocks(bs)| - |pieces[0]|)
  {
    hide Unpad, UnpadRun, EncodeBlocks, Contents, NoFalseStart;
    assert uuid + EncodeBlocks(bs) + tail == uuid + (EncodeBlocks(bs) + tail);
    IdleFromEnd(bs, tail);
    RunOnStream(uuid, EncodeBlocks(bs) + tail, |EncodeBlocks(bs)|, Terminated(bs), pieces);
    DecodeStream(INITIAL.(command := 5), bs, tail);
  }

  lemma CutBehindPrefix(uuid: bytes, s: bytes, p: bytes, rest: bytes)
    requires uuid + s == p + rest && |p| >= |uuid|
    ensures p[..|uuid|] == uuid
    ensures |p| - |uuid| <= |s| && p[|uuid|..] == s[..|p| - |uuid|] && rest == s[|p| - |uuid|..]
  {
    assert (uuid + s)[..|uuid|] == (p + rest)[..|uuid|];
    assert (uuid + s)[|uuid|..|p|] == (p + rest)[|uuid|..|p|];
    assert (uuid + s)[|p|..] == (p + rest)[|p|..];
  }

  /** Undisturbed, the decoder returns the contents and then the plain bytes. */
  lemma DecodeStream(u: Unpadder, bs: seq<Block>, tail: bytes)
    requires u.command == 5 && Encodable(bs) && Chain(bs)
    requires tail != [] ==> Terminated(bs)
    ensures Unpad(u, EncodeBlocks(bs) + tail).1 == Contents(bs) + tail
  {
    UnpadBlocks(u, bs);
    UnpadAppend(u, EncodeBlocks(bs), tail);
  }
}
