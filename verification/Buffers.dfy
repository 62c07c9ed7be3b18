/** Lists of buffers cut at a size, and a reader that keeps what it has not handed out yet. */
module Buffers {
  import opened ByteSeq

  lemma FlatHead(mb: seq<bytes>)
    requires mb != []
    ensures Flat(mb) == mb[0] + Flat(mb[1..])
  {
  }

  lemma {:induction false} FlatEmpty(mb: seq<bytes>)
    ensures Flat(mb) == [] <==> forall i :: 0 <= i < |mb| ==> mb[i] == []
  {
    if mb != [] {
      FlatEmpty(mb[1..]);
      assert forall i :: 0 < i < |mb| ==> mb[i] == mb[1..][i - 1];
    }
  }

  /** The pieces that are not empty. */
  function Solid(xs: seq<bytes>): seq<bytes> {
    if xs == [] then [] else (if xs[0] == [] then [] else [xs[0]]) + Solid(xs[1..])
  }

  lemma {:induction false} SolidConcat(a: seq<bytes>, b: seq<bytes>)
    ensures Solid(a + b) == Solid(a) + Solid(b)
  {
    if a == [] {
      assert a + b == b;
    } else {
      assert (a + b)[1..] == a[1..] + b;
      SolidConcat(a[1..], b);
    }
  }

  lemma {:induction false} SolidEmpty(xs: seq<bytes>)
    ensures Solid(xs) == [] <==> forall i :: 0 <= i < |xs| ==> xs[i] == []
  {
    if xs != [] {
      SolidEmpty(xs[1..]);
      assert forall i :: 0 < i < |xs| ==> xs[i] == xs[1..][i - 1];
    }
  }

  /**
   * At most `size` bytes off the front: one buffer that is larger by itself is cut, otherwise as many whole
   * buffers as fit.
   */
  method SplitSize(mb: seq<bytes>, size: nat) returns (rest: seq<bytes>, chunk: seq<bytes>)
    requires size > 0
    ensures Flat(mb) == Flat(chunk) + Flat(rest) && |Flat(chunk)| <= size
    ensures rest != [] ==> |Flat(chunk)| + |rest[0]| > size
    ensures if mb != [] && |mb[0]| > size
            then chunk == [mb[0][..size]] && rest == [mb[0][size..]] + mb[1..]
            else mb == chunk + rest
  {
    if |mb| == 0 {
      return mb, [];
    }
    if |mb[0]| > size {
      FlatOne(mb[0][..size]);
      assert ([mb[0][size..]] + mb[1..])[1..] == mb[1..];
      assert mb[0] == mb[0][..size] + mb[0][size..];
      return [mb[0][size..]] + mb[1..], [mb[0][..size]];
    }
    var totalBytes, i := 0, 0;
    chunk := [];
    while i < |mb|
      invariant 0 <= i <= |mb| && chunk == mb[..i] && totalBytes == |Flat(chunk)| <= size
    {
      if totalBytes + |mb[i]| > size {
        break;
      }
      totalBytes := totalBytes + |mb[i]|;
      FlatSnoc(chunk, mb[i]);
      chunk := chunk + [mb[i]];
      i := i + 1;
    }
    rest := mb[i..];
    FlatSplit(mb, i);
    assert mb == mb[..i] + mb[i..];
  }

  /** Up to `n` bytes off the front; emptied buffers are dropped. */
  method SplitBytes(mb: seq<bytes>, n: nat) returns (rest: seq<bytes>, got: bytes)
    ensures Flat(mb) == got + Flat(rest)
    ensures |got| == if |Flat(mb)| < n then |Flat(mb)| else n
    ensures rest != [] ==> rest[0] != [] && |rest| <= |mb|
  {
    hide Flat;
    got := [];
    var i := 0;
    FlatNothing();
    assert mb[..0] == [];
    while i < |mb|
      invariant 0 <= i <= |mb| && got == Flat(mb[..i]) && |got| <= n
    {
      var b := mb[i];
      var k := if |b| < n - |got| then |b| else n - |got|;
      if k < |b| {
        rest := [b[k..]] + mb[i + 1..];
        FlatCut(mb, i, k);
        got := got + b[..k];
        return;
      }
      assert mb[..i + 1] == mb[..i] + [b];
      FlatSnoc(mb[..i], b);
      assert b[..k] == b;
      got := got + b[..k];
      i := i + 1;
    }
    assert mb[..|mb|] == mb;
    rest := [];
  }

  /** Cutting inside buffer `i`. */
  lemma FlatCut(mb: seq<bytes>, i: nat, k: nat)
    requires i < |mb| && k <= |mb[i]|
    ensures Flat(mb) == Flat(mb[..i]) + mb[i][..k] + Flat([mb[i][k..]] + mb[i + 1..])
  {
    hide Flat;
    FlatSplit(mb, i);
    FlatHead(mb[i..]);
    var rest := [mb[i][k..]] + mb[i + 1..];
    FlatHead(rest);
    assert mb[i..][1..] == mb[i + 1..] == rest[1..];
    assert mb[i] == mb[i][..k] + mb[i][k..];
  }

  /** Appends bytes to a list of buffers, filling the last one first. */
  method MergeBytes(dest: seq<bytes>, src: bytes) returns (r: seq<bytes>)
    requires forall b :: b in dest ==> |b| <= BUF_SIZE
    ensures Flat(r) == Flat(dest) + src
    ensures forall b :: b in r ==> |b| <= BUF_SIZE
    ensures |r| >= |dest| && forall i :: 0 <= i < |dest| - 1 ==> r[i] == dest[i]
  {
    hide Flat;
    r := dest;
    var n := |dest|;
    var left := src;
    if n > 0 && |dest[n - 1]| < BUF_SIZE {
      var k := if |src| < BUF_SIZE - |dest[n - 1]| then |src| else BUF_SIZE - |dest[n - 1]|;
      var last := dest[n - 1] + src[..k];
      r, left := dest[..n - 1] + [last], src[k..];
      assert dest == dest[..n - 1] + [dest[n - 1]];
      FlatSnoc(dest[..n - 1], dest[n - 1]);
      FlatSnoc(dest[..n - 1], last);
      assert Flat(dest[..n - 1]) + dest[n - 1] + (src[..k] + src[k..]) ==
          Flat(dest[..n - 1]) + (dest[n - 1] + src[..k]) + left;
      assert src == src[..k] + src[k..];
    }
    while |left| > 0
      invariant Flat(r) + left == Flat(dest) + src
      invariant forall b :: b in r ==> |b| <= BUF_SIZE
      invariant |r| >= |dest| && forall i :: 0 <= i < |dest| - 1 ==> r[i] == dest[i]
    {
      var k := if |left| < BUF_SIZE then |left| else BUF_SIZE;
      FlatSnoc(r, left[..k]);
      assert Flat(r) + (left[..k] + left[k..]) == Flat(r) + left[..k] + left[k..];
      assert left == left[..k] + left[k..];
      r, left := r + [left[..k]], left[k..];
    }
    assert Flat(r) + [] == Flat(r);
  }

  /** The content of everything the source has yet to deliver. */
  function FlatAll(deliveries: seq<seq<bytes>>): bytes {
    if deliveries == [] then [] else Flat(deliveries[0]) + FlatAll(deliveries[1..])
  }

  /** Steps that are left: deliveries, buffers and bytes. */
  function Work(deliveries: seq<seq<bytes>>): nat {
    if deliveries == [] then 0 else 1 + |deliveries[0]| + |Flat(deliveries[0])| + Work(deliveries[1..])
  }

  datatype Status = Ok | Eof | UnexpectedEof | Failed

  /**
   * A reader over a source that delivers buffer lists, cut anywhere, and then ends. Data that
   * arrives together with an error is not part of this model.
   */
  class BufferedReader {
    var buffer: seq<bytes>
    var source: seq<seq<bytes>>

    constructor (source: seq<seq<bytes>>)
      ensures this.source == source && buffer == [] && Remaining() == FlatAll(source)
    {
      this.source := source;
      buffer := [];
    }

    /** All bytes still to be read. */
    function Remaining(): bytes
      reads this
    {
      Flat(buffer) + FlatAll(source)
    }

    function BufferedBytes(): nat
      reads this
    {
      |Flat(buffer)|
    }

    function Left(): nat
      reads this
    {
      |buffer| + |Flat(buffer)| + Work(source)
    }

    /** Takes the next delivery of a source that has not ended. */
    method Deliver() returns (mb: seq<bytes>)
      requires source != []
      modifies this`source
      ensures Flat(mb) + FlatAll(source) == FlatAll(old(source))
      ensures 1 + |mb| + |Flat(mb)| + Work(source) == Work(old(source))
    {
      mb := source[0];
      source := source[1..];
    }

    /** Up to `n` bytes, at least one unless a delivery is empty. */
    method Read(n: nat) returns (got: bytes, status: Status)
      requires n > 0
      modifies this
      ensures status == Ok || status == Eof
      ensures status == Ok ==> |got| <= n && got + Remaining() == old(Remaining()) && Left() < old(Left())
      ensures status == Eof ==> got == [] && old(Remaining()) == [] == Remaining() && Left() <= old(Left())
      ensures old(BufferedBytes()) > 0 ==>
                status == Ok && source == old(source)
                && |got| == (if old(BufferedBytes()) < n then old(BufferedBytes()) else n)
                && BufferedBytes() == old(BufferedBytes()) - |got|
    {
      if Flat(buffer) != [] {
        var rest;
        rest, got := SplitBytes(buffer, n);
        assert got + Flat(rest) + FlatAll(source) == got + (Flat(rest) + FlatAll(source));
        if rest == [] {
          assert buffer != [];
        }
        buffer := rest;
        return got, Ok;
      }
      if source == [] {
        return [], Eof;
      }
      var mb := Deliver();
      var rest;
      rest, got := SplitBytes(mb, n);
      assert got + Flat(rest) + FlatAll(source) == got + (Flat(rest) + FlatAll(source));
      if Flat(rest) != [] {
        buffer := rest;
      } else {
        assert got + Flat(rest) == got;
      }
      return got, Ok;
    }

    /** Exactly `n` bytes, or everything there is and the end. */
    method ReadFull(n: nat) returns (got: bytes, status: Status)
      modifies this
      ensures status in {Ok, Eof, UnexpectedEof}
      ensures got + Remaining() == old(Remaining()) && Left() <= old(Left())
      ensures status == Ok <==> |old(Remaining())| >= n
      ensures status == Ok ==> |got| == n && (n > 0 ==> Left() < old(Left()))
      ensures status != Ok ==> Remaining() == [] && (status == Eof <==> old(Remaining()) == [])
      ensures old(BufferedBytes()) >= n ==> source == old(source) && BufferedBytes() == old(BufferedBytes()) - n
    {
      got := [];
      while |got| < n
        invariant |got| <= n && got + Remaining() == old(Remaining()) && Left() <= old(Left())
        invariant |got| > 0 ==> Left() < old(Left())
        invariant old(BufferedBytes()) >= n ==> source == old(source) && BufferedBytes() == old(BufferedBytes()) - |got|
        decreases Left()
      {
        ghost var before := Remaining();
        var more, st := Read(n - |got|);
        if st == Eof {
          assert got + [] == got;
          return got, if |got| == 0 then Eof else UnexpectedEof;
        }
        assert got + before == (got + more) + Remaining();
        got := got + more;
      }
      return got, Ok;
    }

    /** One buffer list of at most `size` bytes; it may be empty without the end being reached. */
    method ReadAtMost(size: nat) returns (mb: seq<bytes>, status: Status)
      requires size > 0
      modifies this
      ensures status == Ok || status == Eof
      ensures status == Ok ==> |Flat(mb)| <= size && Flat(mb) + Remaining() == old(Remaining()) && Left() < old(Left())
      ensures status == Eof ==> mb == [] && old(Remaining()) == [] == Remaining() && Left() <= old(Left())
    {
      if Flat(buffer) == [] {
        if source == [] {
          return [], Eof;
        }
        var delivered := Deliver();
        buffer := delivered;
      }
      ghost var b, all := buffer, Flat(buffer) + FlatAll(source);
      var rest;
      rest, mb := SplitSize(buffer, size);
      assert Flat(mb) + Flat(rest) + FlatAll(source) == Flat(mb) + (Flat(rest) + FlatAll(source));
      SplitShrinks(b, rest, mb, size);
      buffer := rest;
      if Flat(buffer) == [] {
        buffer := [];
      }
      return mb, Ok;
    }
  }

  /** Cutting either uses up a buffer or bytes. */
  lemma SplitShrinks(mb: seq<bytes>, rest: seq<bytes>, chunk: seq<bytes>, size: nat)
    requires size > 0 && Flat(mb) == Flat(chunk) + Flat(rest)
    requires rest != [] ==> |Flat(chunk)| + |rest[0]| > size
    requires if mb != [] && |mb[0]| > size
             then chunk == [mb[0][..size]] && rest == [mb[0][size..]] + mb[1..]
             else mb == chunk + rest
    ensures mb != [] ==> |rest| + |Flat(rest)| < |mb| + |Flat(mb)|
    ensures |rest| + |Flat(rest)| <= |mb| + |Flat(mb)|
  {
    hide Flat;
    FlatNothing();
    if mb != [] && |mb[0]| > size {
      FlatOne(mb[0][..size]);
    } else if mb != [] {
      assert chunk == [] ==> rest == mb;
    }
  }
}
