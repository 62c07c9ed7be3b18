/** A buffer: a window on a byte array, written at its end and read at its start. */
module BufferWindows {
  import opened ByteSeq

  class Buffer {
    const v: array<byte>
    var start: nat
    var end: nat

    /** An empty buffer of standard size; what the array holds does not matter. */
    constructor ()
      ensures Valid() && fresh(v) && v.Length == BUF_SIZE && start == end == 0 && Content() == []
    {
      v := new byte[BUF_SIZE];
      start, end := 0, 0;
    }

    constructor FromBytes(b: bytes)
      ensures Valid() && fresh(v) && v.Length == |b| && Content() == b
    {
      v := new byte[|b|](i requires 0 <= i < |b| => b[i]);
      start, end := 0, |b|;
    }

    ghost predicate Valid()
      reads this
    {
      start <= end <= v.Length
    }

    function Content(): (s: bytes)
      requires Valid()
      reads this, v
      ensures |s| == Len()
    {
      v[start..end]
    }

    function Len(): nat
      requires Valid()
      reads this
    {
      end - start
    }

    function Available(): nat
      requires Valid()
      reads this
    {
      v.Length - end
    }

    function Byte(i: nat): byte
      requires Valid() && start + i < v.Length
      reads this, v
    {
      v[start + i]
    }

    /** `n` zero bytes more. Extending beyond the array panics. */
    method Extend(n: nat)
      requires Valid() && n <= Available()
      modifies this`end, v
      ensures Valid() && Content() == old(Content()) + Zeros(n) && Available() == old(Available()) - n
      ensures end == old(end) + n && start == old(start)
    {
      ghost var before := v[..];
      forall i | end <= i < end + n {
        v[i] := 0;
      }
      end := end + n;
      assert v[..end - n] == before[..end - n];
    }

    /** Overwrites bytes of the content, as through a slice that `Extend` has returned. */
    method Put(at: nat, data: bytes)
      requires Valid() && at + |data| <= Len()
      modifies v
      ensures Content() == old(Content())[..at] + data + old(Content())[at + |data|..]
    {
      ghost var before := v[..];
      forall i | 0 <= i < |data| {
        v[start + at + i] := data[i];
      }
    }

    /** As much as fits; `full` says that something did not. */
    method Write(data: bytes) returns (n: nat, full: bool)
      requires Valid()
      modifies this`end, v
      ensures Valid() && full == (n < |data|)
      ensures n == if |data| < v.Length - old(end) then |data| else v.Length - old(end)
      ensures Content() == old(Content()) + data[..n] && Available() == old(Available()) - n
    {
      n := if |data| < v.Length - end then |data| else v.Length - end;
      ghost var before := v[..];
      var e, k := end, n;
      forall i | e <= i < e + k {
        v[i] := data[i - e];
      }
      end := end + n;
      full := n < |data|;
      assert v[..e] == before[..e];
      assert v[e..end] == data[..n];
      assert v[start..end] == v[start..e] + v[e..end];
    }

    method WriteByte(b: byte) returns (ok: bool)
      requires Valid()
      modifies this`end, v
      ensures Valid() && ok == (old(Available()) > 0)
      ensures Content() == old(Content()) + (if ok then [b] else [])
      ensures Available() == if ok then old(Available()) - 1 else 0
    {
      if end == v.Length {
        return false;
      }
      v[end] := b;
      end := end + 1;
      return true;
    }

    /** Up to `n` bytes off the front; a buffer that becomes empty starts again at the beginning of its array. */
    method Read(n: nat) returns (got: bytes, eof: bool)
      requires Valid()
      modifies this`start, this`end
      ensures Valid() && eof == (old(Content()) == [])
      ensures got == old(Content())[..if n < old(Len()) then n else old(Len())] && Content() == old(Content())[|got|..]
      ensures Content() == [] && !eof ==> start == end == 0
    {
      if Len() == 0 {
        return [], true;
      }
      var k := if n < Len() then n else Len();
      got := v[start..start + k];
      eof := false;
      if k == Len() {
        start, end := 0, 0;
      } else {
        start := start + k;
      }
    }

    method ReadByte() returns (b: Option<byte>)
      requires Valid()
      modifies this`start
      ensures Valid()
      ensures if old(Content()) == [] then b == None && Content() == []
              else b == Some(old(Content())[0]) && Content() == old(Content())[1..]
    {
      if start == end {
        return None;
      }
      b := Some(v[start]);
      start := start + 1;
    }

    method ReadBytes(length: nat) returns (r: Option<bytes>)
      requires Valid()
      modifies this`start
      ensures Valid()
      ensures if old(Len()) < length then r == None && Content() == old(Content())
              else r == Some(old(Content())[..length]) && Content() == old(Content())[length..]
    {
      if end - start < length {
        return None;
      }
      assert v[start..start + length] == Content()[..length];
      r := Some(v[start..start + length]);
      start := start + length;
    }

    /** Positions count from the end if they are negative; a start beyond the window is moved into it. */
    method Advance(from: int)
      requires Valid()
      modifies this`start
      ensures Valid() && end == old(end)
      ensures 0 <= from <= old(Len()) ==> Content() == old(Content())[from..]
      ensures from > old(Len()) ==> Content() == []
      ensures from < 0 <= old(Len()) + from ==> Content() == old(Content())[old(Len()) + from..]
      ensures old(Len()) + from < 0 ==> start <= old(start) && Content()[Len() - old(Len())..] == old(Content())
    {
      var from' := if from < 0 then from + Len() else from;
      var at := start + from';
      start := if at < 0 then 0 else if at > end then end else at;
    }

    /** A position, counted from the end if it is negative. */
    function Position(at: int): int
      requires Valid()
      reads this
    {
      if at < 0 then at + Len() else at
    }

    /**
     * The content between two positions; beyond the old end there are zeros. Positions before the window bring back
     * what was read, as far as the array goes.
     */
    method Resize(from: int, to: int)
      requires Valid() && Position(from) <= Position(to) && start + Position(to) <= v.Length
      modifies this`start, this`end, v
      ensures Valid()
      ensures var f, t := if from < 0 then from + old(Len()) else from, if to < 0 then to + old(Len()) else to;
              var first, last := old(start) + f, old(start) + t;
              && Content() == old(Cleared())[if first < 0 then 0 else first..if last < 0 then 0 else last]
              && (0 <= f <= t <= old(Len()) ==> Content() == old(Content())[f..t])
              && (0 <= f <= old(Len()) < t ==> Content() == old(Content())[f..] + Zeros(t - old(Len())))
              && (old(Len()) < f ==> Content() == Zeros(t - f))
    {
      hide Zeros;
      var oldEnd := end;
      ghost var before := v[..];
      var f, t := Position(from), Position(to);
      Sliced(before, start, oldEnd, f, t);
      var newEnd, newStart := start + t, start + f;
      end := if newEnd < 0 then 0 else newEnd;
      start := if newStart < 0 then 0 else newStart;
      if end > oldEnd {
        forall i | oldEnd <= i < end {
          v[i] := 0;
        }
      }
      SameSlice(before, v[..], oldEnd, start, end);
    }

    /** The array up to the end of the content, and zeros. */
    function Cleared(): (s: bytes)
      requires Valid()
      reads this, v
      ensures |s| == v.Length
    {
      v[..end] + Zeros(v.Length - end)
    }
  }

  lemma SameSlice(v: bytes, now: bytes, oldEnd: nat, start: nat, end: nat)
    requires start <= end <= |now| == |v| && oldEnd <= |v|
    requires forall i :: 0 <= i < oldEnd && i < end ==> now[i] == v[i]
    requires forall i :: oldEnd <= i < end ==> now[i] == 0
    ensures now[start..end] == (v[..oldEnd] + Zeros(|v| - oldEnd))[start..end]
  {
  }

  lemma Sliced(v: bytes, start: nat, end: nat, f: int, t: int)
    requires start <= end <= |v| && f <= t && start + t <= |v|
    ensures var all, content := v[..end] + Zeros(|v| - end), v[start..end];
            && (0 <= f <= t <= |content| ==> all[start + f..start + t] == content[f..t])
            && (0 <= f <= |content| < t ==> all[start + f..start + t] == content[f..] + Zeros(t - |content|))
            && (|content| < f ==> all[start + f..start + t] == Zeros(t - f))
  {
  }

  /** Exactly `n` bytes from one buffer into another, or whatever there is and an error. */
  method ReadFullFrom(b: Buffer, reader: Buffer, n: nat) returns (ok: bool)
    requires b.Valid() && reader.Valid() && b != reader && b.v != reader.v && n <= b.Available()
    modifies b`end, b.v, reader`start, reader`end
    ensures b.Valid() && reader.Valid() && ok == (old(reader.Len()) >= n)
    ensures ok ==>
              b.Content() == old(b.Content()) + old(reader.Content())[..n]
              && reader.Content() == old(reader.Content())[n..]
    ensures b.Available() >= old(b.Available()) - n && (ok ==> b.Available() == old(b.Available()) - n)
  {
    if n == 0 {
      return true;
    }
    var got, eof := reader.Read(n);
    var written, full := b.Write(got);
    ok := !eof && |got| == n;
  }
}
