/** Scanning a geodata file: entries behind a tag and a varint length, found by their code. */
module Geodats {
  import opened ByteSeq

  const TWO_63: nat := 0x8000_0000_0000_0000
  const TWO_64: nat := 0x1_0000_0000_0000_0000

  datatype Error = Eof | UnexpectedEof | Overflow | EmptyCode | InvalidLength

  datatype Result<T> = Ok(value: T) | Err(error: Error)

  // ---------------------------------------------------------------------------------------------
  // Varints

  function Pow128(n: nat): (p: nat)
    ensures p > 0
  {
    if n == 0 then 1 else 128 * Pow128(n - 1)
  }

  /** The number in groups of seven bits, least significant first; the eighth bits do not count. */
  function Sum128(s: bytes): nat {
    if s == [] then 0 else s[0] % 128 + 128 * Sum128(s[1..])
  }

  /** The first byte from `i` on without a continuation bit, among the first ten. */
  function Last(s: bytes, i: nat): (k: Option<nat>)
    ensures k.Some? ==>
              i <= k.value < |s| && k.value < 10 && s[k.value] < 128 && forall j :: i <= j < k.value ==> s[j] >= 128
    ensures k.None? ==> forall j :: i <= j < |s| && j < 10 ==> s[j] >= 128
    decreases |s| - i
  {
    if i >= |s| || i >= 10 then None else if s[i] < 128 then Some(i) else Last(s, i + 1)
  }

  /** The varint at the front, in 64 bits, and what follows. */
  function Varint(s: bytes): Result<(nat, bytes)> {
    var k := Last(s, 0);
    if k.Some? then Ok((Sum128(s[..k.value + 1]) % TWO_64, s[k.value + 1..]))
    else Err(if |s| >= 10 then Overflow else Eof)
  }

  /** Base 128 Varints of Protocol Buffers Encoding. */
  function EncodeVarint(n: nat): (r: bytes)
    ensures r != []
  {
    if n < 128 then [n] else [n % 128 + 128] + EncodeVarint(n / 128)
  }

  lemma {:induction false} SumSnoc(s: bytes, b: byte)
    ensures Sum128(s + [b]) == Sum128(s) + (b % 128) * Pow128(|s|)
  {
    if s == [] {
      assert Sum128([b][1..]) == 0;
    } else {
      assert (s + [b])[1..] == s[1..] + [b];
      SumSnoc(s[1..], b);
      assert 128 * ((b % 128) * Pow128(|s| - 1)) == (b % 128) * Pow128(|s|);
    }
  }

  lemma {:induction false} SumBound(s: bytes)
    ensures Sum128(s) < Pow128(|s|)
  {
    if s != [] {
      SumBound(s[1..]);
    }
  }

  lemma Powers()
    ensures Pow128(9) == TWO_63 && forall i :: 0 <= i <= 9 ==> Pow128(i) <= TWO_63
  {
    assert Pow128(3) == 0x20_0000;
    assert Pow128(6) == 0x400_0000_0000;
    assert Pow128(9) == TWO_63;
    forall i | 0 <= i <= 9
      ensures Pow128(i) <= TWO_63
    {
      PowGrows(i, 9);
    }
  }

  lemma {:induction false} PowGrows(i: nat, j: nat)
    requires i <= j
    ensures Pow128(i) <= Pow128(j)
    decreases j
  {
    if i < j {
      PowGrows(i, j - 1);
    }
  }

  /**
   * What the loop adds in 64 bits for byte number `i`, on bits that are still zero, so that adding is the same as
   * setting them.
   */
  lemma NextGroup(s: bytes, i: nat)
    requires i < |s| && i < 10
    ensures var term := ((s[i] % 128) * Pow128(i)) % TWO_64;
            && Sum128(s[..i]) < Pow128(i) <= TWO_63
            && Sum128(s[..i]) + term < TWO_64
            && (Sum128(s[..i]) + term) % TWO_64 == Sum128(s[..i + 1]) % TWO_64
            && (i < 9 ==> Sum128(s[..i]) + term == Sum128(s[..i + 1]))
  {
    hide Pow128, Sum128;
    Powers();
    SumBound(s[..i]);
    assert s[..i + 1] == s[..i] + [s[i]];
    SumSnoc(s[..i], s[i]);
    if i < 9 {
      SumBound(s[..i + 1]);
      PowGrows(i + 1, 9);
      LowBits(Sum128(s[..i]), (s[i] % 128) * Pow128(i));
    } else {
      TopBit(Sum128(s[..i]), s[i] % 128);
    }
  }

  lemma LowBits(x: nat, t: int)
    requires t >= 0 && x + t < TWO_63
    ensures t % TWO_64 == t && (x + t) % TWO_64 == x + t
  {
  }

  /** Of the tenth group only the lowest bit is left. */
  lemma TopBit(x: nat, g: nat)
    requires x < TWO_63
    ensures x + (g * TWO_63) % TWO_64 < TWO_64
    ensures (x + (g * TWO_63) % TWO_64) % TWO_64 == (x + g * TWO_63) % TWO_64
  {
    assert g == g / 2 * 2 + g % 2;
    assert g * TWO_63 == (g / 2) * TWO_64 + (g % 2) * TWO_63;
  }

  /** Every 64-bit number comes back from its encoding, which no other bytes can be taken for. */
  lemma VarintRoundTrip(n: nat, rest: bytes)
    requires n < TWO_64
    ensures Varint(EncodeVarint(n) + rest) == Ok((n, rest))
  {
    hide Sum128, EncodeVarint;
    EncodedShape(n);
    Powers();
    EncodedLength(n, 10);
    LastInFront(EncodeVarint(n), rest);
    var e := EncodeVarint(n);
    assert (e + rest)[..|e|] == e && (e + rest)[|e|..] == rest;
  }

  lemma LastInFront(e: bytes, rest: bytes)
    requires 0 < |e| <= 10 && e[|e| - 1] < 128 && forall j :: 0 <= j < |e| - 1 ==> e[j] >= 128
    ensures Last(e + rest, 0) == Some((|e| - 1) as nat)
  {
    hide Last;
    var s := e + rest;
    var k := Last(s, 0);
    assert forall j :: 0 <= j < |e| ==> s[j] == e[j];
    assert s[|e| - 1] < 128;
  }

  lemma {:induction false} EncodedShape(n: nat)
    ensures var e := EncodeVarint(n);
            && e[|e| - 1] < 128 && (forall j :: 0 <= j < |e| - 1 ==> e[j] >= 128)
            && Sum128(e) == n
  {
    var e := EncodeVarint(n);
    if n < 128 {
      assert Sum128([n as byte][1..]) == 0;
    } else {
      EncodedShape(n / 128);
      assert e[1..] == EncodeVarint(n / 128);
      assert forall j :: 0 < j < |e| ==> e[j] == e[1..][j - 1];
    }
  }

  lemma {:induction false} EncodedLength(n: nat, k: nat)
    requires k > 0 && n < 2 * Pow128(k - 1)
    ensures |EncodeVarint(n)| <= k
    decreases k
  {
    if n >= 128 {
      EncodedLength(n / 128, k - 1);
    }
  }

  class Scanner {
    var rest: bytes

    constructor (data: bytes)
      ensures rest == data
    {
      rest := data;
    }

    method ReadByte() returns (b: Option<byte>)
      modifies this
      ensures if old(rest) == [] then b == None && rest == [] else b == Some(old(rest)[0]) && rest == old(rest)[1..]
    {
      if rest == [] {
        return None;
      }
      b := Some(rest[0]);
      rest := rest[1..];
    }

    method DecodeVarint() returns (r: Result<nat>)
      modifies this
      ensures var v := Varint(old(rest));
              if v.Ok? then r == Ok(v.value.0) && rest == v.value.1 else r == Err(v.error)
    {
      hide Varint, Decoding;
      ghost var s := rest;
      var x, i, unit := 0, 0, 1;
      Starts(s);
      while i < 10
        invariant 0 <= i <= 10 && i <= |s| && rest == s[i..] && Decoding(s, i, x, unit)
      {
        NextByte(s, i, x, unit);
        var b := ReadByte();
        if b.None? {
          return Err(Eof);
        }
        x := x + ((b.value % 128) * unit) % TWO_64;
        if b.value < 128 {
          return Ok(x);
        }
        i, unit := i + 1, unit * 128;
      }
      NextByte(s, i, x, unit);
      return Err(Overflow);
    }

    method ReadFull(n: nat) returns (r: Result<bytes>)
      modifies this
      ensures if |old(rest)| >= n then r == Ok(old(rest)[..n]) && rest == old(rest)[n..]
              else r == Err(if old(rest) == [] then Eof else UnexpectedEof)
    {
      if |rest| < n {
        r := Err(if rest == [] then Eof else UnexpectedEof);
        rest := [];
        return;
      }
      r := Ok(rest[..n]);
      rest := rest[n..];
    }

    method Discard(n: nat) returns (ok: bool)
      modifies this
      ensures ok <==> |old(rest)| >= n
      ensures ok ==> rest == old(rest)[n..]
    {
      ok := |rest| >= n;
      rest := if ok then rest[n..] else [];
    }

    /** The body of the first entry with the code, or nothing in its place if bodies are not wanted. */
    method Find(code: bytes, readBody: bool) returns (r: Result<bytes>)
      modifies this
      ensures r == Search(old(rest), code, readBody)
    {
      hide Varint;
      if |code| == 0 {
        return Err(EmptyCode);
      }
      var need := 2 + |code|;
      while true
        invariant Search(rest, code, readBody) == Search(old(rest), code, readBody)
        decreases |rest|
      {
        ghost var s := rest;
        var tag := ReadByte();
        if tag.None? {
          return Err(Eof);
        }
        VarintShorter(rest);
        var x := DecodeVarint();
        if x.Err? {
          return Err(x.error);
        }
        if x.value == 0 || x.value >= TWO_63 {
          return Err(InvalidLength);
        }
        var bodyL := x.value;
        ghost var body := rest;
        var prefixL := if bodyL > need then need else bodyL;
        var prefix := ReadFull(prefixL);
        if prefix.Err? {
          return Err(prefix.error);
        }
        var matches := bodyL >= need && prefix.value[1] == |code| && prefix.value[2..need] == code;
        assert matches == BeginsWith(body[..prefixL], code);
        if matches && !readBody {
          return Ok([]);
        }
        var remain := bodyL - prefixL;
        if matches {
          var out := prefix.value;
          if remain > 0 {
            var more := ReadFull(remain);
            if more.Err? {
              return Err(more.error);
            }
            assert body[..bodyL] == out + more.value;
            out := out + more.value;
          }
          return Ok(out);
        }
        if remain > 0 {
          var ok := Discard(remain);
          if !ok {
            return Err(Eof);
          }
        }
        assert rest == body[bodyL..];
      }
    }
  }

  // ---------------------------------------------------------------------------------------------
  // Entries

  /** A body whose second byte is the length of the code and that goes on with the code. */
  predicate BeginsWith(body: bytes, code: bytes) {
    |body| >= 2 + |code| && body[1] == |code| && body[2..2 + |code|] == code
  }

  lemma VarintShorter(s: bytes)
    ensures Varint(s).Ok? ==> |Varint(s).value.1| < |s|
  {
  }

  /** What a scan finds in any bytes. */
  function Search(s: bytes, code: bytes, readBody: bool): Result<bytes>
    decreases |s|
  {
    if code == [] then Err(EmptyCode)
    else if s == [] then Err(Eof)
    else
      var v := Varint(s[1..]);
      if v.Err? then Err(v.error)
      else if v.value.0 == 0 || v.value.0 >= TWO_63 then Err(InvalidLength)
      else
        var n, rest := v.value.0, v.value.1;
        var p := if n > 2 + |code| then 2 + |code| else n;
        if |rest| < p then Err(if rest == [] then Eof else UnexpectedEof)
        else if BeginsWith(rest[..p], code) then
          if !readBody then Ok([])
          else if |rest| >= n then Ok(rest[..n])
          else Err(if |rest| == p then Eof else UnexpectedEof)
        else if |rest| < n then Err(Eof)
        else Search(rest[n..], code, readBody)
  }

  datatype Entry = Entry(tag: byte, body: bytes)

  predicate GoodEntry(e: Entry) {
    0 < |e.body| < TWO_63
  }

  function FileOf(entries: seq<Entry>): bytes {
    if entries == [] then []
    else [entries[0].tag] + EncodeVarint(|entries[0].body|) + entries[0].body + FileOf(entries[1..])
  }

  /** The code that a body carries, if its second byte counts the bytes of one. */
  function CodeOf(e: Entry): Option<bytes> {
    if |e.body| >= 2 && |e.body| >= 2 + (e.body[1] as int) then Some(e.body[2..2 + (e.body[1] as int)]) else None
  }

  /** One step over an entry. */
  lemma SearchEntry(e: Entry, rest: bytes, code: bytes, readBody: bool)
    requires GoodEntry(e) && code != []
    ensures var s := [e.tag] + EncodeVarint(|e.body|) + e.body + rest;
            Search(s, code, readBody) ==
              if CodeOf(e) == Some(code) then Ok(if readBody then e.body else []) else Search(rest, code, readBody)
  {
    hide Varint, EncodeVarint;
    var s := [e.tag] + EncodeVarint(|e.body|) + e.body + rest;
    var n := |e.body|;
    VarintRoundTrip(n, e.body + rest);
    assert s[1..] == EncodeVarint(n) + (e.body + rest);
    var body := e.body + rest;
    assert body[..n] == e.body && body[n..] == rest;
    var p := if n > 2 + |code| then 2 + |code| else n;
    assert body[..p] == e.body[..p];
    assert BeginsWith(body[..p], code) <==> CodeOf(e) == Some(code) by {
      if n >= 2 + |code| {
        assert e.body[..p][2..2 + |code|] == e.body[2..2 + |code|];
      }
    }
  }

  /** The number of the first entry with the code. */
  function First(entries: seq<Entry>, code: bytes): (k: Option<nat>)
    ensures k.Some? ==> k.value < |entries| && CodeOf(entries[k.value]) == Some(code)
    ensures k.Some? ==> forall i :: 0 <= i < k.value ==> CodeOf(entries[i]) != Some(code)
    ensures k.None? ==> forall i :: 0 <= i < |entries| ==> CodeOf(entries[i]) != Some(code)
  {
    if entries == [] then None
    else if CodeOf(entries[0]) == Some(code) then Some(0)
    else
      var k := First(entries[1..], code);
      if k.Some? then Some(k.value + 1) else None
  }

  lemma FirstHead(entries: seq<Entry>, code: bytes)
    ensures First(entries, code) ==
              if entries == [] then None
              else if CodeOf(entries[0]) == Some(code) then Some(0)
              else var k := First(entries[1..], code); if k.Some? then Some(k.value + 1) else None
  {
  }

  lemma FileHead(entries: seq<Entry>)
    ensures FileOf(entries) ==
              if entries == [] then []
              else [entries[0].tag] + EncodeVarint(|entries[0].body|) + entries[0].body + FileOf(entries[1..])
  {
  }

  /** The first entry with the code is found, whatever follows; without one the scan reads on behind the entries. */
  lemma {:induction false} FindsFirst(entries: seq<Entry>, rest: bytes, code: bytes, readBody: bool)
    requires code != [] && forall e :: e in entries ==> GoodEntry(e)
    ensures var k := First(entries, code);
            Search(FileOf(entries) + rest, code, readBody) ==
              if k.Some? then Ok(if readBody then entries[k.value].body else []) else Search(rest, code, readBody)
    decreases |entries|
  {
    hide Search, CodeOf, EncodeVarint, First, FileOf;
    FirstHead(entries, code);
    FileHead(entries);
    if entries == [] {
      assert [] + rest == rest;
    } else {
      var e, tail := entries[0], entries[1..];
      SearchEntry(e, FileOf(tail) + rest, code, readBody);
      FindsFirst(tail, rest, code, readBody);
      assert FileOf(entries) + rest == [e.tag] + EncodeVarint(|e.body|) + e.body + (FileOf(tail) + rest);
    }
  }

  /** On a file of entries the scan errs exactly if no entry has the code; the error is then the end of the file. */
  lemma ErrsIffAbsent(entries: seq<Entry>, code: bytes, readBody: bool)
    requires code != [] && forall e :: e in entries ==> GoodEntry(e)
    ensures var r := Search(FileOf(entries), code, readBody);
            && (r.Err? <==> forall i :: 0 <= i < |entries| ==> CodeOf(entries[i]) != Some(code))
            && (r.Err? ==> r.error == Eof)
            && (r.Ok? && readBody ==>
                exists i :: 0 <= i < |entries| && r.value == entries[i].body && CodeOf(entries[i]) == Some(code))
  {
    hide CodeOf, FileOf;
    FindsFirst(entries, [], code, readBody);
    assert FileOf(entries) + [] == FileOf(entries);
  }

  /** A file that ends inside an entry: nothing is found there. */
  lemma CutEntryErrs(e: Entry, k: nat, code: bytes)
    requires GoodEntry(e) && code != []
    requires k < |[e.tag] + EncodeVarint(|e.body|) + e.body|
    ensures Search(([e.tag] + EncodeVarint(|e.body|) + e.body)[..k], code, true).Err?
  {
    hide EncodeVarint, Last, Sum128;
    var n, enc := |e.body|, EncodeVarint(|e.body|);
    var s := ([e.tag] + enc + e.body)[..k];
    if 0 < k <= |enc| {
      assert s[1..] == enc[..k - 1];
      EncodedShape(n);
      NoLast(enc[..k - 1]);
    } else if k > |enc| {
      var rest := e.body[..k - 1 - |enc|];
      assert s[1..] == enc + rest;
      VarintRoundTrip(n, rest);
    }
  }

  lemma NoLast(s: bytes)
    requires forall i :: 0 <= i < |s| ==> s[i] >= 128
    ensures Varint(s).Err?
  {
  }

  /** A cut file is an error unless one of its whole entries has the code. */
  lemma CutFileErrs(entries: seq<Entry>, e: Entry, k: nat, code: bytes)
    requires code != [] && GoodEntry(e) && forall x :: x in entries ==> GoodEntry(x)
    requires k < |[e.tag] + EncodeVarint(|e.body|) + e.body|
    ensures var cut := FileOf(entries) + ([e.tag] + EncodeVarint(|e.body|) + e.body)[..k];
            Search(cut, code, true).Err? <==> forall i :: 0 <= i < |entries| ==> CodeOf(entries[i]) != Some(code)
  {
    hide Search, CodeOf, FileOf, EncodeVarint;
    CutEntryErrs(e, k, code);
    FindsFirst(entries, ([e.tag] + EncodeVarint(|e.body|) + e.body)[..k], code, true);
  }

  /** A code longer than a length byte can say is never found. */
  lemma LongCode(e: Entry, code: bytes)
    requires |code| > 255
    ensures CodeOf(e) != Some(code)
  {
  }

  /** The first `i` bytes are continued, and have been added up to `x` in 64 bits; the next one counts `unit`. */
  ghost predicate Decoding(s: bytes, i: nat, x: int, unit: int) {
    && i <= 10 && i <= |s| && Last(s, 0) == Last(s, i) && unit == Pow128(i)
    && x == Sum128(s[..i]) % TWO_64 && (i < 10 ==> x == Sum128(s[..i]))
  }

  lemma Starts(s: bytes)
    ensures Decoding(s, 0, 0, 1)
  {
  }

  /** One more byte, the end, or one byte too many. */
  lemma NextByte(s: bytes, i: nat, x: int, unit: int)
    requires Decoding(s, i, x, unit)
    ensures i < 10 && i < |s| ==>
              var y := x + ((s[i] % 128) * unit) % TWO_64;
              if s[i] < 128 then Varint(s) == Ok((y, s[i + 1..])) else Decoding(s, i + 1, y, unit * 128)
    ensures i == 10 || i == |s| ==> Varint(s) == Err(if i == 10 then Overflow else Eof)
  {
    hide Sum128, Pow128, Last, Varint;
    LastHead(s, i);
    VarintOfLast(s);
    if i < 10 && i < |s| {
      NextGroup(s, i);
      NextUnit(i);
      if s[i] < 128 {
        SmallEnough(x, ((s[i] % 128) * unit) % TWO_64);
      }
    }
  }

  lemma SmallEnough(x: nat, term: nat)
    ensures x + term < TWO_64 ==> (x + term) % TWO_64 == x + term
  {
  }

  lemma VarintOfLast(s: bytes)
    ensures match Last(s, 0)
            case Some(k) => Varint(s) == Ok((Sum128(s[..k + 1]) % TWO_64, s[k + 1..]))
            case None => Varint(s) == Err(if |s| >= 10 then Overflow else Eof)
  {
  }

  lemma LastHead(s: bytes, i: nat)
    ensures Last(s, i) == if i >= |s| || i >= 10 then None else if s[i] < 128 then Some(i) else Last(s, i + 1)
  {
  }

  lemma NextUnit(i: nat)
    ensures Pow128(i + 1) == 128 * Pow128(i)
  {
  }
}
