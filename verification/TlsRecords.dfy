/** Recognising TLS application data records (section 5.2 of RFC 8446). */
module TlsRecords {
  import opened ByteSeq

  const APPLICATION_DATA_START: bytes := [0x17, 0x03, 0x03]

  /** One record: 17 03 03, a 16-bit length and that many bytes, at least one. */
  ghost predicate IsRecord(r: bytes) {
    |r| > 5 && r[..3] == APPLICATION_DATA_START && FromU16(r[3], r[4]) == |r| - 5
  }

  /** A concatenation of zero or more records. */
  ghost predicate IsRecordSequence(b: bytes) {
    exists records: seq<bytes> :: Flat(records) == b && forall r :: r in records ==> IsRecord(r)
  }

  /** A header is missing, or its record is cut short or empty. */
  predicate FirstRecordFits(b: bytes) {
    && |b| > 5
    && b[..3] == APPLICATION_DATA_START
    && 0 < FromU16(b[3], b[4]) <= |b| - 5
  }

  /** Records read off the front one by one. */
  predicate AllRecords(b: bytes)
    decreases |b|
  {
    b == [] || (FirstRecordFits(b) && AllRecords(b[5 + FromU16(b[3], b[4])..]))
  }

  lemma {:induction false} SequenceOfAllRecords(b: bytes) returns (records: seq<bytes>)
    requires AllRecords(b)
    ensures Flat(records) == b && forall r :: r in records ==> IsRecord(r)
    decreases |b|
  {
    if b == [] {
      records := [];
    } else {
      var n := 5 + FromU16(b[3], b[4]);
      var rest := SequenceOfAllRecords(b[n..]);
      assert IsRecord(b[..n]);
      FlatConcat([b[..n]], rest);
      FlatOne(b[..n]);
      records := [b[..n]] + rest;
    }
  }

  lemma {:induction false} AllRecordsOfSequence(records: seq<bytes>)
    requires forall r :: r in records ==> IsRecord(r)
    ensures AllRecords(Flat(records))
  {
    if records != [] {
      var r, b := records[0], Flat(records);
      assert IsRecord(r) && b == r + Flat(records[1..]);
      assert b[..3] == r[..3] && b[|r|..] == Flat(records[1..]);
      AllRecordsOfSequence(records[1..]);
    }
  }

  lemma AllRecordsIsSequence(b: bytes)
    ensures AllRecords(b) <==> IsRecordSequence(b)
  {
    hide AllRecords, Flat, IsRecord;
    if AllRecords(b) {
      var records := SequenceOfAllRecords(b);
    }
    if IsRecordSequence(b) {
      var records: seq<bytes> :| Flat(records) == b && forall r :: r in records ==> IsRecord(r);
      AllRecordsOfSequence(records);
    }
  }

  /** What is left to accept when `headerLen` header bytes are still missing and `recordLen` is known so far. */
  ghost predicate Accepts(headerLen: int, recordLen: int, rest: bytes) {
    if headerLen == 5 then AllRecords(rest)
    else if headerLen == 4 then AllRecords([0x17] + rest)
    else if headerLen == 3 then AllRecords([0x17, 0x03] + rest)
    else if headerLen == 2 then AllRecords(APPLICATION_DATA_START + rest)
    else if headerLen == 1 then rest != [] && Accepts(0, recordLen + rest[0], rest[1..])
    else 0 < recordLen <= |rest| && AllRecords(rest[recordLen..])
  }

  lemma AcceptsAfterLength(hi: byte, rest: bytes)
    ensures AllRecords(APPLICATION_DATA_START + [hi] + rest) <==> Accepts(1, (hi as int) * 256, rest)
  {
    var b := APPLICATION_DATA_START + [hi] + rest;
    assert b[..3] == APPLICATION_DATA_START;
    if rest != [] {
      assert b[5..] == rest[1..];
      var n := FromU16(hi, rest[0]);
      if n <= |b| - 5 {
        assert b[5 + n..] == rest[1..][n..];
      }
    }
  }

  lemma AcceptsStep(headerLen: int, recordLen: int, rest: bytes)
    requires 0 < headerLen <= 5 && rest != []
    requires headerLen == 5 || headerLen == 4 || headerLen == 3 ==> recordLen == 0
    ensures headerLen == 5 ==> (Accepts(5, 0, rest) <==> rest[0] == 0x17 && Accepts(4, 0, rest[1..]))
    ensures headerLen == 4 ==> (Accepts(4, 0, rest) <==> rest[0] == 0x03 && Accepts(3, 0, rest[1..]))
    ensures headerLen == 3 ==> (Accepts(3, 0, rest) <==> rest[0] == 0x03 && Accepts(2, 0, rest[1..]))
    ensures headerLen == 2 ==> (Accepts(2, recordLen, rest) <==> Accepts(1, (rest[0] as int) * 256, rest[1..]))
    ensures headerLen == 1 ==> (Accepts(1, recordLen, rest) <==> Accepts(0, recordLen + rest[0], rest[1..]))
  {
    var first := rest[..1];
    assert rest == [rest[0]] + rest[1..];
    if headerLen == 5 {
      assert Accepts(5, 0, rest) ==> rest[..3][0] == 0x17;
    } else if headerLen == 4 {
      assert [0x17] + rest == [0x17, rest[0]] + rest[1..];
      assert AllRecords([0x17] + rest) ==> ([0x17] + rest)[..3][1] == 0x03;
    } else if headerLen == 3 {
      assert [0x17, 0x03] + rest == [0x17, 0x03, rest[0]] + rest[1..];
      assert AllRecords([0x17, 0x03] + rest) ==> ([0x17, 0x03] + rest)[..3][2] == 0x03;
    } else if headerLen == 2 {
      assert APPLICATION_DATA_START + rest == APPLICATION_DATA_START + [rest[0]] + rest[1..];
      AcceptsAfterLength(rest[0], rest[1..]);
    }
  }

  lemma AcceptsRecord(recordLen: int, rest: bytes)
    requires recordLen >= 0
    ensures Accepts(0, recordLen, rest) <==> 0 < recordLen <= |rest| && Accepts(5, 0, rest[recordLen..])
  {
  }

  /** Nothing may be left open at the end of the bytes. */
  lemma AcceptsNothing(headerLen: int, recordLen: int)
    requires 0 <= headerLen <= 5 && recordLen >= 0 && (headerLen >= 3 ==> recordLen == 0)
    ensures Accepts(headerLen, recordLen, []) <==> headerLen == 5
  {
  }

  /** The scanner accepts exactly the concatenations of whole application data records. */
  method IsCompleteRecord(buffer: seq<bytes>) returns (complete: bool)
    ensures complete <==> IsRecordSequence(Flat(buffer))
  {
    hide AllRecords, IsRecordSequence, Flat, Accepts;
    var b := Flat(buffer);
    AllRecordsIsSequence(b);
    var headerLen, recordLen := 5, 0;
    var i := 0;
    assert b[i..] == b;
    AcceptsWhole(b);
    while i < |b|
      invariant 0 <= i <= |b| && 0 <= headerLen <= 5 && recordLen >= 0
      invariant headerLen >= 3 ==> recordLen == 0
      invariant AllRecords(b) <==> Accepts(headerLen, recordLen, b[i..])
    {
      if headerLen > 0 {
        var data := b[i];
        AcceptsStep(headerLen, recordLen, b[i..]);
        assert b[i..][1..] == b[i + 1..];
        i := i + 1;
        match headerLen {
          case 5 => if data != 0x17 { return false; }
          case 4 => if data != 0x03 { return false; }
          case 3 => if data != 0x03 { return false; }
          case 2 => recordLen := (data as int) * 256;
          case _ => recordLen := recordLen + data;
        }
        headerLen := headerLen - 1;
      } else {
        AcceptsRecord(recordLen, b[i..]);
        if recordLen > 0 {
          var remaining := |b| - i;
          if remaining < recordLen {
            return false;
          } else {
            assert b[i..][recordLen..] == b[i + recordLen..];
            i := i + recordLen;
            recordLen, headerLen := 0, 5;
          }
        } else {
          return false;
        }
      }
    }
    assert b[i..] == [];
    AcceptsNothing(headerLen, recordLen);
    return headerLen == 5 && recordLen == 0;
  }

  lemma AcceptsWhole(b: bytes)
    ensures AllRecords(b) <==> Accepts(5, 0, b)
  {
  }
}
