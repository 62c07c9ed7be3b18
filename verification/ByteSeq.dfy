/** Bytes, big-endian 16-bit fields and lists of buffers: the vocabulary of every wire format below. */
module ByteSeq {

  type byte = b: int | 0 <= b < 256

  type bytes = seq<byte>

  datatype Option<+T> = None | Some(value: T)

  /** Capacity of a pooled buffer. */
  const BUF_SIZE: int := 8192

  /** The two bytes that `binary.BigEndian.PutUint16` writes for `n` truncated to 16 bits. */
  function U16(n: int): (r: bytes)
    ensures |r| == 2
    ensures (r[0] as int) * 256 + (r[1] as int) == n % 0x1_0000
  {
    [(n / 256) % 256, n % 256]
  }

  function FromU16(hi: byte, lo: byte): (n: int)
    ensures 0 <= n < 0x1_0000
    ensures U16(n) == [hi, lo]
  {
    hi * 256 + lo
  }

  function Zeros(n: nat): (r: bytes)
    ensures |r| == n
  {
    seq(n, _ => 0)
  }

  /** The content of a list of buffers, in order. */
  function Flat(mb: seq<bytes>): bytes {
    if mb == [] then [] else mb[0] + Flat(mb[1..])
  }

  lemma {:induction false} FlatConcat(a: seq<bytes>, b: seq<bytes>)
    ensures Flat(a + b) == Flat(a) + Flat(b)
  {
    if a == [] {
      assert a + b == b;
    } else {
      assert (a + b)[1..] == a[1..] + b;
      FlatConcat(a[1..], b);
    }
  }

  lemma FlatNothing()
    ensures Flat([]) == []
  {
  }

  lemma FlatOne(b: bytes)
    ensures Flat([b]) == b
  {
    assert [b][1..] == [];
  }

  lemma FlatSnoc(a: seq<bytes>, b: bytes)
    ensures Flat(a + [b]) == Flat(a) + b
  {
    FlatConcat(a, [b]);
    FlatOne(b);
  }

  lemma FlatSplit(mb: seq<bytes>, k: nat)
    requires k <= |mb|
    ensures Flat(mb) == Flat(mb[..k]) + Flat(mb[k..])
  {
    assert mb == mb[..k] + mb[k..];
    FlatConcat(mb[..k], mb[k..]);
  }
}
