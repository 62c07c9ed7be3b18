/** The counter that nonces are taken from: little-endian, carried byte by byte, wrapping at the end. */
module Nonces {
  import opened ByteSeq

  function Pow256(n: nat): (p: nat)
    ensures p > 0
  {
    if n == 0 then 1 else 256 * Pow256(n - 1)
  }

  /** The number that the bytes stand for, least significant first. */
  function Value(c: bytes): nat {
    if c == [] then 0 else (c[0] as int) + 256 * Value(c[1..])
  }

  /** The next counter state. */
  function Successor(c: bytes): (r: bytes)
    ensures |r| == |c|
  {
    if c == [] then []
    else if c[0] == 255 then [0] + Successor(c[1..])
    else [c[0] + 1] + c[1..]
  }

  /** What the generator gives on its k-th call, the first call being 1. */
  function NonceAt(seed: bytes, k: nat): (r: bytes)
    ensures |r| == |seed|
  {
    if k == 0 then seed else Successor(NonceAt(seed, k - 1))
  }

  class IncreasingNonce {
    const c: array<byte>

    constructor (nonce: bytes)
      ensures fresh(c) && c[..] == nonce
    {
      c := new byte[|nonce|](i requires 0 <= i < |nonce| => nonce[i]);
    }

    /** Starts from all ones, so that the first nonce is zero. */
    constructor ForAEAD(nonceSize: nat)
      ensures fresh(c) && c[..] == Ones(nonceSize)
    {
      c := new byte[nonceSize](_ => 0xFF);
      new;
      assert c[..] == Ones(nonceSize);
    }

    method Next() returns (nonce: bytes)
      modifies c
      ensures c[..] == Successor(old(c[..])) && nonce == c[..]
    {
      hide Successor, Zeros;
      ghost var before := c[..];
      assert before[0..] == before && Zeros(0) == [];
      assert [] + before == before && [] + Successor(before) == Successor(before);
      var i := 0;
      while i < c.Length
        invariant 0 <= i <= c.Length == |before|
        invariant c[..] == Zeros(i) + before[i..]
        invariant Successor(before) == Zeros(i) + Successor(before[i..])
      {
        ghost var now := c[..];
        assert c[i] == now[i] == before[i];
        CarryStep(Zeros(i), before[i..]);
        MoreZeros(i);
        assert before[i..][1..] == before[i + 1..];
        c[i] := if c[i] == 255 then 0 else c[i] + 1;
        assert c[..] == now[i := c[i]];
        if c[i] != 0 {
          break;
        }
        i := i + 1;
      }
      if i == c.Length {
        NoSuccessor();
      }
      nonce := c[..];
    }
  }

  lemma NoSuccessor()
    ensures Successor([]) == []
  {
  }

  /** What the loop does behind the zeros `z`. */
  lemma CarryStep(z: bytes, rest: bytes)
    requires rest != []
    ensures rest[0] == 255 ==> z + Successor(rest) == z + [0] + Successor(rest[1..])
    ensures rest[0] != 255 ==> (z + rest)[|z| := rest[0] + 1] == z + Successor(rest)
    ensures (z + rest)[|z| := 0] == z + [0] + rest[1..]
  {
    hide Successor;
    SuccessorHead(rest);
    SetBehind(z, rest, 0);
    assert z + [0] + rest[1..] == z + ([0] + rest[1..]);
    if rest[0] == 255 {
      assert z + ([0] + Successor(rest[1..])) == z + [0] + Successor(rest[1..]);
    } else {
      SetBehind(z, rest, rest[0] + 1);
    }
  }

  lemma SetBehind(z: bytes, rest: bytes, b: byte)
    requires rest != []
    ensures (z + rest)[|z| := b] == z + ([b] + rest[1..])
  {
  }

  lemma SuccessorHead(c: bytes)
    requires c != []
    ensures Successor(c) == if c[0] == 255 then [0] + Successor(c[1..]) else [c[0] + 1] + c[1..]
  {
  }

  lemma MoreZeros(i: nat)
    ensures Zeros(i) + [0] == Zeros(i + 1)
  {
  }

  function Ones(n: nat): (r: bytes)
    ensures |r| == n && forall i :: 0 <= i < n ==> r[i] == 255
  {
    seq(n, _ => 255)
  }

  lemma {:induction false} ValueBound(c: bytes)
    ensures Value(c) < Pow256(|c|)
  {
    if c != [] {
      ValueBound(c[1..]);
    }
  }

  lemma {:induction false} SameValue(a: bytes, b: bytes)
    requires |a| == |b| && Value(a) == Value(b)
    ensures a == b
  {
    if a != [] {
      assert (a[0] as int) == Value(a) % 256 && (b[0] as int) == Value(b) % 256;
      SameValue(a[1..], b[1..]);
      assert a == [a[0]] + a[1..] && b == [b[0]] + b[1..];
    }
  }

  lemma {:induction false} OnesValue(n: nat)
    ensures Value(Ones(n)) == Pow256(n) - 1
  {
    if n > 0 {
      OnesValue(n - 1);
      assert Ones(n)[1..] == Ones(n - 1);
    }
  }

  /** The carry loop adds one, and starts again at zero after the last value. */
  lemma {:induction false} SuccessorAddsOne(c: bytes)
    ensures Value(Successor(c)) == if Value(c) + 1 == Pow256(|c|) then 0 else Value(c) + 1
  {
    if c != [] {
      SuccessorAddsOne(c[1..]);
      ValueBound(c[1..]);
      if c[0] == 255 {
        assert Successor(c)[1..] == Successor(c[1..]);
      } else {
        assert Successor(c)[1..] == c[1..];
      }
    }
  }

  lemma NextModulo(x: nat, m: nat)
    requires m > 0
    ensures (x + 1) % m == if x % m + 1 == m then 0 else x % m + 1
  {
    var q, r := x / m, x % m;
    assert x == q * m + r;
    if r + 1 == m {
      assert x + 1 == (q + 1) * m + 0;
      DivisionIs(x + 1, m, q + 1, 0);
    } else {
      DivisionIs(x + 1, m, q, r + 1);
    }
  }

  lemma MulAtLeast(d: int, m: nat)
    requires d >= 1
    ensures d * m >= m
  {
    assert d * m == (d - 1) * m + m;
  }

  lemma UniqueDivision(m: nat, q: int, r: nat, q': int, r': nat)
    requires r < m && r' < m && q * m + r == q' * m + r'
    ensures q == q' && r == r'
  {
    assert (q - q') * m == q * m - q' * m;
    assert (q' - q) * m == q' * m - q * m;
    if q > q' {
      MulAtLeast(q - q', m);
    } else if q < q' {
      MulAtLeast(q' - q, m);
    }
  }

  lemma DivisionIs(x: nat, m: nat, q: nat, r: nat)
    requires r < m && x == q * m + r
    ensures x / m == q && x % m == r
  {
    UniqueDivision(m, q, r, x / m, x % m);
  }

  /** The k-th nonce is the seed plus k, modulo 256^n. */
  lemma {:induction false} NonceCounts(seed: bytes, k: nat)
    ensures Value(NonceAt(seed, k)) == (Value(seed) + k) % Pow256(|seed|)
    decreases k
  {
    ValueBound(seed);
    if k == 0 {
      DivisionIs(Value(seed), Pow256(|seed|), 0, Value(seed));
    } else {
      NonceCounts(seed, k - 1);
      SuccessorAddsOne(NonceAt(seed, k - 1));
      NextModulo(Value(seed) + k - 1, Pow256(|seed|));
    }
  }

  /** Two nonces of one generator are the same exactly if their distance is a multiple of 256^n. */
  lemma NonceRepeats(seed: bytes, j: nat, k: nat)
    requires j <= k
    ensures NonceAt(seed, j) == NonceAt(seed, k) <==> (k - j) % Pow256(|seed|) == 0
  {
    NonceCounts(seed, j);
    NonceCounts(seed, k);
    SameResidue(Value(seed) + j, Value(seed) + k, Pow256(|seed|));
    if Value(NonceAt(seed, j)) == Value(NonceAt(seed, k)) {
      SameValue(NonceAt(seed, j), NonceAt(seed, k));
    }
  }

  lemma SameResidue(x: nat, y: nat, m: nat)
    requires m > 0 && x <= y
    ensures x % m == y % m <==> (y - x) % m == 0
  {
    var d := y - x;
    Residues(m, x / m, x % m, d / m, d % m);
    DivisionIs(x, m, x / m, x % m);
    DivisionIs(d, m, d / m, d % m);
  }

  lemma Residues(m: nat, q: nat, r: nat, p: nat, s: nat)
    requires r < m && s < m
    ensures (q * m + r + (p * m + s)) % m == r <==> s == 0
  {
    assert (q + p) * m == q * m + p * m;
    assert (q + p + 1) * m == q * m + p * m + m;
    if r + s < m {
      DivisionIs(q * m + r + (p * m + s), m, q + p, r + s);
    } else {
      DivisionIs(q * m + r + (p * m + s), m, q + p + 1, r + s - m);
    }
  }

  /** Started for an AEAD, the k-th nonce is k - 1, and no nonce is given twice before all have been given. */
  lemma AEADNonces(n: nat, k: nat)
    requires 1 <= k <= Pow256(n)
    ensures Value(NonceAt(Ones(n), k)) == k - 1
    ensures forall j :: 1 <= j < k ==> NonceAt(Ones(n), j) != NonceAt(Ones(n), k)
  {
    OnesValue(n);
    var m := Pow256(n);
    NonceCounts(Ones(n), k);
    assert m - 1 + k == 1 * m + (k - 1);
    DivisionIs(m - 1 + k, m, 1, k - 1);
    forall j | 1 <= j < k
      ensures NonceAt(Ones(n), j) != NonceAt(Ones(n), k)
    {
      NonceRepeats(Ones(n), j, k);
      DivisionIs(k - j, m, 0, k - j);
    }
  }
}
