/** Sealed chunks on a wire: ciphers, size fields, paddings, and what a sequence of chunks looks like. */
module Aeads {
  import opened ByteSeq

  /** An AEAD: nonce, additional data, and plain text or cipher text. */
  datatype Cipher = Cipher(nonceSize: nat, overhead: nat,
                           seal: (bytes, bytes, bytes) -> bytes, unseal: (bytes, bytes, bytes) -> Option<bytes>)

  ghost predicate Inverts(c: Cipher) {
    forall n, a, p :: |c.seal(n, a, p)| == |p| + c.overhead && c.unseal(n, a, c.seal(n, a, p)) == Some(p)
  }

  /** Nonces and additional data by the number of the call. */
  class AEADAuthenticator {
    const cipher: Cipher
    const nonces: nat -> bytes
    const extra: nat -> bytes
    var calls: nat

    constructor (cipher: Cipher, nonces: nat -> bytes, extra: nat -> bytes)
      ensures this.cipher == cipher && this.nonces == nonces && this.extra == extra && calls == 0
    {
      this.cipher, this.nonces, this.extra := cipher, nonces, extra;
      calls := 0;
    }

    method Open(cipherText: bytes) returns (plain: Option<bytes>)
      modifies this
      ensures calls == old(calls) + 1
      ensures plain == if |nonces(old(calls))| != cipher.nonceSize then None
                       else cipher.unseal(nonces(old(calls)), extra(old(calls)), cipherText)
    {
      var iv, data := nonces(calls), extra(calls);
      calls := calls + 1;
      if |iv| != cipher.nonceSize {
        return None;
      }
      return cipher.unseal(iv, data, cipherText);
    }

    method Seal(plain: bytes) returns (cipherText: Option<bytes>)
      modifies this
      ensures calls == old(calls) + 1
      ensures cipherText == if |nonces(old(calls))| != cipher.nonceSize then None
                            else Some(cipher.seal(nonces(old(calls)), extra(old(calls)), plain))
    {
      var iv, data := nonces(calls), extra(calls);
      calls := calls + 1;
      if |iv| != cipher.nonceSize {
        return None;
      }
      return Some(cipher.seal(iv, data, plain));
    }
  }

  // ---------------------------------------------------------------------------------------------
  // Size fields

  /** How sizes are written and read; parsers keep their own count of calls. */
  datatype SizeCodec = SizeCodec(sizeBytes: nat, encode: (nat, nat) -> bytes, decode: (nat, bytes) -> Option<nat>)

  ghost predicate GoodCodec(c: SizeCodec) {
    forall k, s :: s < 0x1_0000 ==> |c.encode(k, s)| == c.sizeBytes && c.decode(k, c.encode(k, s)) == Some(s)
  }

  const PLAIN_SIZES := SizeCodec(
    2, (k, s) => U16(s), (k, b: bytes) => if |b| < 2 then None else Some(FromU16(b[0], b[1])))

  /** The size without the overhead, in 16 bits. */
  function ShortSize(size: nat, overhead: nat): bytes {
    U16(size - overhead)
  }

  function FullSize(plain: Option<bytes>, overhead: nat): Option<nat> {
    if plain.None? || |plain.value| < 2 then None
    else Some((FromU16(plain.value[0], plain.value[1]) + overhead % 0x1_0000) % 0x1_0000)
  }

  function SealedSizes(c: Cipher, nonces: nat -> bytes, extra: nat -> bytes): SizeCodec {
    SizeCodec(2 + c.overhead,
              (k, s) => c.seal(nonces(k), extra(k), ShortSize(s, c.overhead)),
              (k, b) => FullSize(c.unseal(nonces(k), extra(k), b), c.overhead))
  }

  lemma FieldRoundTrip(n: int)
    ensures FromU16(U16(n)[0], U16(n)[1]) == n % 0x1_0000
  {
  }

  lemma WrapsBack(s: nat, overhead: nat)
    requires s < 0x1_0000
    ensures ((s - overhead) % 0x1_0000 + overhead % 0x1_0000) % 0x1_0000 == s
  {
  }

  /** A size smaller than the overhead wraps around twice. */
  lemma ShortSizeRoundTrip(s: nat, overhead: nat)
    requires s < 0x1_0000
    ensures |ShortSize(s, overhead)| == 2 && FullSize(Some(ShortSize(s, overhead)), overhead) == Some(s)
  {
    hide U16, FromU16;
    FieldRoundTrip(s - overhead);
    WrapsBack(s, overhead);
  }

  /** Every size comes back from either parser. */
  lemma SizesComeBack(c: Cipher, nonces: nat -> bytes, extra: nat -> bytes)
    requires Inverts(c)
    ensures GoodCodec(PLAIN_SIZES) && GoodCodec(SealedSizes(c, nonces, extra))
  {
    hide ShortSize, FullSize, U16, FromU16;
    var codec := SealedSizes(c, nonces, extra);
    forall k: nat, s: nat | s < 0x1_0000
      ensures |codec.encode(k, s)| == codec.sizeBytes && codec.decode(k, codec.encode(k, s)) == Some(s)
    {
      ShortSizeRoundTrip(s, c.overhead);
    }
    forall k: nat, s: nat | s < 0x1_0000
      ensures |PLAIN_SIZES.encode(k, s)| == 2 && PLAIN_SIZES.decode(k, PLAIN_SIZES.encode(k, s)) == Some(s)
    {
      FieldRoundTrip(s);
    }
  }

  /** The parser that seals its sizes, with an authenticator of its own. */
  class AEADChunkSizeParser {
    const auth: AEADAuthenticator

    constructor (auth: AEADAuthenticator)
      ensures this.auth == auth
    {
      this.auth := auth;
    }

    function Codec(): SizeCodec {
      SealedSizes(auth.cipher, auth.nonces, auth.extra)
    }

    /** A nonce of the wrong size stops the program. */
    method Encode(size: nat) returns (b: bytes)
      requires size < 0x1_0000 && |auth.nonces(auth.calls)| == auth.cipher.nonceSize
      modifies auth
      ensures auth.calls == old(auth.calls) + 1 && b == Codec().encode(old(auth.calls), size)
    {
      var sealed := auth.Seal(ShortSize(size, auth.cipher.overhead));
      b := sealed.value;
    }

    method Decode(b: bytes) returns (size: Option<nat>)
      requires |auth.nonces(auth.calls)| == auth.cipher.nonceSize
      modifies auth
      ensures auth.calls == old(auth.calls) + 1 && size == Codec().decode(old(auth.calls), b)
    {
      var plain := auth.Open(b);
      size := FullSize(plain, auth.cipher.overhead);
    }
  }

  // ---------------------------------------------------------------------------------------------
  // Chunks

  /** Padding lengths by the number of the call, and their bound. */
  datatype Padding = Padding(next: nat -> nat, max: nat)

  /** What both ends agree on. */
  datatype Setup = Setup(cipher: Cipher, nonces: nat -> bytes, extra: nat -> bytes, codec: SizeCodec,
                         padding: Option<Padding>) {
    function Pad(k: nat): nat {
      if padding.Some? then padding.value.next(k) else 0
    }

    function MaxPad(): nat {
      if padding.Some? then padding.value.max else 0
    }

    function SealAt(k: nat, plain: bytes): bytes {
      cipher.seal(nonces(k), extra(k), plain)
    }

    /** The two ends invert each other, and the nonces are of the right size. */
    ghost predicate Good() {
      && Inverts(cipher) && GoodCodec(codec)
      && (forall k :: |nonces(k)| == cipher.nonceSize)
      && (forall k :: Pad(k) <= MaxPad())
    }
  }

  /** One chunk: its plain text and its padding in clear. */
  datatype Chunk = Chunk(plain: bytes, pad: bytes)

  function Size(s: Setup, c: Chunk): nat {
    |c.plain| + s.cipher.overhead + |c.pad|
  }

  /** Behind the size field. */
  function Sealed(s: Setup, k: nat, c: Chunk): bytes {
    s.SealAt(k, c.plain) + c.pad
  }

  function WireOf(s: Setup, k: nat, c: Chunk): bytes {
    s.codec.encode(k, Size(s, c)) + Sealed(s, k, c)
  }

  /** Chunk number `k` may look like this. */
  ghost predicate MayBe(s: Setup, k: nat, c: Chunk) {
    |c.pad| == s.Pad(k) && Size(s, c) < 0x1_0000
  }

  /** Chunks numbered from `k` on. */
  function Wire(s: Setup, k: nat, chunks: seq<Chunk>): bytes
    decreases |chunks|
  {
    if chunks == [] then [] else WireOf(s, k, chunks[0]) + Wire(s, k + 1, chunks[1..])
  }

  function Plains(chunks: seq<Chunk>): (r: seq<bytes>)
    ensures |r| == |chunks| && forall i :: 0 <= i < |r| ==> r[i] == chunks[i].plain
  {
    seq(|chunks|, i requires 0 <= i < |chunks| => chunks[i].plain)
  }

  lemma {:induction false} WireSnoc(s: Setup, k: nat, chunks: seq<Chunk>, c: Chunk)
    ensures Wire(s, k, chunks + [c]) == Wire(s, k, chunks) + WireOf(s, k + |chunks|, c)
    decreases |chunks|
  {
    hide WireOf;
    if chunks == [] {
      assert ([] + [c])[1..] == [];
    } else {
      assert (chunks + [c])[1..] == chunks[1..] + [c];
      WireSnoc(s, k + 1, chunks[1..], c);
    }
  }

  lemma WireHead(s: Setup, k: nat, chunks: seq<Chunk>)
    requires chunks != []
    ensures Wire(s, k, chunks) == WireOf(s, k, chunks[0]) + Wire(s, k + 1, chunks[1..])
  {
  }
}
