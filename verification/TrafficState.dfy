/** The traffic state that the two directions of one Vision connection share. */
module TrafficStates {
  import opened ByteSeq
  import opened VisionDecoder

  const TLS13_SUPPORTED_VERSIONS: bytes := [0x00, 0x2b, 0x00, 0x02, 0x03, 0x04]
  const CLIENT_HANDSHAKE_START: bytes := [0x16, 0x03]
  const SERVER_HANDSHAKE_START: bytes := [0x16, 0x03, 0x03]
  const CLIENT_HELLO: byte := 0x01
  const SERVER_HELLO: byte := 0x02

  /** The TLS 1.3 suites (appendix B.4 of RFC 8446). */
  const TLS13_CIPHERS: map<int, string> := map[
    0x1301 := "TLS_AES_128_GCM_SHA256",
    0x1302 := "TLS_AES_256_GCM_SHA384",
    0x1303 := "TLS_CHACHA20_POLY1305_SHA256",
    0x1304 := "TLS_AES_128_CCM_SHA256",
    0x1305 := CCM_8]

  /** The one suite that does not allow the switch to raw copy. */
  const CCM_8 := "TLS_AES_128_CCM_8_SHA256"

  /** One side of the link: the reader's half and the writer's half. */
  datatype LinkState = LinkState(
    withinPaddingBuffers: bool,
    readerDirectCopy: bool,
    unpadder: Unpadder,
    isPadding: bool,
    writerDirectCopy: bool)

  const NEW_LINK := LinkState(true, false, INITIAL, true, false)

  predicate Contains(b: bytes, pattern: bytes) {
    exists i: nat :: i <= |b| && pattern <= b[i..]
  }

  /** The part of the state that the packet filter works on. */
  datatype Filter = Filter(packets: int, enableXtls: bool, isTLS12orAbove: bool, isTLS: bool, cipher: int,
                           remaining: int)

  predicate IsServerHello(b: bytes) {
    |b| >= 6 && b[..3] == SERVER_HANDSHAKE_START && b[5] == SERVER_HELLO
  }

  predicate IsClientHello(b: bytes) {
    |b| >= 6 && b[..2] == CLIENT_HANDSHAKE_START && b[5] == CLIENT_HELLO
  }

  /** How hellos begin: a handshake record of SSL 3 or TLS, and the type of the message (section 4 of RFC 8446). */
  lemma HelloStarts(b: bytes)
    ensures IsServerHello(b) <==> |b| >= 6 && b[0] == 22 && b[1] == 3 && b[2] == 3 && b[5] == 2
    ensures IsClientHello(b) <==> |b| >= 6 && b[0] == 22 && b[1] == 3 && b[5] == 1
  {
    if |b| >= 6 {
      assert b[..3] == [b[0], b[1], b[2]] && b[..2] == [b[0], b[1]];
    }
  }

  /** Length of the record that a server hello begins. */
  function HelloLen(b: bytes): int
    requires |b| >= 6
  {
    FromU16(b[3], b[4]) + 5
  }

  /** Byte `at` of a buffer; behind its content there is whatever the pooled array holds. */
  function ByteAt(b: bytes, at: nat, stale: nat -> byte): byte {
    if at < |b| then b[at] else stale(at)
  }

  /** The suite behind the session identifier. */
  function CipherOf(b: bytes, stale: nat -> byte): int
    requires |b| >= 79
  {
    FromU16(ByteAt(b, 44 + (b[43] as int), stale), ByteAt(b, 45 + (b[43] as int), stale))
  }

  predicate AllowsXtls(cipher: int) {
    cipher in TLS13_CIPHERS && TLS13_CIPHERS[cipher] != CCM_8
  }

  /** The suites that allow the switch: the two with GCM, ChaCha20, and CCM with its full tag. */
  lemma AllowedSuites(cipher: int)
    ensures AllowsXtls(cipher) <==> cipher in {0x1301, 0x1302, 0x1303, 0x1304}
  {
    assert |TLS13_CIPHERS[0x1301]| == 22 && |TLS13_CIPHERS[0x1302]| == 22 && |TLS13_CIPHERS[0x1303]| == 28;
    assert |TLS13_CIPHERS[0x1304]| == 22 && |CCM_8| == 24;
  }

  /** What the filter notices at the start of a buffer. */
  function Noticed(f: Filter, b: bytes, stale: nat -> byte): Filter {
    if IsServerHello(b) then
      f.(remaining := HelloLen(b), isTLS12orAbove := true, isTLS := true,
         cipher := if |b| >= 79 && HelloLen(b) >= 79 then CipherOf(b, stale) else f.cipher)
    else if IsClientHello(b) then f.(isTLS := true)
    else f
  }

  /** One buffer, and whether filtering is over with it. */
  function FilterOne(f0: Filter, b: bytes, stale: nat -> byte): (Filter, bool) {
    var f := Noticed(f0.(packets := f0.packets - 1), b, stale);
    if f.remaining <= 0 then (f, false)
    else
      var g := f.(remaining := f.remaining - |b|);
      if Contains(b[..if f.remaining > |b| then |b| else f.remaining], TLS13_SUPPORTED_VERSIONS) then
        (g.(packets := 0, enableXtls := g.enableXtls || AllowsXtls(g.cipher)), true)
      else if g.remaining <= 0 then (g.(packets := 0), true)
      else (g, false)
  }

  function Row(stale: (nat, nat) -> byte, i: nat): nat -> byte {
    at => stale(i, at)
  }

  /** The buffers from `i` on. */
  function FilterFrom(f: Filter, buffer: seq<Option<bytes>>, stale: (nat, nat) -> byte, i: nat): Filter
    requires i <= |buffer|
    decreases |buffer| - i
  {
    if i == |buffer| then f
    else if buffer[i].None? then FilterFrom(f, buffer, stale, i + 1)
    else
      var (g, stop) := FilterOne(f, buffer[i].value, Row(stale, i));
      if stop then g else FilterFrom(g, buffer, stale, i + 1)
  }

  lemma OnePart(f: Filter, b: bytes, stale: (nat, nat) -> byte)
    ensures FilterFrom(f, [Some(b)], stale, 0) == FilterOne(f, b, Row(stale, 0)).0
  {
    hide FilterOne;
    var (g, stop) := FilterOne(f, b, Row(stale, 0));
    assert FilterFrom(g, [Some(b)], stale, 1) == g;
  }

  lemma TwoParts(f: Filter, b: bytes, c: bytes, stale: (nat, nat) -> byte)
    ensures var (g, stop) := FilterOne(f, b, Row(stale, 0));
            FilterFrom(f, [Some(b), Some(c)], stale, 0) == if stop then g else FilterOne(g, c, Row(stale, 1)).0
  {
    hide FilterOne;
    var mb := [Some(b), Some(c)];
    var (g, stop) := FilterOne(f, b, Row(stale, 0));
    var (k, over) := FilterOne(g, c, Row(stale, 1));
    assert FilterFrom(k, mb, stale, 2) == k;
    assert FilterFrom(g, mb, stale, 1) == k;
  }

  /** A server hello whole in one buffer: it decides at once, by its versions and its suite. */
  lemma WholeHello(f: Filter, h: bytes, stale: nat -> byte)
    requires IsServerHello(h) && 79 <= HelloLen(h) <= |h| && 46 + (h[43] as int) <= |h|
    ensures var (g, stop) := FilterOne(f, h, stale);
            && stop && g.packets == 0 && g.isTLS12orAbove
            && (g.enableXtls <==>
                  f.enableXtls || (Contains(h[..HelloLen(h)], TLS13_SUPPORTED_VERSIONS) && AllowsXtls(Suite(h))))
  {
  }

  /** The suite of a hello that is long enough to hold it. */
  function Suite(h: bytes): int
    requires |h| >= 79 && 46 + (h[43] as int) <= |h|
  {
    FromU16(h[44 + (h[43] as int)], h[45 + (h[43] as int)])
  }

  predicate Occurs(b: bytes, pattern: bytes, i: nat) {
    i <= |b| && pattern <= b[i..]
  }

  /** The pattern stands somewhere in `b` where a cut at `n` does not go through it. */
  ghost predicate Spared(b: bytes, pattern: bytes, n: nat) {
    exists i: nat :: Occurs(b, pattern, i) && !(i < n < i + |pattern|)
  }

  /** The suite that is known when the beginning `b` of a hello is searched for its versions. */
  function SuiteAfter(cipher: int, b: bytes, stale: nat -> byte): int
    requires |b| >= 6
  {
    if |b| >= 79 && HelloLen(b) >= 79 then CipherOf(b, stale) else cipher
  }

  /** What of a buffer that begins a hello belongs to it. */
  function OfHello(b: bytes): bytes
    requires |b| >= 6
  {
    b[..if HelloLen(b) < |b| then HelloLen(b) else |b|]
  }

  /**
   * The second part of a hello cut at `n` is taken for a hello of its own: it looks like one, and the first part has
   * not ended the search.
   */
  predicate Misread(h: bytes, n: nat)
    requires |h| >= 6 && n <= |h|
  {
    IsServerHello(h[n..]) && (n < 6 || (n < HelloLen(h) && !Contains(h[..n], TLS13_SUPPORTED_VERSIONS)))
  }

  /** What is enabled by a second part that is taken for a hello of its own. */
  predicate MisreadEnables(cipher: int, h: bytes, n: nat, stale: (nat, nat) -> byte)
    requires |h| >= 6 && n <= |h| && Misread(h, n)
  {
    var known := if n < 6 then cipher else SuiteAfter(cipher, h[..n], Row(stale, 0));
    AllowsXtls(SuiteAfter(known, h[n..], Row(stale, 1))) && Contains(OfHello(h[n..]), TLS13_SUPPORTED_VERSIONS)
  }

  /**
   * A server hello cut in two anywhere. A cut inside the first six bytes hides the hello. Behind them, the versions are
   * found exactly if the cut does not go through them, and they count with the suite that is known by then.
   */
  lemma CutHello(f: Filter, h: bytes, n: nat, stale: (nat, nat) -> byte)
    requires IsServerHello(h) && HelloLen(h) <= |h| && n <= |h| && (n < 6 ==> f.remaining <= 0)
    ensures var g := FilterFrom(f, [Some(h[..n]), Some(h[n..])], stale, 0);
            if Misread(h, n) then
              g.enableXtls <==> f.enableXtls || MisreadEnables(f.cipher, h, n, stale)
            else if n < 6 then
              g == f.(packets := f.packets - 2, isTLS := f.isTLS || IsClientHello(h[n..]))
            else
              && g.packets == 0 && g.isTLS12orAbove
              && (g.enableXtls <==>
                    f.enableXtls || (AllowsXtls(SuiteAfter(f.cipher, h[..n], Row(stale, 0)))
                                     && Spared(h[..HelloLen(h)], TLS13_SUPPORTED_VERSIONS, n)))
  {
    hide Contains, Spared, AllowsXtls, CipherOf, IsClientHello, FromU16, Noticed, FilterOne, OfHello, SuiteAfter;
    var b, c, len := h[..n], h[n..], HelloLen(h);
    var (g, stop) := FilterOne(f, b, Row(stale, 0));
    TwoParts(f, b, c, stale);
    if n < 6 {
      assert !IsServerHello(b) && !IsClientHello(b) by {
        ShortIsNoHello(b);
      }
      PlainPart(f, b, Row(stale, 0));
      if IsServerHello(c) {
        HelloPart(g, c, Row(stale, 1));
      } else {
        PlainPart(g, c, Row(stale, 1));
      }
    } else {
      SameHello(h, n);
      HelloPart(f, b, Row(stale, 0));
      SparedInParts(h[..len], TLS13_SUPPORTED_VERSIONS, n);
      if stop {
        assert n < len ==> h[..len][..n] == b;
      } else if IsServerHello(c) {
        HelloPart(g, c, Row(stale, 1));
      } else {
        NextPart(g, c, Row(stale, 1));
        assert h[..len][n..] == c[..len - n];
        assert h[..len][..n] == b;
      }
    }
  }

  lemma SameHello(h: bytes, n: nat)
    requires IsServerHello(h) && HelloLen(h) <= |h| && 6 <= n <= |h|
    ensures var b := h[..n];
            && IsServerHello(b) && HelloLen(b) == HelloLen(h)
            && OfHello(b) == if n < HelloLen(h) then b else h[..HelloLen(h)]
  {
    hide FromU16;
    assert h[..n][..3] == h[..3];
    assert h[..n][..n] == h[..n];
    if HelloLen(h) <= n {
      assert h[..n][..HelloLen(h)] == h[..HelloLen(h)];
    }
  }

  lemma ShortIsNoHello(b: bytes)
    requires |b| < 6
    ensures !IsServerHello(b) && !IsClientHello(b)
  {
  }

  /** A buffer that is no server hello, while none is being read. */
  lemma PlainPart(f: Filter, b: bytes, stale: nat -> byte)
    requires f.remaining <= 0 && !IsServerHello(b)
    ensures FilterOne(f, b, stale) == (f.(packets := f.packets - 1, isTLS := f.isTLS || IsClientHello(b)), false)
  {
  }

  /** A buffer that begins a hello. */
  lemma HelloPart(f: Filter, b: bytes, stale: nat -> byte)
    requires IsServerHello(b)
    ensures var (g, stop) := FilterOne(f, b, stale);
            var found := Contains(OfHello(b), TLS13_SUPPORTED_VERSIONS);
            && g.isTLS12orAbove && g.cipher == SuiteAfter(f.cipher, b, stale)
            && (stop <==> found || HelloLen(b) <= |b|)
            && (if stop then g.packets == 0 else g.packets == f.packets - 1 && g.remaining == HelloLen(b) - |b|)
            && (g.enableXtls <==> f.enableXtls || (AllowsXtls(g.cipher) && found))
  {
    hide Contains, AllowsXtls, CipherOf, FromU16;
  }

  /** A buffer that goes on with a hello. */
  lemma NextPart(f: Filter, c: bytes, stale: nat -> byte)
    requires 0 < f.remaining && !IsServerHello(c)
    ensures var (g, stop) := FilterOne(f, c, stale);
            var found := Contains(c[..if f.remaining > |c| then |c| else f.remaining], TLS13_SUPPORTED_VERSIONS);
            && g.isTLS12orAbove == f.isTLS12orAbove && g.cipher == f.cipher
            && (stop <==> found || f.remaining <= |c|)
            && (if stop then g.packets == 0 else g.packets == f.packets - 1 && g.remaining == f.remaining - |c|)
            && (g.enableXtls <==> f.enableXtls || (AllowsXtls(f.cipher) && found))
  {
    hide Contains, AllowsXtls, CipherOf, FromU16, IsServerHello, IsClientHello;
  }

  /** What a cut spares is what one of the parts contains. */
  lemma SparedInParts(b: bytes, pattern: bytes, n: nat)
    requires pattern != []
    ensures Spared(b, pattern, n) <==>
              if n < |b| then Contains(b[..n], pattern) || Contains(b[n..], pattern) else Contains(b, pattern)
  {
    forall i: nat | Occurs(b, pattern, i) && !(i < n < i + |pattern|)
      ensures if n < |b| then Contains(b[..n], pattern) || Contains(b[n..], pattern) else Contains(b, pattern)
    {
      if n < |b| {
        if n <= i {
          assert b[n..][i - n..] == b[i..];
        } else {
          assert b[..n][i..] == b[i..n];
          assert pattern <= b[i..n];
        }
      }
    }
    if n < |b| {
      forall i: nat | i <= n && pattern <= b[..n][i..]
        ensures Spared(b, pattern, n)
      {
        assert b[..n][i..] == b[i..n];
        assert b[i..n] <= b[i..];
        assert Occurs(b, pattern, i);
      }
      forall i: nat | i <= |b| - n && pattern <= b[n..][i..]
        ensures Spared(b, pattern, n)
      {
        assert b[n..][i..] == b[n + i..];
        assert Occurs(b, pattern, n + i);
      }
    } else {
      forall i: nat | i <= |b| && pattern <= b[i..]
        ensures Spared(b, pattern, n)
      {
        assert Occurs(b, pattern, i);
      }
    }
  }

  lemma SparedInside(b: bytes, pattern: bytes, n: nat)
    requires Spared(b, pattern, n)
    ensures Contains(b, pattern)
  {
    var i: nat :| Occurs(b, pattern, i) && !(i < n < i + |pattern|);
  }

  /**
   * A cut hello against the whole one, before any suite is known: unless its rest is taken for another hello, the cut
   * loses it exactly if it comes too early for the suite or goes through the versions. A cut through the suite, or in
   * front of one that a long session identifier has moved back, puts what is behind the buffer in its place.
   */
  lemma CutAgainstWhole(f: Filter, h: bytes, n: nat, stale: (nat, nat) -> byte)
    requires IsServerHello(h) && 79 <= HelloLen(h) <= |h| && n <= |h| && 46 + (h[43] as int) <= |h|
    requires !f.enableXtls && !AllowsXtls(f.cipher) && f.remaining <= 0
    ensures FilterFrom(f, [Some(h[..n]), Some(h[n..])], stale, 0).enableXtls <==>
              if Misread(h, n) then MisreadEnables(f.cipher, h, n, stale)
              else
                && n >= 79 && Spared(h[..HelloLen(h)], TLS13_SUPPORTED_VERSIONS, n)
                && if 46 + (h[43] as int) <= n then FilterFrom(f, [Some(h)], stale, 0).enableXtls
                   else AllowsXtls(CipherOf(h[..n], Row(stale, 0)))
  {
    hide Contains, AllowsXtls, FilterOne, FromU16, IsServerHello, IsClientHello, MisreadEnables, Spared;
    OnePart(f, h, stale);
    WholeHello(f, h, Row(stale, 0));
    CutHello(f, h, n, stale);
    if Spared(h[..HelloLen(h)], TLS13_SUPPORTED_VERSIONS, n) {
      SparedInside(h[..HelloLen(h)], TLS13_SUPPORTED_VERSIONS, n);
    }
    if n >= 79 {
      assert h[..n][43] == h[43] && HelloLen(h[..n]) == HelloLen(h);
      if 46 + (h[43] as int) <= n {
        assert CipherOf(h[..n], Row(stale, 0)) == Suite(h);
      }
    }
  }

  // ---------------------------------------------------------------------------------------------
  // A hello in many parts

  /** Buffers in calls of their own, which are made as long as there are packets left to filter. */
  function FilterCalls(f: Filter, parts: seq<bytes>, stale: (nat, nat) -> byte, i: nat): Filter
    requires i <= |parts|
    decreases |parts| - i
  {
    if i == |parts| then f
    else FilterCalls(if f.packets > 0 then FilterOne(f, parts[i], Row(stale, i)).0 else f, parts, stale, i + 1)
  }

  /** The versions stand whole in part `k`, in its bytes that still belong to the hello, and the part is looked at. */
  ghost predicate FoundIn(parts: seq<bytes>, i: nat, k: nat, packets: int, left: int) {
    && i <= k < |parts| && k - i < packets && |Flat(parts[i..k])| < left
    && var rest := left - |Flat(parts[i..k])|;
       Contains(parts[k][..if rest > |parts[k]| then |parts[k]| else rest], TLS13_SUPPORTED_VERSIONS)
  }

  ghost predicate Found(parts: seq<bytes>, i: nat, packets: int, left: int) {
    exists k :: FoundIn(parts, i, k, packets, left)
  }

  /** The parts from `i` on, with `f.remaining` bytes of the hello still to come. */
  lemma {:induction false} LaterParts(f: Filter, parts: seq<bytes>, stale: (nat, nat) -> byte, i: nat)
    requires i <= |parts| && 0 < f.remaining && forall k :: i <= k < |parts| ==> !IsServerHello(parts[k])
    ensures FilterCalls(f, parts, stale, i).enableXtls <==>
              f.enableXtls || (AllowsXtls(f.cipher) && Found(parts, i, f.packets, f.remaining))
    decreases |parts| - i
  {
    hide Contains, AllowsXtls, FilterOne, IsServerHello, Found, Flat;
    if i == |parts| || f.packets <= 0 {
      NothingFound(parts, i, f.packets, f.remaining);
      NoMoreCalls(f, parts, stale, i);
    } else {
      var (g, stop) := FilterOne(f, parts[i], Row(stale, i));
      NextPart(f, parts[i], Row(stale, i));
      FoundNext(parts, i, f.packets, f.remaining);
      if stop {
        NoMoreCalls(g, parts, stale, i + 1);
        if f.remaining <= |parts[i]| {
          NothingFound(parts, i + 1, f.packets - 1, f.remaining - |parts[i]|);
        }
      } else {
        LaterParts(g, parts, stale, i + 1);
      }
    }
  }

  lemma FirstCall(f: Filter, parts: seq<bytes>, stale: (nat, nat) -> byte)
    requires parts != [] && f.packets > 0
    ensures FilterCalls(f, parts, stale, 0) ==
              FilterCalls(FilterOne(f, parts[0], Row(stale, 0)).0, parts, stale, 1)
  {
    hide FilterOne;
  }

  lemma NoMoreCalls(f: Filter, parts: seq<bytes>, stale: (nat, nat) -> byte, i: nat)
    requires i <= |parts| && (f.packets <= 0 || i == |parts|)
    ensures FilterCalls(f, parts, stale, i) == f
    decreases |parts| - i
  {
    hide FilterOne;
    if i < |parts| {
      NoMoreCalls(f, parts, stale, i + 1);
    }
  }

  lemma NothingFound(parts: seq<bytes>, i: nat, packets: int, left: int)
    requires i == |parts| || packets <= 0 || left <= 0
    ensures !Found(parts, i, packets, left)
  {
  }

  lemma FoundNext(parts: seq<bytes>, i: nat, packets: int, left: int)
    requires i < |parts| && packets > 0 && left > 0
    ensures Found(parts, i, packets, left) <==>
              || Contains(parts[i][..if left > |parts[i]| then |parts[i]| else left], TLS13_SUPPORTED_VERSIONS)
              || Found(parts, i + 1, packets - 1, left - |parts[i]|)
  {
    hide Contains, Flat;
    assert |Flat(parts[i..i])| == 0 by {
      FlatNothing();
      assert parts[i..i] == [];
    }
    assert FoundIn(parts, i, i, packets, left) <==>
        Contains(parts[i][..if left > |parts[i]| then |parts[i]| else left], TLS13_SUPPORTED_VERSIONS);
    if Found(parts, i, packets, left) {
      var k :| FoundIn(parts, i, k, packets, left);
      FoundLater(parts, i, k, packets, left);
    }
    if Found(parts, i + 1, packets - 1, left - |parts[i]|) {
      var k :| FoundIn(parts, i + 1, k, packets - 1, left - |parts[i]|);
      FoundLater(parts, i, k, packets, left);
    }
  }

  lemma FoundLater(parts: seq<bytes>, i: nat, k: nat, packets: int, left: int)
    requires i < |parts|
    ensures i < k ==> (FoundIn(parts, i, k, packets, left) <==>
                       FoundIn(parts, i + 1, k, packets - 1, left - |parts[i]|))
  {
    hide Contains, Flat;
    if i < k < |parts| {
      assert parts[i..k] == [parts[i]] + parts[i + 1..k];
      FlatConcat([parts[i]], parts[i + 1..k]);
      FlatOne(parts[i]);
    }
  }

  /**
   * A server hello in any number of buffers, each in a call of its own: the versions are found exactly if they stand
   * whole in one of them, while there are packets left, and count with the suite that the first one shows.
   */
  lemma HelloInParts(f: Filter, parts: seq<bytes>, stale: (nat, nat) -> byte)
    requires parts != [] && IsServerHello(parts[0]) && f.packets > 0
    requires forall k :: 1 <= k < |parts| ==> !IsServerHello(parts[k])
    ensures FilterCalls(f, parts, stale, 0).enableXtls <==>
              f.enableXtls || (AllowsXtls(SuiteAfter(f.cipher, parts[0], Row(stale, 0)))
                               && Found(parts, 0, f.packets, HelloLen(parts[0])))
  {
    hide Contains, AllowsXtls, FilterOne, Found, SuiteAfter, Row, FilterCalls, IsServerHello;
    FirstCall(f, parts, stale);
    assert 6 <= |parts[0]| by {
      HelloStarts(parts[0]);
    }
    var b, len := parts[0], HelloLen(parts[0]);
    var (g, stop) := FilterOne(f, b, Row(stale, 0));
    HelloPart(f, b, Row(stale, 0));
    FoundNext(parts, 0, f.packets, len);
    if stop {
      NoMoreCalls(g, parts, stale, 1);
      if len <= |b| {
        NothingFound(parts, 1, f.packets - 1, len - |b|);
      }
    } else {
      LaterParts(g, parts, stale, 1);
    }
  }

  /** A hello of 84 bytes with no session identifier, the first suite, and the versions at its end. */
  function HelloWithVersions(): (h: bytes)
    ensures |h| == 84
  {
    [0x16, 0x03, 0x03, 0, 79, 0x02] + seq(38, (i: nat) => 0 as byte) + [0x13, 0x01] + seq(32, (i: nat) => 0 as byte)
    + [0x00, 0x2b, 0x00, 0x02, 0x03, 0x04]
  }

  lemma VersionsOnce()
    ensures Spared(HelloWithVersions(), TLS13_SUPPORTED_VERSIONS, 0)
    ensures !Spared(HelloWithVersions(), TLS13_SUPPORTED_VERSIONS, 80)
  {
    var h := HelloWithVersions();
    assert h[78..] == TLS13_SUPPORTED_VERSIONS;
    assert Occurs(h, TLS13_SUPPORTED_VERSIONS, 78);
    forall i: nat | Occurs(h, TLS13_SUPPORTED_VERSIONS, i)
      ensures i == 78
    {
      assert h[i..][1] == h[i + 1];
      assert h[i + 1] == 0x2b;
    }
  }

  lemma HelloShape()
    ensures var h := HelloWithVersions();
            && IsServerHello(h) && HelloLen(h) == 84 && h[43] == 0 && AllowsXtls(Suite(h))
            && !IsServerHello(h[3..]) && !IsServerHello(h[50..]) && !IsServerHello(h[80..])
  {
    var h := HelloWithVersions();
    assert h[3] == 0 && h[4] == 79 && h[44] == 0x13 && h[45] == 0x01;
    assert FromU16(0x13, 0x01) == 0x1301;
    assert h[3..][0] != 0x16 && h[50..][0] != 0x16;
  }

  /** That hello is recognised whole, but not cut inside its start, before its suite, or through the versions. */
  lemma CutsThatHide(stale: (nat, nat) -> byte)
    ensures var h, f := HelloWithVersions(), Filter(8, false, false, false, 0, -1);
            && FilterFrom(f, [Some(h)], stale, 0).enableXtls
            && FilterFrom(f, [Some(h[..3]), Some(h[3..])], stale, 0).remaining == -1
            && !FilterFrom(f, [Some(h[..3]), Some(h[3..])], stale, 0).enableXtls
            && !FilterFrom(f, [Some(h[..50]), Some(h[50..])], stale, 0).enableXtls
            && !FilterFrom(f, [Some(h[..80]), Some(h[80..])], stale, 0).enableXtls
  {
    hide FilterFrom, FilterOne, HelloWithVersions, IsServerHello, HelloLen, Contains, Spared, Suite, IsClientHello;
    var h, f := HelloWithVersions(), Filter(8, false, false, false, 0, -1);
    HelloShape();
    VersionsOnce();
    assert h[..84] == h;
    SparedInside(h, TLS13_SUPPORTED_VERSIONS, 0);
    OnePart(f, h, stale);
    WholeHello(f, h, Row(stale, 0));
    CutHello(f, h, 3, stale);
    CutAgainstWhole(f, h, 50, stale);
    CutAgainstWhole(f, h, 80, stale);
  }

  class TrafficState {
    const userUUID: bytes
    var numberOfPacketToFilter: int
    var enableXtls: bool
    var isTLS12orAbove: bool
    var isTLS: bool
    var cipher: int
    var remainingServerHello: int
    var inbound: LinkState
    var outbound: LinkState

    constructor (userUUID: bytes)
      ensures this.userUUID == userUUID && FilterInvariant()
      ensures inbound == NEW_LINK && outbound == NEW_LINK
      ensures !isTLS && numberOfPacketToFilter == 8
    {
      this.userUUID := userUUID;
      numberOfPacketToFilter := 8;
      enableXtls, isTLS12orAbove, isTLS := false, false, false;
      cipher := 0;
      remainingServerHello := -1;
      inbound, outbound := NEW_LINK, NEW_LINK;
    }

    function Filtering(): Filter
      reads this
    {
      Filter(numberOfPacketToFilter, enableXtls, isTLS12orAbove, isTLS, cipher, remainingServerHello)
    }

    /** What the packet filter keeps: raw copy is enabled only for a TLS 1.3 suite found in a server hello. */
    ghost predicate FilterInvariant()
      reads this
    {
      && (enableXtls ==> isTLS12orAbove && AllowsXtls(cipher) && numberOfPacketToFilter <= 0)
      && (remainingServerHello > 0 ==> isTLS12orAbove)
      && (isTLS12orAbove ==> isTLS)
    }

    /**
     * Counts packets and recognises TLS handshakes. The session identifier may place the cipher suite
     * behind the end of the buffer's content; what is read there is `stale`.
     */
    method XtlsFilterTls(buffer: seq<Option<bytes>>, stale: (nat, nat) -> byte)
      requires FilterInvariant() && numberOfPacketToFilter > 0
      modifies this`numberOfPacketToFilter, this`enableXtls, this`isTLS12orAbove, this`isTLS, this`cipher,
          this`remainingServerHello
      ensures Filtering() == FilterFrom(old(Filtering()), buffer, stale, 0)
      ensures FilterInvariant()
      ensures old(isTLS) ==> isTLS
      ensures old(isTLS12orAbove) ==> isTLS12orAbove
      ensures numberOfPacketToFilter <= old(numberOfPacketToFilter)
    {
      hide FilterOne, AllowsXtls;
      for i := 0 to |buffer|
        invariant FilterFrom(Filtering(), buffer, stale, i) == FilterFrom(old(Filtering()), buffer, stale, 0)
        invariant FilterInvariant() && !enableXtls
        invariant old(isTLS) ==> isTLS
        invariant old(isTLS12orAbove) ==> isTLS12orAbove
        invariant numberOfPacketToFilter <= old(numberOfPacketToFilter)
      {
        if buffer[i].None? {
          continue;
        }
        var stop := FilterBuffer(buffer[i].value, Row(stale, i));
        if stop {
          return;
        }
      }
    }

    method FilterBuffer(b: bytes, stale: nat -> byte) returns (stop: bool)
      requires FilterInvariant() && !enableXtls
      modifies this`numberOfPacketToFilter, this`enableXtls, this`isTLS12orAbove, this`isTLS, this`cipher,
          this`remainingServerHello
      ensures (Filtering(), stop) == FilterOne(old(Filtering()), b, stale)
      ensures FilterInvariant() && (enableXtls ==> stop)
      ensures old(isTLS) ==> isTLS
      ensures old(isTLS12orAbove) ==> isTLS12orAbove
      ensures numberOfPacketToFilter < old(numberOfPacketToFilter) || (stop && numberOfPacketToFilter == 0)
    {
      hide Contains, Noticed, IsServerHello, IsClientHello, FromU16;
      Notice(b, stale);
      if remainingServerHello > 0 {
        var end := if remainingServerHello > |b| then |b| else remainingServerHello;
        remainingServerHello := remainingServerHello - |b|;
        if Contains(b[..end], TLS13_SUPPORTED_VERSIONS) {
          if cipher in TLS13_CIPHERS && TLS13_CIPHERS[cipher] != CCM_8 {
            enableXtls := true;
          }
          numberOfPacketToFilter := 0;
          return true;
        } else if remainingServerHello <= 0 {
          numberOfPacketToFilter := 0;
          return true;
        }
      }
      return false;
    }

    /** Counts the packet and looks at its start. */
    method Notice(b: bytes, stale: nat -> byte)
      requires FilterInvariant()
      modifies this`numberOfPacketToFilter, this`isTLS12orAbove, this`isTLS, this`cipher, this`remainingServerHello
      ensures Filtering() == Noticed(old(Filtering()).(packets := old(numberOfPacketToFilter) - 1), b, stale)
      ensures old(isTLS) ==> isTLS
      ensures old(isTLS12orAbove) ==> isTLS12orAbove
      ensures (remainingServerHello > 0 ==> isTLS12orAbove) && (isTLS12orAbove ==> isTLS)
      ensures numberOfPacketToFilter == old(numberOfPacketToFilter) - 1
    {
      numberOfPacketToFilter := numberOfPacketToFilter - 1;
      if |b| >= 6 {
        if b[..3] == SERVER_HANDSHAKE_START && b[5] == SERVER_HELLO {
          remainingServerHello := FromU16(b[3], b[4]) + 5;
          isTLS12orAbove, isTLS := true, true;
          if |b| >= 79 && remainingServerHello >= 79 {
            var at := 44 + (b[43] as int);
            var hi := if at < |b| then b[at] else stale(at);
            var lo := if at + 1 < |b| then b[at + 1] else stale(at + 1);
            cipher := FromU16(hi, lo);
          }
        } else if b[..2] == CLIENT_HANDSHAKE_START && b[5] == CLIENT_HELLO {
          isTLS := true;
        }
      }
    }
  }
}
