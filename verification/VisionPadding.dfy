/** XTLS Vision padding: the block format, the padding encoder and the incremental decoder. */
module VisionPadding {
  import opened ByteSeq

  const COMMAND_CONTINUE: byte := 0
  const COMMAND_END: byte := 1
  const COMMAND_DIRECT: byte := 2

  const UUID_LEN: nat := 16

  /** One padded block as it travels: a command, the content and the padding that hides its length. */
  datatype Block = Block(command: byte, content: bytes, padding: bytes)

  function EncodeBlock(b: Block): bytes {
    [b.command] + U16(|b.content|) + U16(|b.padding|) + b.content + b.padding
  }

  function EncodeBlocks(bs: seq<Block>): bytes {
    if bs == [] then [] else EncodeBlock(bs[0]) + EncodeBlocks(bs[1..])
  }

  function Contents(bs: seq<Block>): bytes {
    if bs == [] then [] else bs[0].content + Contents(bs[1..])
  }

  /** The lengths fit their 16-bit fields, as they do for any block that fits a buffer. */
  ghost predicate Encodable(bs: seq<Block>) {
    forall i :: 0 <= i < |bs| ==> |bs[i].content| < 0x1_0000 && |bs[i].padding| < 0x1_0000
  }

  /** Every block but possibly the last continues the padded part. */
  ghost predicate Chain(bs: seq<Block>) {
    forall i :: 0 <= i < |bs| - 1 ==> bs[i].command == COMMAND_CONTINUE
  }

  ghost predicate Terminated(bs: seq<Block>) {
    bs != [] && bs[|bs| - 1].command != COMMAND_CONTINUE
  }

  /** The format, byte by byte: command, two lengths, content, padding. */
  lemma BlocksOnWire(x: byte)
    ensures EncodeBlock(Block(COMMAND_CONTINUE, [x], [])) == [0, 0, 1, 0, 0, x]
    ensures EncodeBlock(Block(COMMAND_END, [], [x])) == [1, 0, 0, 0, 1, x]
    ensures EncodeBlock(Block(COMMAND_DIRECT, [x], [x])) == [2, 0, 1, 0, 1, x, x]
  {
    assert U16(0) == [0, 0] && U16(1) == [0, 1];
  }

  // ---------------------------------------------------------------------------------------------
  // The encoder

  /** `int32(u)` for a `uint32`, and int32 addition: two's complement wrap-around. */
  function Int32(n: int): (r: int)
    ensures -0x8000_0000 <= r < 0x8000_0000
    ensures (r - n) % 0x1_0000_0000 == 0
    ensures -0x8000_0000 <= n < 0x8000_0000 ==> r == n
    ensures 0x8000_0000 <= n < 0x1_8000_0000 ==> r == n - 0x1_0000_0000
    ensures -0x1_8000_0000 <= n < -0x8000_0000 ==> r == n + 0x1_0000_0000
  {
    (n + 0x8000_0000) % 0x1_0000_0000 - 0x8000_0000
  }

  type uint32 = n: int | 0 <= n < 0x1_0000_0000

  /** The four numbers that shape padding: threshold, long random range, long base, short random range. */
  datatype Seed = Seed(threshold: uint32, longRange: uint32, longBase: uint32, shortRange: uint32)

  const DEFAULT_SEED := Seed(900, 500, 900, 256)

  predicate UsesLongPadding(contentLen: nat, longPadding: bool, seed: Seed) {
    contentLen < Int32(seed.threshold) && longPadding
  }

  /** Exclusive bound of the random draw; drawing below a non-positive bound panics. */
  function DrawBound(contentLen: nat, longPadding: bool, seed: Seed): nat {
    if UsesLongPadding(contentLen, longPadding, seed) then seed.longRange else seed.shortRange
  }

  function PaddingLen(contentLen: nat, draw: nat, longPadding: bool, seed: Seed): int {
    var wanted :=
      if UsesLongPadding(contentLen, longPadding, seed)
      then Int32(Int32(Int32(draw) + Int32(seed.longBase)) - contentLen)
      else Int32(draw);
    var room := BUF_SIZE - 21 - contentLen;
    if wanted > room then room else wanted
  }

  /**
   * The padded form of one buffer. None is the panic of extending a buffer by a negative amount.
   * A buffer of at most BUF_SIZE - 21 bytes always has room for the identifier and the header.
   */
  function XtlsPadding(content: bytes, command: byte, uuid: Option<bytes>, draw: nat, longPadding: bool, seed: Seed)
    : Option<(Block, bytes)>
  {
    var n := PaddingLen(|content|, draw, longPadding, seed);
    if n < 0 then None
    else
      var block := Block(command, content, Zeros(n));
      Some((block, (if uuid.Some? then uuid.value else []) + EncodeBlock(block)))
  }

  /** What a seed must satisfy for padding never to panic. */
  predicate SafeSeed(seed: Seed) {
    && 0 < seed.shortRange <= 0x8000_0000
    && (Int32(seed.threshold) <= 0 ||
        (&& 0 < seed.longRange
         && Int32(seed.longBase) + seed.longRange <= 0x8000_0000
         && (Int32(seed.longBase) >= Int32(seed.threshold) - 1 || Int32(seed.longBase) >= BUF_SIZE - 21)))
  }

  /** The most that content and padding have together, so that the identifier and the header still fit a buffer. */
  const MOST_PADDED: int := 8171

  /**
   * What padding is for. Content below the threshold, where long padding is asked for, gets a size that does not depend
   * on it; other content gets some bytes more that do not depend on it either, as far as there is room.
   */
  ghost predicate HidesLength(contentLen: nat, paddingLen: int, draw: nat, longPadding: bool, seed: Seed) {
    if longPadding && contentLen < Int32(seed.threshold) then
      contentLen + paddingLen == if seed.longBase + draw < MOST_PADDED then seed.longBase + draw else MOST_PADDED
    else
      paddingLen == if draw < MOST_PADDED - contentLen then draw else MOST_PADDED - contentLen
  }

  /** Whatever is drawn, padding hides the length of its content. */
  lemma PaddingHidesLength(seed: Seed, contentLen: nat, draw: nat, longPadding: bool)
    requires SafeSeed(seed) && contentLen <= MOST_PADDED && draw < DrawBound(contentLen, longPadding, seed)
    ensures HidesLength(contentLen, PaddingLen(contentLen, draw, longPadding, seed), draw, longPadding, seed)
    ensures DrawBound(contentLen, longPadding, seed) ==
              if longPadding && contentLen < Int32(seed.threshold) then seed.longRange else seed.shortRange
  {
    hide Int32;
  }

  /** A block whose padding hides the length of its content, for some draw within its range. */
  ghost predicate IsPadded(b: Block, longPadding: bool, seed: Seed) {
    exists draw: nat ::
      && draw < (if longPadding && |b.content| < Int32(seed.threshold) then seed.longRange else seed.shortRange)
      && HidesLength(|b.content|, |b.padding|, draw, longPadding, seed)
  }

  /** Two blocks with long padding and the same draw are equally long, whatever they carry. */
  lemma SameSize(seed: Seed, a: nat, b: nat, draw: nat)
    requires SafeSeed(seed) && a < Int32(seed.threshold) && b < Int32(seed.threshold) && draw < seed.longRange
    requires a <= MOST_PADDED && b <= MOST_PADDED
    ensures a + PaddingLen(a, draw, true, seed) == b + PaddingLen(b, draw, true, seed)
  {
    hide Int32;
    PaddingHidesLength(seed, a, draw, true);
    PaddingHidesLength(seed, b, draw, true);
  }

  /** The padded form carries the content and the command, and its padding hides the length. */
  lemma PaddedFormHidesLength(content: bytes, command: byte, uuid: Option<bytes>, draw: nat, longPadding: bool,
                              seed: Seed)
    requires SafeSeed(seed) && |content| <= MOST_PADDED && draw < DrawBound(|content|, longPadding, seed)
    ensures var r := XtlsPadding(content, command, uuid, draw, longPadding, seed);
            && r.Some? && r.value.0.command == command && r.value.0.content == content
            && HidesLength(|content|, |r.value.0.padding|, draw, longPadding, seed)
            && IsPadded(r.value.0, longPadding, seed)
            && r.value.1 == (if uuid.Some? then uuid.value else []) + EncodeBlock(r.value.0)
            && (forall i :: 0 <= i < |r.value.0.padding| ==> r.value.0.padding[i] == 0)
  {
    hide Int32, EncodeBlock;
    SafeSeedSuffices(seed, |content|, draw, longPadding);
    PaddingHidesLength(seed, |content|, draw, longPadding);
  }

  /** This call draws from a non-empty range and does not extend a buffer by a negative amount. */
  predicate PadsSafely(contentLen: nat, draw: nat, long: bool, seed: Seed) {
    && DrawBound(contentLen, long, seed) > 0
    && (draw < DrawBound(contentLen, long, seed) ==> PaddingLen(contentLen, draw, long, seed) >= 0)
  }

  /** No call with a buffer that leaves room for the header panics, whatever the random draw. */
  ghost predicate NeverPanics(seed: Seed) {
    forall contentLen: nat, draw: nat, long: bool | contentLen <= BUF_SIZE - 21 ::
      PadsSafely(contentLen, draw, long, seed)
  }

  lemma SafeSeedSuffices(seed: Seed, contentLen: nat, draw: nat, long: bool)
    requires SafeSeed(seed) && contentLen <= BUF_SIZE - 21
    ensures PadsSafely(contentLen, draw, long, seed)
  {
    hide Int32;
  }

  /** Padding is safe for every buffer and every draw exactly for the seeds that SafeSeed admits. */
  lemma SafeSeedIsExact(seed: Seed)
    ensures NeverPanics(seed) <==> SafeSeed(seed)
  {
    if SafeSeed(seed) {
      forall contentLen: nat, draw: nat, long: bool | contentLen <= BUF_SIZE - 21
        ensures PadsSafely(contentLen, draw, long, seed)
      {
        SafeSeedSuffices(seed, contentLen, draw, long);
      }
    }
    if NeverPanics(seed) {
      assert PadsSafely(0, 0, false, seed);
      assert PadsSafely(0, seed.shortRange - 1, false, seed);
      if Int32(seed.threshold) > 0 {
        LongPaddingNeeds(seed);
      }
    }
  }

  lemma LongPaddingNeeds(seed: Seed)
    requires NeverPanics(seed) && Int32(seed.threshold) > 0
    ensures 0 < seed.longRange
    ensures Int32(seed.longBase) + seed.longRange <= 0x8000_0000
    ensures Int32(seed.longBase) >= Int32(seed.threshold) - 1 || Int32(seed.longBase) >= BUF_SIZE - 21
  {
    hide Int32;
    var c := Int32(seed.longBase);
    var most := if Int32(seed.threshold) - 1 < BUF_SIZE - 21 then Int32(seed.threshold) - 1 else BUF_SIZE - 21;
    assert PadsSafely(0, 0, true, seed);
    assert PadsSafely(most, 0, true, seed);
    // the draw that would first wrap the sum to a negative number
    var draw := if c + seed.longRange > 0x8000_0000 then 0x8000_0000 - c else 0;
    assert PadsSafely(0, draw, true, seed);
  }
}
