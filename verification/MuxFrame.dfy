/** Mux.Cool frames: the metadata in front of every frame, and the data behind it. */
module MuxFrames {
  import opened ByteSeq
  import opened Addresses

  const STATUS_NEW: byte := 1
  const STATUS_KEEP: byte := 2
  const STATUS_END: byte := 3
  const STATUS_KEEP_ALIVE: byte := 4

  const OPTION_DATA: byte := 1
  const OPTION_ERROR: byte := 2

  const NETWORK_TCP: byte := 1
  const NETWORK_UDP: byte := 2

  const MAX_META_LEN := 512

  /** The parser of the mux: types 1, 2 and 3, port first. */
  const ADDR_PARSER := Parser(1, 2, 3, true)

  datatype Network = TCP | UDP | OtherNetwork

  datatype Destination = Destination(network: Network, address: Address, port: uint16)

  /** Where a reverse connection came from; a missing destination is one of unknown network. */
  datatype Inbound = Inbound(source: Option<Destination>, local: Option<Destination>)

  type GlobalID = b: bytes | |b| == 8 witness [0, 0, 0, 0, 0, 0, 0, 0]

  const NO_GLOBAL_ID: GlobalID := [0, 0, 0, 0, 0, 0, 0, 0]

  datatype Meta = Meta(sessionID: uint16, status: byte, option: byte, target: Option<Destination>,
                       globalID: GlobalID, inbound: Option<Inbound>)

  predicate HasData(option: byte) {
    option % 2 == 1
  }

  predicate Routable(d: Option<Destination>) {
    d.Some? && d.value.network != OtherNetwork
  }

  function NetworkByte(n: Network): bytes {
    match n
    case TCP => [NETWORK_TCP]
    case UDP => [NETWORK_UDP]
    case OtherNetwork => []
  }

  /** Network byte, port and address. None if the address cannot be written. */
  function WriteDestination(d: Destination): Option<bytes> {
    var w := WriteAddressPort(ADDR_PARSER, d.address, d.port);
    if w.None? then None else Some(NetworkByte(d.network) + w.value)
  }

  /** The source of a reverse connection, and its local end if the source has been written. */
  function WriteInbound(i: Inbound): Option<bytes> {
    if !Routable(i.source) then Some([])
    else
      var s := WriteDestination(i.source.value);
      if s.None? then None
      else if !Routable(i.local) then s
      else
        var l := WriteDestination(i.local.value);
        if l.None? then None else Some(s.value + l.value)
  }

  /**
   * The metadata without its length. `udp` is the endpoint that the frame's buffer carries. The endpoint of a frame
   * that opens nothing is written without looking at errors; the port then stands alone.
   */
  function WriteMeta(m: Meta, udp: Option<Destination>): Option<bytes> {
    var head := U16(m.sessionID) + [m.status, m.option];
    if m.status == STATUS_NEW then
      if m.target.None? then None
      else
        var t := WriteDestination(m.target.value);
        if t.None? then None
        else if m.inbound.Some? then
          var i := WriteInbound(m.inbound.value);
          if i.None? then None else Some(head + t.value + i.value)
        else if udp.Some? then Some(head + t.value + m.globalID)
        else Some(head + t.value)
    else if udp.Some? then
      var w := WriteAddressPort(ADDR_PARSER, udp.value.address, udp.value.port);
      Some(head + [NETWORK_UDP] + (if w.Some? then w.value else U16(udp.value.port)))
    else Some(head)
  }

  function ReadNetwork(b: byte): Option<Network> {
    if b == NETWORK_TCP then Some(TCP) else if b == NETWORK_UDP then Some(UDP) else None
  }

  /** A destination behind its network byte. */
  function ReadDestination(parse: IPParser, b: bytes): Option<(Destination, bytes)> {
    if b == [] then None
    else
      var r := ReadAddressPort(ADDR_PARSER, parse, b[1..]);
      var n := ReadNetwork(b[0]);
      if r.None? || n.None? then None
      else Some((Destination(n.value, r.value.0, r.value.1), r.value.2))
  }

  /** Source and local end; nothing, or a zero network byte, ends the list early. */
  function ReadInbound(parse: IPParser, b: bytes): Option<Inbound> {
    if b == [] || b[0] == 0 then Some(Inbound(None, None))
    else
      var s := ReadDestination(parse, b);
      if s.None? then None
      else
        var rest := s.value.1;
        if rest == [] || rest[0] == 0 then Some(Inbound(Some(s.value.0), None))
        else
          var l := ReadDestination(parse, rest);
          if l.None? then None else Some(Inbound(Some(s.value.0), Some(l.value.0)))
  }

  function ReadMeta(parse: IPParser, b: bytes, reverse: bool): Option<Meta> {
    if |b| < 4 then None
    else
      var m := Meta(FromU16(b[0], b[1]), b[2], b[3], None, NO_GLOBAL_ID, None);
      var hasTarget := m.status == STATUS_NEW || (m.status == STATUS_KEEP && |b| > 4 && b[4] == NETWORK_UDP);
      if hasTarget && |b| < 8 then None
      else if !hasTarget then Some(m)
      else
        var d := ReadDestination(parse, b[4..]);
        if d.None? then None
        else
          var m' := m.(target := Some(d.value.0));
          var rest := d.value.1;
          if m.status != STATUS_NEW then Some(m')
          else if reverse then
            var i := ReadInbound(parse, rest);
            if i.None? then None else Some(m'.(inbound := i))
          else if HasData(m.option) && d.value.0.network == UDP && |rest| >= 8 then
            Some(m'.(globalID := rest[..8]))
          else Some(m')
  }

  // ---------------------------------------------------------------------------------------------

  predicate GoodDestination(parse: IPParser, d: Option<Destination>) {
    Routable(d) ==> Survives(parse, d.value.address)
  }

  /** The writer's and the reader's idea of reverse connections agree, and all addresses survive. */
  predicate GoodMeta(parse: IPParser, m: Meta, udp: Option<Destination>, reverse: bool) {
    if m.status == STATUS_NEW then
      && Routable(m.target) && GoodDestination(parse, m.target)
      && (m.inbound.Some? <==> reverse)
      && (m.inbound.Some? ==>
          GoodDestination(parse, m.inbound.value.source) && GoodDestination(parse, m.inbound.value.local))
    else udp.Some? ==> Survives(parse, udp.value.address)
  }

  /** What the reader gets to know of the metadata. */
  function Received(m: Meta, udp: Option<Destination>): Meta {
    if m.status == STATUS_NEW then
      m.(
        globalID := if m.inbound.None? && udp.Some? && HasData(m.option)
                       && m.target.Some? && m.target.value.network == UDP
                    then m.globalID else NO_GLOBAL_ID,
        inbound := if m.inbound.None? then None
                   else if !Routable(m.inbound.value.source) then Some(Inbound(None, None))
                   else if !Routable(m.inbound.value.local) then Some(Inbound(m.inbound.value.source, None))
                   else m.inbound)
    else
      m.(globalID := NO_GLOBAL_ID, inbound := None,
         target := if m.status == STATUS_KEEP && udp.Some?
                   then Some(Destination(UDP, udp.value.address, udp.value.port)) else None)
  }

  lemma DestinationRoundTrip(parse: IPParser, d: Destination, rest: bytes)
    requires d.network != OtherNetwork && Survives(parse, d.address)
    ensures WriteDestination(d).Some? && 6 <= |WriteDestination(d).value|
    ensures WriteDestination(d).value[0] in {NETWORK_TCP, NETWORK_UDP}
    ensures ReadDestination(parse, WriteDestination(d).value + rest) == Some((d, rest))
  {
    hide ReadAddressPort, Survives;
    AddressPortRoundTrip(ADDR_PARSER, parse, d.address, d.port, rest);
    var w := WriteAddressPort(ADDR_PARSER, d.address, d.port).value;
    assert (NetworkByte(d.network) + w + rest)[1..] == w + rest;
    WrittenLength(parse, d.address, d.port);
  }

  lemma WrittenLength(parse: IPParser, a: Address, port: uint16)
    requires Survives(parse, a)
    ensures var w := WriteAddressPort(ADDR_PARSER, a, port); w.Some? && 5 <= |w.value| <= 259
  {
  }

  lemma InboundRoundTrip(parse: IPParser, i: Inbound)
    requires GoodDestination(parse, i.source) && GoodDestination(parse, i.local)
    ensures WriteInbound(i).Some?
    ensures ReadInbound(parse, WriteInbound(i).value) ==
              Some(if !Routable(i.source) then Inbound(None, None)
                   else if !Routable(i.local) then Inbound(i.source, None) else i)
  {
    hide WriteDestination, ReadDestination, Survives;
    if Routable(i.source) {
      if Routable(i.local) {
        var l := WriteDestination(i.local.value);
        DestinationRoundTrip(parse, i.local.value, []);
        DestinationRoundTrip(parse, i.source.value, l.value);
        assert l.value + [] == l.value;
      } else {
        DestinationRoundTrip(parse, i.source.value, []);
        var s := WriteDestination(i.source.value).value;
        assert s + [] == s;
      }
    }
  }

  function Head(m: Meta): bytes {
    U16(m.sessionID) + [m.status, m.option]
  }

  lemma HeadFields(m: Meta, rest: bytes)
    ensures var b := Head(m) + rest;
            && |Head(m)| == 4 && FromU16(b[0], b[1]) == m.sessionID
            && b[2] == m.status && b[3] == m.option && b[4..] == rest
  {
    hide U16;
  }

  /** Metadata for which writer and reader agree comes back as far as the format carries it. */
  lemma MetaRoundTrip(parse: IPParser, m: Meta, udp: Option<Destination>, reverse: bool)
    requires GoodMeta(parse, m, udp, reverse)
    ensures WriteMeta(m, udp).Some?
    ensures ReadMeta(parse, WriteMeta(m, udp).value, reverse) == Some(Received(m, udp))
  {
    hide ReadMeta, WriteMeta, Received, Survives, GoodDestination;
    if m.status == STATUS_NEW {
      NewRoundTrip(parse, m, udp, reverse);
    } else if udp.Some? {
      UdpEndpoint(parse, m, udp.value);
    } else {
      PlainRoundTrip(parse, m, reverse);
    }
  }

  lemma PlainRoundTrip(parse: IPParser, m: Meta, reverse: bool)
    requires m.status != STATUS_NEW
    ensures WriteMeta(m, None).Some?
    ensures ReadMeta(parse, WriteMeta(m, None).value, reverse) == Some(Received(m, None))
  {
    hide U16, ReadDestination, WriteDestination, WriteAddressPort;
    HeadFields(m, []);
    assert Head(m) + [] == Head(m);
  }

  lemma NewRoundTrip(parse: IPParser, m: Meta, udp: Option<Destination>, reverse: bool)
    requires GoodMeta(parse, m, udp, reverse) && m.status == STATUS_NEW
    ensures WriteMeta(m, udp).Some?
    ensures ReadMeta(parse, WriteMeta(m, udp).value, reverse) == Some(Received(m, udp))
  {
    hide WriteDestination, ReadDestination, Survives, WriteInbound, ReadInbound, WriteAddressPort, U16, Head;
    var t := WriteDestination(m.target.value);
    DestinationRoundTrip(parse, m.target.value, []);
    var rest: bytes := [];
    if m.inbound.Some? {
      InboundRoundTrip(parse, m.inbound.value);
      rest := WriteInbound(m.inbound.value).value;
    } else if udp.Some? {
      rest := m.globalID;
    }
    DestinationRoundTrip(parse, m.target.value, rest);
    HeadFields(m, t.value + rest);
    var b := Head(m) + (t.value + rest);
    WrittenNew(m, udp, t.value, rest);
    assert m.inbound.None? && udp.Some? ==> rest[..8] == m.globalID;
  }

  lemma WrittenNew(m: Meta, udp: Option<Destination>, t: bytes, rest: bytes)
    requires m.status == STATUS_NEW && m.target.Some? && WriteDestination(m.target.value) == Some(t)
    requires if m.inbound.Some? then WriteInbound(m.inbound.value) == Some(rest)
             else rest == if udp.Some? then m.globalID else []
    ensures WriteMeta(m, udp) == Some(Head(m) + (t + rest))
  {
    hide WriteDestination, WriteInbound, U16;
    assert Head(m) + t + rest == Head(m) + (t + rest);
    assert Head(m) + t + [] == Head(m) + t;
  }

  lemma UdpEndpoint(parse: IPParser, m: Meta, udp: Destination)
    requires m.status != STATUS_NEW && Survives(parse, udp.address)
    ensures WriteMeta(m, Some(udp)).Some?
    ensures ReadMeta(parse, WriteMeta(m, Some(udp)).value, true) == Some(Received(m, Some(udp)))
    ensures ReadMeta(parse, WriteMeta(m, Some(udp)).value, false) == Some(Received(m, Some(udp)))
  {
    hide ReadAddressPort, Survives, WriteAddressPort;
    var d := udp.(network := UDP);
    DestinationRoundTrip(parse, d, []);
    WrittenLength(parse, udp.address, udp.port);
    var w := WriteDestination(d).value;
    var head := U16(m.sessionID) + [m.status, m.option];
    var b := WriteMeta(m, Some(udp)).value;
    assert b == head + w;
    assert b[4..] == w + [];
  }

  /** An endpoint too long to be written leaves metadata that no reader accepts, although the writer saw no error. */
  lemma UnwritableEndpoint(parse: IPParser, m: Meta, udp: Destination, reverse: bool)
    requires m.status == STATUS_KEEP && udp.address.Domain? && |udp.address.name| > MAX_DOMAIN
    ensures WriteMeta(m, Some(udp)).Some? && ReadMeta(parse, WriteMeta(m, Some(udp)).value, reverse) == None
  {
  }

  /** The endpoint of a frame that keeps its session going comes back exactly if its address survives. */
  lemma EndpointRoundTrip(parse: IPParser, m: Meta, udp: Destination, reverse: bool)
    requires m.status == STATUS_KEEP
    ensures WriteMeta(m, Some(udp)).Some?
    ensures ReadMeta(parse, WriteMeta(m, Some(udp)).value, reverse) == Some(Received(m, Some(udp))) <==>
              Survives(parse, udp.address)
  {
    hide Survives, ReadAddressPort, WriteAddressPort;
    var w := WriteAddressPort(ADDR_PARSER, udp.address, udp.port);
    if Survives(parse, udp.address) {
      UdpEndpoint(parse, m, udp);
    } else {
      if w.Some? {
        ReadsItself(ADDR_PARSER, parse, udp.address, udp.port);
      }
      var b := WriteMeta(m, Some(udp)).value;
      assert w.Some? ==> b[4..][1..] == w.value;
    }
  }

  /** Length of a written destination. */
  function SizeOf(d: Destination): nat {
    match d.address
    case IPv4(_) => 8
    case IPv6(_) => 20
    case Domain(name) => 5 + |name|
  }

  /** Length of metadata that can be written. */
  function MetaSize(m: Meta, udp: Option<Destination>): nat {
    if m.status == STATUS_NEW && m.target.Some? then
      4 + SizeOf(m.target.value)
      + (if m.inbound.Some? then InboundSize(m.inbound.value) else if udp.Some? then 8 else 0)
    else if udp.Some? then 4 + SizeOf(udp.value) else 4
  }

  function InboundSize(i: Inbound): nat {
    if !Routable(i.source) then 0
    else SizeOf(i.source.value) + (if Routable(i.local) then SizeOf(i.local.value) else 0)
  }

  lemma MetaLength(parse: IPParser, m: Meta, udp: Option<Destination>, reverse: bool)
    requires GoodMeta(parse, m, udp, reverse)
    ensures WriteMeta(m, udp).Some? && |WriteMeta(m, udp).value| == MetaSize(m, udp)
  {
    hide WriteAddressPort, Survives, SizeOf;
    if m.status == STATUS_NEW {
      SizeWritten(parse, m.target.value);
      if m.inbound.Some? && Routable(m.inbound.value.source) {
        SizeWritten(parse, m.inbound.value.source.value);
        if Routable(m.inbound.value.local) {
          SizeWritten(parse, m.inbound.value.local.value);
        }
      }
    } else if udp.Some? {
      SizeWritten(parse, udp.value);
    }
  }

  lemma SizeWritten(parse: IPParser, d: Destination)
    requires Survives(parse, d.address)
    ensures var w := WriteAddressPort(ADDR_PARSER, d.address, d.port); w.Some? && 1 + |w.value| == SizeOf(d)
  {
  }

  predicate IsIP(d: Option<Destination>) {
    Routable(d) ==> !d.value.address.Domain?
  }

  /** Both ends of a reverse connection are IP addresses, as those of a socket are. */
  predicate IPEnds(i: Inbound) {
    IsIP(i.source) && IsIP(i.local)
  }

  /** Metadata is short enough for any reader, unless names stand for the ends of a reverse connection. */
  lemma MetaFits(parse: IPParser, m: Meta, udp: Option<Destination>, reverse: bool)
    requires GoodMeta(parse, m, udp, reverse) && (m.status == STATUS_NEW && m.inbound.Some? ==> IPEnds(m.inbound.value))
    ensures WriteMeta(m, udp).Some? && 4 <= |WriteMeta(m, udp).value| <= (if m.inbound.Some? then 304 else 272)
  {
    hide WriteMeta;
    MetaLength(parse, m, udp, reverse);
  }

  // ---------------------------------------------------------------------------------------------
  // Whole frames

  datatype Frame = Frame(meta: Meta, udp: Option<Destination>, data: Option<bytes>)

  /** What the reader gets from one frame. */
  datatype Parsed = Parsed(meta: Meta, data: Option<bytes>)

  function EncodeFrame(f: Frame): Option<bytes> {
    var m := WriteMeta(f.meta, f.udp);
    if m.None? then None
    else Some(U16(|m.value|) + m.value + (if f.data.Some? then U16(|f.data.value|) + f.data.value else []))
  }

  /** The next complete frame of a byte sequence, and what follows it. */
  function DecodeFrame(parse: IPParser, reverse: bool, s: bytes): Option<(Parsed, bytes)> {
    if |s| < 2 then None
    else
      var n := FromU16(s[0], s[1]);
      if n > MAX_META_LEN || |s| < 2 + n then None
      else
        var m := ReadMeta(parse, s[2..2 + n], reverse);
        var rest := s[2 + n..];
        if m.None? then None
        else if !HasData(m.value.option) then Some((Parsed(m.value, None), rest))
        else if |rest| < 2 || |rest| < 2 + FromU16(rest[0], rest[1]) then None
        else
          var k := FromU16(rest[0], rest[1]);
          Some((Parsed(m.value, Some(rest[2..2 + k])), rest[2 + k..]))
  }

  predicate GoodFrame(parse: IPParser, f: Frame, reverse: bool) {
    && GoodMeta(parse, f.meta, f.udp, reverse)
    && (HasData(f.meta.option) <==> f.data.Some?)
    && (f.data.Some? ==> |f.data.value| < 0x1_0000)
    && WriteMeta(f.meta, f.udp).Some? && |WriteMeta(f.meta, f.udp).value| <= MAX_META_LEN
  }

  function ReceivedFrame(f: Frame): Parsed {
    Parsed(Received(f.meta, f.udp), f.data)
  }

  /** A frame is cut off the front of the bytes it begins, exactly. */
  lemma FrameRoundTrip(parse: IPParser, f: Frame, reverse: bool, rest: bytes)
    requires GoodFrame(parse, f, reverse)
    ensures EncodeFrame(f).Some?
    ensures DecodeFrame(parse, reverse, EncodeFrame(f).value + rest) == Some((ReceivedFrame(f), rest))
  {
    hide WriteMeta, ReadMeta, Received, GoodMeta;
    MetaRoundTrip(parse, f.meta, f.udp, reverse);
    var m := WriteMeta(f.meta, f.udp).value;
    var tail := (if f.data.Some? then U16(|f.data.value|) + f.data.value else []) + rest;
    var s := EncodeFrame(f).value + rest;
    assert s == U16(|m|) + m + tail;
    CutMeta(m, tail);
    ReceivedKeeps(f.meta, f.udp);
    if f.data.Some? {
      var d := f.data.value;
      assert tail == U16(|d|) + d + rest;
      CutMeta(d, rest);
    } else {
      assert tail == rest;
    }
  }

  /** Written without an error, a frame comes back exactly if its metadata is not longer than the reader allows. */
  lemma FrameComesBack(parse: IPParser, f: Frame, reverse: bool, rest: bytes)
    requires GoodMeta(parse, f.meta, f.udp, reverse)
    requires (HasData(f.meta.option) <==> f.data.Some?) && (f.data.Some? ==> |f.data.value| < 0x1_0000)
    ensures EncodeFrame(f).Some?
    ensures DecodeFrame(parse, reverse, EncodeFrame(f).value + rest) ==
              if MetaSize(f.meta, f.udp) <= 512 then Some((ReceivedFrame(f), rest)) else None
  {
    hide WriteMeta, ReadMeta, GoodMeta, MetaSize, U16;
    MetaLength(parse, f.meta, f.udp, reverse);
    if MetaSize(f.meta, f.udp) <= MAX_META_LEN {
      FrameRoundTrip(parse, f, reverse, rest);
    } else {
      SizeBound(parse, f.meta, f.udp, reverse);
      var m := WriteMeta(f.meta, f.udp).value;
      var tail := (if f.data.Some? then U16(|f.data.value|) + f.data.value else []) + rest;
      assert EncodeFrame(f).value + rest == U16(|m|) + m + tail;
      CutMeta(m, tail);
    }
  }

  lemma SizeBound(parse: IPParser, m: Meta, udp: Option<Destination>, reverse: bool)
    requires GoodMeta(parse, m, udp, reverse)
    ensures MetaSize(m, udp) <= 784
  {
  }

  /** What no reader accepts: short metadata, and networks other than TCP and UDP, for the target or for a source. */
  lemma RejectedMeta(parse: IPParser, b: bytes, reverse: bool)
    ensures |b| < 4 ==> ReadMeta(parse, b, reverse) == None
    ensures |b| >= 4 && b[2] == STATUS_NEW && (|b| < 8 || b[4] !in {1, 2}) ==> ReadMeta(parse, b, reverse) == None
    ensures 5 <= |b| < 8 && b[2] == STATUS_KEEP && b[4] == 2 ==> ReadMeta(parse, b, reverse) == None
    ensures b != [] && b[0] !in {0, 1, 2} ==> ReadInbound(parse, b) == None
    ensures b == [] || b[0] == 0 ==> ReadInbound(parse, b) == Some(Inbound(None, None))
  {
    hide ReadAddressPort;
  }

  /** A source whose local end is broken is refused as a whole. */
  lemma RejectedLocal(parse: IPParser, b: bytes)
    requires b != [] && b[0] != 0 && ReadDestination(parse, b).Some?
    ensures var rest := ReadDestination(parse, b).value.1;
            rest != [] && rest[0] != 0 && ReadDestination(parse, rest).None? ==> ReadInbound(parse, b) == None
  {
    hide ReadDestination;
  }

  /** A frame carries data exactly if the lowest bit of its option is set. */
  lemma DataBit(option: byte)
    ensures HasData(option) <==> option as bv8 & OPTION_DATA as bv8 == 1
    ensures OPTION_ERROR as bv8 == 2
  {
  }

  /** The format, byte by byte: a frame that opens a TCP session. */
  lemma NewOnWire(hi: byte, lo: byte, v4: IP4)
    ensures var m := Meta((hi as int) * 256 + lo, STATUS_NEW, 0, Some(Destination(TCP, IPv4(v4), 443)), NO_GLOBAL_ID,
                          None);
            EncodeFrame(Frame(m, None, None)) == Some([0, 12, hi, lo, 1, 0, 1, 1, 187, 1] + v4)
  {
    hide EncodeFrame, WriteMeta, WriteDestination, U16;
    Fields(hi, lo);
    var d := Destination(TCP, IPv4(v4), 443);
    var m := Meta((hi as int) * 256 + lo, STATUS_NEW, 0, Some(d), NO_GLOBAL_ID, None);
    TCPOnWire(v4);
    NewBytes(m, None, [1, 1, 187, 1] + v4);
    var mb := [hi, lo, 1, 0, 1, 1, 187, 1] + v4;
    assert [hi, lo] + [1, 0] + ([1, 1, 187, 1] + v4) + [] == mb;
    FrameBytes(Frame(m, None, None), mb);
    assert [0, 12] + mb + [] == [0, 12, hi, lo, 1, 0, 1, 1, 187, 1] + v4;
  }

  /** One that opens a UDP session and carries a packet; the identifier that moves sessions is all zeros here. */
  lemma NewPacketOnWire(hi: byte, lo: byte, x: byte, udp: Destination)
    ensures var m := Meta((hi as int) * 256 + lo, STATUS_NEW, OPTION_DATA, Some(Destination(UDP, Domain([x]), 53)),
                          NO_GLOBAL_ID, None);
            EncodeFrame(Frame(m, Some(udp), Some([x]))) ==
              Some([0, 18, hi, lo, 1, 1, 2, 0, 53, 2, 1, x] + Zeros(8) + [0, 1, x])
  {
    hide EncodeFrame, WriteMeta, WriteDestination, U16, Zeros;
    Fields(hi, lo);
    NoIdentifier();
    var e := Destination(UDP, Domain([x]), 53);
    var n := Meta((hi as int) * 256 + lo, STATUS_NEW, OPTION_DATA, Some(e), NO_GLOBAL_ID, None);
    UDPOnWire(x);
    NewBytes(n, Some(udp), [2, 0, 53, 2, 1, x]);
    var nb := [hi, lo, 1, 1, 2, 0, 53, 2, 1, x] + Zeros(8);
    assert [hi, lo] + [1, 1] + [2, 0, 53, 2, 1, x] == [hi, lo, 1, 1, 2, 0, 53, 2, 1, x];
    FrameBytes(Frame(n, Some(udp), Some([x])), nb);
    assert [0, 18] + nb == [0, 18, hi, lo, 1, 1, 2, 0, 53, 2, 1, x] + Zeros(8);
    assert [0, 1] + [x] == [0, 1, x];
  }

  /** Sessions that do not move have an identifier of zeros. */
  lemma NoIdentifier()
    ensures NO_GLOBAL_ID == Zeros(8)
  {
  }

  lemma TCPOnWire(v4: IP4)
    ensures WriteDestination(Destination(TCP, IPv4(v4), 443)) == Some([1, 1, 187, 1] + v4)
  {
    hide U16;
    Fields(0, 0);
    assert WriteAddress(ADDR_PARSER, IPv4(v4)) == Some([1] + v4);
    assert [1] + ([1, 187] + ([1] + v4)) == [1, 1, 187, 1] + v4;
  }

  lemma UDPOnWire(x: byte)
    ensures WriteDestination(Destination(UDP, Domain([x]), 53)) == Some([2, 0, 53, 2, 1, x])
  {
    hide U16;
    Fields(0, 0);
    assert WriteAddress(ADDR_PARSER, Domain([x])) == Some([2, 1] + [x]);
    assert [2] + ([0, 53] + ([2, 1] + [x])) == [2, 0, 53, 2, 1, x];
  }

  /** A UDP packet with its endpoint, an End frame with an error, and a KeepAlive frame. */
  lemma OthersOnWire(hi: byte, lo: byte, v6: IP6, x: byte)
    ensures var id := (hi as int) * 256 + lo;
            var m := Meta(id, STATUS_KEEP, OPTION_DATA, None, NO_GLOBAL_ID, None);
            && EncodeFrame(Frame(m, Some(Destination(UDP, IPv6(v6), 53)), Some([x]))) ==
                 Some([0, 24, hi, lo, 2, 1, 2, 0, 53, 3] + v6 + [0, 1, x])
            && EncodeFrame(Frame(Meta(id, STATUS_END, OPTION_ERROR, None, NO_GLOBAL_ID, None), None, None)) ==
                 Some([0, 4, hi, lo, 3, 2])
            && EncodeFrame(Frame(Meta(id, STATUS_KEEP_ALIVE, 0, None, NO_GLOBAL_ID, None), None, None)) ==
                 Some([0, 4, hi, lo, 4, 0])
  {
    hide EncodeFrame, WriteMeta, U16;
    var id := (hi as int) * 256 + lo;
    Fields(hi, lo);
    var udp := Destination(UDP, IPv6(v6), 53);
    var m := Meta(id, STATUS_KEEP, OPTION_DATA, None, NO_GLOBAL_ID, None);
    EndpointOnWire(v6);
    OtherBytes(m, Some(udp));
    var mb := [hi, lo, 2, 1, 2, 0, 53, 3] + v6;
    assert [hi, lo] + [2, 1] + ([NETWORK_UDP] + ([0, 53, 3] + v6)) == mb;
    FrameBytes(Frame(m, Some(udp), Some([x])), mb);
    assert [0, 24] + mb + ([0, 1] + [x]) == [0, 24, hi, lo, 2, 1, 2, 0, 53, 3] + v6 + [0, 1, x];
    BareOnWire(hi, lo, STATUS_END, OPTION_ERROR);
    BareOnWire(hi, lo, STATUS_KEEP_ALIVE, 0);
  }

  lemma EndpointOnWire(v6: IP6)
    ensures WriteAddressPort(ADDR_PARSER, IPv6(v6), 53) == Some([0, 53, 3] + v6)
  {
    hide U16;
    Fields(0, 0);
    assert WriteAddress(ADDR_PARSER, IPv6(v6)) == Some([3] + v6);
    assert [0, 53] + ([3] + v6) == [0, 53, 3] + v6;
  }

  /** A frame that opens nothing and has no data. */
  lemma BareOnWire(hi: byte, lo: byte, status: byte, option: byte)
    requires status != STATUS_NEW
    ensures EncodeFrame(Frame(Meta((hi as int) * 256 + lo, status, option, None, NO_GLOBAL_ID, None), None, None)) ==
              Some([0, 4, hi, lo, status, option])
  {
    hide EncodeFrame, WriteMeta, U16;
    Fields(hi, lo);
    var m := Meta((hi as int) * 256 + lo, status, option, None, NO_GLOBAL_ID, None);
    OtherBytes(m, None);
    assert [hi, lo] + [status, option] + [] == [hi, lo, status, option];
    FrameBytes(Frame(m, None, None), [hi, lo, status, option]);
    assert [0, 4] + [hi, lo, status, option] + [] == [0, 4, hi, lo, status, option];
  }

  lemma OtherBytes(m: Meta, udp: Option<Destination>)
    requires m.status != STATUS_NEW
    requires udp.Some? ==> WriteAddressPort(ADDR_PARSER, udp.value.address, udp.value.port).Some?
    ensures WriteMeta(m, udp) ==
              Some(U16(m.sessionID) + [m.status, m.option]
                   + (if udp.None? then []
                      else [NETWORK_UDP] + WriteAddressPort(ADDR_PARSER, udp.value.address, udp.value.port).value))
  {
    hide WriteAddressPort, U16;
    var head := U16(m.sessionID) + [m.status, m.option];
    assert head + [] == head;
    if udp.Some? {
      var w := WriteAddressPort(ADDR_PARSER, udp.value.address, udp.value.port).value;
      assert head + [NETWORK_UDP] + w == head + ([NETWORK_UDP] + w);
    }
  }

  lemma Fields(hi: byte, lo: byte)
    ensures U16((hi as int) * 256 + lo) == [hi, lo]
    ensures U16(443) == [1, 187] && U16(53) == [0, 53] && U16(24) == [0, 24] && U16(18) == [0, 18] && U16(12) == [0, 12]
    ensures U16(4) == [0, 4] && U16(1) == [0, 1]
  {
  }

  lemma NewBytes(m: Meta, udp: Option<Destination>, t: bytes)
    requires m.status == STATUS_NEW && m.target.Some? && m.inbound.None? && WriteDestination(m.target.value) == Some(t)
    ensures WriteMeta(m, udp) ==
              Some(U16(m.sessionID) + [m.status, m.option] + t + (if udp.Some? then m.globalID else []))
  {
    hide WriteDestination, U16;
    var all := U16(m.sessionID) + [m.status, m.option] + t;
    assert all + [] == all;
  }

  lemma FrameBytes(f: Frame, m: bytes)
    requires WriteMeta(f.meta, f.udp) == Some(m)
    ensures EncodeFrame(f) == Some(U16(|m|) + m + (if f.data.Some? then U16(|f.data.value|) + f.data.value else []))
  {
    hide WriteMeta, U16;
    assert U16(|m|) + m + [] == U16(|m|) + m;
  }

  /** Three names of 255 bytes pass all tests of the writer and are too long for the reader. */
  lemma ThreeLongNames(parse: IPParser, rest: bytes)
    ensures var name := Domain(seq(255, (i: nat) => 97 as byte));
            var d := Some(Destination(TCP, name, 443));
            var m := Meta(1, STATUS_NEW, 0, d, NO_GLOBAL_ID, Some(Inbound(d, d)));
            && GoodMeta(parse, m, None, true)
            && EncodeFrame(Frame(m, None, None)).Some?
            && DecodeFrame(parse, true, EncodeFrame(Frame(m, None, None)).value + rest) == None
  {
    hide EncodeFrame, DecodeFrame;
    var name := Domain(seq(255, (i: nat) => 97 as byte));
    var d := Some(Destination(TCP, name, 443));
    var m := Meta(1, STATUS_NEW, 0, d, NO_GLOBAL_ID, Some(Inbound(d, d)));
    assert Survives(parse, name);
    FrameComesBack(parse, Frame(m, None, None), true, rest);
  }

  lemma CutMeta(m: bytes, tail: bytes)
    requires |m| < 0x1_0000
    ensures var s := U16(|m|) + m + tail;
            && |s| >= 2 + |m| && FromU16(s[0], s[1]) == |m| && s[2..2 + |m|] == m && s[2 + |m|..] == tail
  {
    hide U16;
    var s := U16(|m|) + m + tail;
    assert s[..2] == U16(|m|);
  }

  lemma ReceivedKeeps(m: Meta, udp: Option<Destination>)
    ensures var r := Received(m, udp);
            r.sessionID == m.sessionID && r.status == m.status && r.option == m.option
            && (m.status == STATUS_NEW ==> r.target == m.target)
  {
  }
}
