/** Frame metadata written into a buffer and read back from one, field by field. */
module MuxCodecs {
  import opened ByteSeq
  import opened Addresses
  import opened AddressCodecs
  import opened BufferWindows
  import opened MuxFrames

  /** Room that the metadata of any frame may need. */
  const MAX_WRITTEN := 2 + 4 + 3 * (1 + MAX_ADDRESS)

  /** What follows the four bytes of the head. */
  function Tail(f: Meta, udp: Option<Destination>): Option<bytes> {
    if f.status == STATUS_NEW then
      if f.target.None? then None
      else
        var t := WriteDestination(f.target.value);
        var i := if f.inbound.Some? then WriteInbound(f.inbound.value) else Some(if udp.Some? then f.globalID else []);
        if t.None? || i.None? then None else Some(t.value + i.value)
    else if udp.Some? then
      var w := WriteAddressPort(ADDR_PARSER, udp.value.address, udp.value.port);
      Some([NETWORK_UDP] + (if w.Some? then w.value else U16(udp.value.port)))
    else Some([])
  }

  lemma HeadAndTail(f: Meta, udp: Option<Destination>)
    ensures WriteMeta(f, udp) == if Tail(f, udp).None? then None else Some(Head(f) + Tail(f, udp).value)
  {
    hide WriteDestination, WriteInbound, WriteAddressPort, U16;
    var head := Head(f);
    if f.status == STATUS_NEW && Tail(f, udp).Some? {
      var t := WriteDestination(f.target.value).value;
      var i := if f.inbound.Some? then WriteInbound(f.inbound.value).value else if udp.Some? then f.globalID else [];
      assert head + t + i == head + (t + i);
      assert t + [] == t;
    } else if f.status != STATUS_NEW && udp.Some? {
      var w := WriteAddressPort(ADDR_PARSER, udp.value.address, udp.value.port);
      var e := if w.Some? then w.value else U16(udp.value.port);
      assert head + [NETWORK_UDP] + e == head + ([NETWORK_UDP] + e);
    } else {
      assert head + [] == head;
    }
  }

  /** The network byte, if there is one for the network, then port and address. */
  method WriteDestinationTo(d: Destination, b: Buffer) returns (ok: bool)
    requires b.Valid() && b.Available() >= 1 + MAX_ADDRESS
    modifies b`end, b.v
    ensures b.Valid() && b.Available() >= old(b.Available()) - (1 + MAX_ADDRESS)
    ensures ok <==> WriteDestination(d).Some?
    ensures ok ==> b.Content() == old(b.Content()) + WriteDestination(d).value
  {
    hide WriteAddressPort;
    ghost var before := b.Content();
    if d.network == TCP {
      var _ := b.WriteByte(NETWORK_TCP);
    } else if d.network == UDP {
      var _ := b.WriteByte(NETWORK_UDP);
    }
    ok := WriteAddressPortTo(ADDR_PARSER, b, d.address, d.port);
    ghost var w := WriteAddressPort(ADDR_PARSER, d.address, d.port);
    assert before + [] == before;
    assert ok ==> before + NetworkByte(d.network) + w.value == before + (NetworkByte(d.network) + w.value);
  }

  /** Source and local end of a reverse connection, as far as they have networks. */
  method WriteInboundTo(i: Inbound, b: Buffer) returns (ok: bool)
    requires b.Valid() && b.Available() >= 2 * (1 + MAX_ADDRESS)
    modifies b`end, b.v
    ensures b.Valid() && (ok <==> WriteInbound(i).Some?)
    ensures ok ==> b.Content() == old(b.Content()) + WriteInbound(i).value
  {
    hide WriteDestination;
    ghost var before := b.Content();
    ok := true;
    if Routable(i.source) {
      ok := WriteDestinationTo(i.source.value, b);
      if ok && Routable(i.local) {
        ok := WriteDestinationTo(i.local.value, b);
        ghost var s, l := WriteDestination(i.source.value), WriteDestination(i.local.value);
        assert ok ==> before + s.value + l.value == before + (s.value + l.value);
      }
    } else {
      assert before + [] == before;
    }
  }

  method WriteTail(f: Meta, udp: Option<Destination>, b: Buffer) returns (ok: bool)
    requires b.Valid() && b.Available() >= 3 * (1 + MAX_ADDRESS)
    modifies b`end, b.v
    ensures b.Valid() && (ok <==> Tail(f, udp).Some?)
    ensures ok ==> b.Content() == old(b.Content()) + Tail(f, udp).value
  {
    hide WriteDestination, WriteInbound, WriteAddressPort, U16;
    ghost var before := b.Content();
    ok := true;
    if f.status == STATUS_NEW {
      if f.target.None? {
        return false;
      }
      ok := WriteDestinationTo(f.target.value, b);
      if !ok {
        return;
      }
      ghost var t := WriteDestination(f.target.value).value;
      if f.inbound.Some? {
        ok := WriteInboundTo(f.inbound.value, b);
        ghost var i := WriteInbound(f.inbound.value);
        assert ok ==> before + t + i.value == before + (t + i.value);
      } else if udp.Some? {
        var _, _ := b.Write(f.globalID);
        assert before + t + f.globalID == before + (t + f.globalID);
      } else {
        assert before + t == before + (t + []);
      }
    } else if udp.Some? {
      var _ := b.WriteByte(NETWORK_UDP);
      var written := WriteAddressPortTo(ADDR_PARSER, b, udp.value.address, udp.value.port);
      ghost var w := WriteAddressPort(ADDR_PARSER, udp.value.address, udp.value.port);
      ghost var e := if w.Some? then w.value else U16(udp.value.port);
      assert before + [NETWORK_UDP] + e == before + ([NETWORK_UDP] + e);
    } else {
      assert before + [] == before;
    }
  }

  /** Two bytes for the length, and the head behind them. */
  method WriteHead(f: Meta, b: Buffer)
    requires b.Valid() && b.Available() >= 6
    modifies b`end, b.v
    ensures b.Valid() && b.Available() == old(b.Available()) - 6
    ensures b.Content() == old(b.Content()) + Zeros(2) + Head(f)
  {
    hide U16, Zeros;
    ghost var before := b.Content();
    b.Extend(2);
    var at := b.Len();
    b.Extend(2);
    b.Put(at, U16(f.sessionID));
    var _ := b.WriteByte(f.status);
    var _ := b.WriteByte(f.option);
    assert b.Content() == before + Zeros(2) + (U16(f.sessionID) + [f.status, f.option]);
  }

  /** The metadata behind its length. A target or source that cannot be written is an error, an endpoint is not. */
  method WriteTo(f: Meta, udp: Option<Destination>, b: Buffer) returns (ok: bool)
    requires b.Valid() && b.Available() >= MAX_WRITTEN
    modifies b`end, b.v
    ensures b.Valid() && (ok <==> WriteMeta(f, udp).Some?)
    ensures ok ==> b.Content() == old(b.Content()) + U16(|WriteMeta(f, udp).value|) + WriteMeta(f, udp).value
  {
    hide U16, Tail, Head, WriteMeta, Zeros;
    ghost var before := b.Content();
    var lenAt := b.Len();
    HeadAndTail(f, udp);
    WriteHead(f, b);
    ok := WriteTail(f, udp, b);
    if !ok {
      return;
    }
    ghost var w := WriteMeta(f, udp).value;
    assert before + Zeros(2) + Head(f) + Tail(f, udp).value == before + Zeros(2) + w;
    b.Put(lenAt, U16(b.Len() - lenAt - 2));
    assert b.Content() == before + U16(|w|) + w;
  }

  /** Port and address behind a network byte that has been read already. */
  method ReadEndpoint(parse: IPParser, network: byte, b: Buffer) returns (d: Option<Destination>)
    requires b.Valid()
    modifies b`start, b`end
    ensures b.Valid()
    ensures var r := ReadDestination(parse, [network] + old(b.Content()));
            if r.None? then d.None? else d == Some(r.value.0) && b.Content() == r.value.1
  {
    hide ReadAddressPort;
    assert ([network] + b.Content())[1..] == b.Content();
    var r := ReadAddressPortFrom(ADDR_PARSER, parse, b);
    if r.None? {
      return None;
    }
    match ReadNetwork(network)
    case None => return None;
    case Some(n) => return Some(Destination(n, r.value.0, r.value.1));
  }

  /** One end of a reverse connection; nothing, or a zero network byte, ends the list early. */
  method ReadEnd(parse: IPParser, b: Buffer) returns (d: Option<Option<Destination>>)
    requires b.Valid()
    modifies b`start, b`end
    ensures b.Valid()
    ensures var s := old(b.Content());
            if s == [] || s[0] == 0 then d == Some(None)
            else
              var r := ReadDestination(parse, s);
              if r.None? then d == None else d == Some(Some(r.value.0)) && b.Content() == r.value.1
  {
    hide ReadDestination;
    ghost var s := b.Content();
    if b.Len() == 0 || b.Byte(0) == 0 {
      return Some(None);
    }
    var network := b.Byte(0);
    b.Advance(1);
    assert [network] + s[1..] == s;
    var e := ReadEndpoint(parse, network, b);
    return if e.None? then None else Some(e);
  }

  /** The fields one after the other. */
  method UnmarshalFromBuffer(parse: IPParser, b: Buffer, readSourceAndLocal: bool) returns (r: Option<Meta>)
    requires b.Valid()
    modifies b`start, b`end
    ensures b.Valid() && r == ReadMeta(parse, old(b.Content()), readSourceAndLocal)
  {
    hide ReadDestination, FromU16;
    ghost var s := b.Content();
    if b.Len() < 4 {
      return None;
    }
    var f := Meta(FromU16(b.Byte(0), b.Byte(1)), b.Byte(2), b.Byte(3), None, NO_GLOBAL_ID, None);
    if f.status == STATUS_NEW || (f.status == STATUS_KEEP && b.Len() > 4 && b.Byte(4) == NETWORK_UDP) {
      if b.Len() < 8 {
        return None;
      }
      var network := b.Byte(4);
      b.Advance(5);
      assert [network] + s[5..] == s[4..];
      var target := ReadEndpoint(parse, network, b);
      if target.None? {
        return None;
      }
      f := f.(target := target);
    }
    if f.status == STATUS_NEW && readSourceAndLocal {
      var source := ReadEnd(parse, b);
      if source.None? {
        return None;
      }
      f := f.(inbound := Some(Inbound(source.value, None)));
      if source.value.None? {
        return Some(f);
      }
      var local := ReadEnd(parse, b);
      if local.None? {
        return None;
      }
      return Some(f.(inbound := Some(Inbound(source.value, local.value))));
    }
    if f.status == STATUS_NEW && HasData(f.option) && f.target.value.network == UDP && b.Len() >= 8 {
      f := f.(globalID := b.Content()[..8]);
    }
    return Some(f);
  }
}
