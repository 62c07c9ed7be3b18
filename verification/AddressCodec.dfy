/** Writing addresses into a buffer and reading them from one, step by step. */
module AddressCodecs {
  import opened ByteSeq
  import opened Addresses
  import opened BufferWindows

  /** Room that an address and a port may need. */
  const MAX_ADDRESS := 260

  /** An address that cannot be written leaves the buffer as it was. */
  method WriteAddressTo(p: Parser, b: Buffer, a: Address) returns (ok: bool)
    requires b.Valid() && b.Available() >= MAX_ADDRESS - 2
    modifies b`end, b.v
    ensures b.Valid() && (ok <==> WriteAddress(p, a).Some?)
    ensures b.Content() == old(b.Content()) + if ok then WriteAddress(p, a).value else []
    ensures b.Available() >= old(b.Available()) - (MAX_ADDRESS - 2)
  {
    ghost var before := b.Content();
    match a {
      case IPv4(ip) =>
        var _, _ := b.Write([p.v4]);
        var _, _ := b.Write(ip);
        assert before + ([p.v4] + ip) == before + [p.v4] + ip;
      case IPv6(ip) =>
        var _, _ := b.Write([p.v6]);
        var _, _ := b.Write(ip);
        assert before + ([p.v6] + ip) == before + [p.v6] + ip;
      case Domain(name) =>
        if |name| > MAX_DOMAIN {
          assert before + [] == before;
          return false;
        }
        var _, _ := b.Write([p.domain, |name| % 256]);
        var _, _ := b.Write(name);
        assert before + ([p.domain, |name| % 256] + name) == before + [p.domain, |name| % 256] + name;
    }
    return true;
  }

  /** With the port in front, the port stays behind if the address cannot be written. */
  method WriteAddressPortTo(p: Parser, b: Buffer, a: Address, port: uint16) returns (ok: bool)
    requires b.Valid() && b.Available() >= MAX_ADDRESS
    modifies b`end, b.v
    ensures b.Valid() && (ok <==> WriteAddressPort(p, a, port).Some?)
    ensures b.Content() == old(b.Content())
                           + (if ok then WriteAddressPort(p, a, port).value else if p.portFirst then U16(port) else [])
    ensures b.Available() >= old(b.Available()) - MAX_ADDRESS
  {
    hide WriteAddress, U16;
    ghost var before, w := b.Content(), WriteAddress(p, a);
    if p.portFirst {
      var _, _ := b.Write(U16(port));
      ok := WriteAddressTo(p, b, a);
      assert ok ==> before + U16(port) + w.value == before + (U16(port) + w.value);
      assert before + U16(port) + [] == before + U16(port);
    } else {
      ok := WriteAddressTo(p, b, a);
      if ok {
        var _, _ := b.Write(U16(port));
        assert before + w.value + U16(port) == before + (w.value + U16(port));
      }
    }
  }

  /** Reads an address through the scratch buffer `b`, which collects what is read. */
  method ReadAddressFrom(p: Parser, parse: IPParser, b: Buffer, reader: Buffer) returns (a: Option<Address>)
    requires b.Valid() && reader.Valid() && b != reader && b.v != reader.v && b.Available() >= MAX_ADDRESS
    modifies b`end, b.v, reader`start, reader`end
    ensures b.Valid() && reader.Valid() && b.Available() >= old(b.Available()) - MAX_ADDRESS
    ensures var r := ReadAddress(p, parse, old(b.Content()), old(reader.Content()));
            if r.None? then a.None? else a == Some(r.value.0) && reader.Content() == r.value.1
  {
    hide FromIP6, ReadName;
    ghost var scratch, s := b.Content(), reader.Content();
    var ok := ReadFullFrom(b, reader, 1);
    if !ok {
      return None;
    }
    var addrType := b.Byte(b.Len() - 1);
    assert addrType == b.Content()[|scratch|] == s[0];
    if addrType >= 16 {
      return None;
    }
    if addrType == p.v4 {
      var ip := ReadIPFrom(b, reader, 4);
      if ip.None? {
        return None;
      }
      CutBehind(s, 1, 4);
      return Some(IPv4(ip.value));
    } else if addrType == p.v6 {
      var ip := ReadIPFrom(b, reader, 16);
      if ip.None? {
        return None;
      }
      CutBehind(s, 1, 16);
      return Some(FromIP6(ip.value));
    } else if addrType == p.domain {
      ok := ReadFullFrom(b, reader, 1);
      if !ok {
        return None;
      }
      a := ReadNameFrom(parse, b, reader, scratch, s);
    } else {
      return None;
    }
  }

  lemma CutBehind(s: bytes, k: nat, n: nat)
    requires k + n <= |s|
    ensures s[k..][..n] == s[k..k + n] && s[k..][n..] == s[k + n..]
  {
  }

  /** The next `n` bytes. */
  method ReadIPFrom(b: Buffer, reader: Buffer, n: nat) returns (ip: Option<bytes>)
    requires b.Valid() && reader.Valid() && b != reader && b.v != reader.v && n <= b.Available()
    modifies b`end, b.v, reader`start, reader`end
    ensures b.Valid() && reader.Valid() && b.Available() >= old(b.Available()) - n
    ensures var s := old(reader.Content());
            if |s| < n then ip == None else ip == Some(s[..n]) && reader.Content() == s[n..]
  {
    ghost var scratch, s := b.Content(), reader.Content();
    var ok := ReadFullFrom(b, reader, n);
    if !ok {
      return None;
    }
    var c := b.Content();
    assert c == scratch + s[..n];
    return Some(c[|c| - n..]);
  }

  /** The name behind its length byte. A length of zero makes the whole scratch buffer the name. */
  method ReadNameFrom(parse: IPParser, b: Buffer, reader: Buffer, ghost scratch: bytes, ghost s: bytes)
    returns (a: Option<Address>)
    requires b.Valid() && reader.Valid() && b != reader && b.v != reader.v && b.Available() >= MAX_ADDRESS - 2
    requires |s| >= 2 && b.Content() == scratch + s[..1] + s[1..][..1] && reader.Content() == s[1..][1..]
    modifies b`end, b.v, reader`start, reader`end
    ensures b.Valid() && reader.Valid() && b.Available() >= old(b.Available()) - (MAX_ADDRESS - 2)
    ensures var n := s[1] as int;
            if |s| < 2 + n then a.None?
            else
              && a == ReadName(parse, if n == 0 then scratch + s[..2] else s[2..2 + n])
              && (a.Some? ==> reader.Content() == s[2 + n..])
  {
    var n := b.Byte(b.Len() - 1) as int;
    assert b.Content()[|scratch| + 1] == s[1];
    assert s[1..][1..] == s[2..];
    var ok := ReadFullFrom(b, reader, n);
    if !ok {
      return None;
    }
    var c := b.Content();
    assert s[2..][..n] == s[2..2 + n] && s[2..][n..] == s[2 + n..];
    assert c == scratch + s[..2] + s[2..2 + n];
    var name := if n == 0 then c else c[|c| - n..];
    assert n > 0 ==> name == s[2..2 + n];
    assert n == 0 ==> name == scratch + s[..2];
    if MaybeIPPrefix(name[0]) && parse(name).Some? {
      return Some(parse(name).value);
    }
    if !IsValidDomain(name) {
      return None;
    }
    return Some(Domain(name));
  }

  method ReadPortFrom(b: Buffer, reader: Buffer) returns (port: Option<uint16>)
    requires b.Valid() && reader.Valid() && b != reader && b.v != reader.v && b.Available() >= 2
    modifies b`end, b.v, reader`start, reader`end
    ensures b.Valid() && reader.Valid() && b.Available() >= old(b.Available()) - 2
    ensures var s := old(reader.Content());
            if |s| < 2 then port == None
            else
              && port == Some(FromU16(s[0], s[1])) && reader.Content() == s[2..]
              && b.Content() == old(b.Content()) + s[..2]
  {
    var ok := ReadFullFrom(b, reader, 2);
    if !ok {
      return None;
    }
    var c := b.Content();
    return Some(FromU16(c[|c| - 2], c[|c| - 1]));
  }

  /** An address and a port, through a scratch buffer of its own. */
  method ReadAddressPortFrom(p: Parser, parse: IPParser, reader: Buffer) returns (r: Option<(Address, uint16)>)
    requires reader.Valid()
    modifies reader`start, reader`end
    ensures reader.Valid()
    ensures var d := ReadAddressPort(p, parse, old(reader.Content()));
            if d.None? then r.None? else r == Some((d.value.0, d.value.1)) && reader.Content() == d.value.2
  {
    hide ReadAddress, FromU16;
    var b := new Buffer();
    var port, a;
    if p.portFirst {
      port := ReadPortFrom(b, reader);
      if port.None? {
        return None;
      }
      assert [] + old(reader.Content())[..2] == old(reader.Content())[..2];
      a := ReadAddressFrom(p, parse, b, reader);
      if a.None? {
        return None;
      }
    } else {
      a := ReadAddressFrom(p, parse, b, reader);
      if a.None? {
        return None;
      }
      port := ReadPortFrom(b, reader);
      if port.None? {
        return None;
      }
    }
    return Some((a.value, port.value));
  }
}
