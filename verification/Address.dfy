/** Addresses and ports on the wire, for parsers that put the port first or last. */
module Addresses {
  import opened ByteSeq

  type IP4 = b: bytes | |b| == 4 witness [0, 0, 0, 0]
  type IP6 = b: bytes | |b| == 16 witness [0, 0, 0, 0, 0, 0, 0, 0, 0, 0, 0, 0, 0, 0, 0, 0]

  datatype Address = IPv4(ip4: IP4) | IPv6(ip6: IP6) | Domain(name: bytes)

  type IPAddress = a: Address | !a.Domain? witness IPv4([0, 0, 0, 0])

  /** Decides which names are really IP addresses, and which. */
  type IPParser = bytes -> Option<IPAddress>

  type uint16 = n: int | 0 <= n < 0x1_0000

  const MAPPED_PREFIX: bytes := [0, 0, 0, 0, 0, 0, 0, 0, 0, 0, 0xff, 0xff]

  /** The address of 16 bytes; a mapped IPv4 address becomes IPv4. */
  function FromIP6(b: IP6): IPAddress {
    if b[..12] == MAPPED_PREFIX then IPv4(b[12..]) else IPv6(b)
  }

  /** An IPv6 address is IPv4 exactly if it begins with ten zeros and twice 255 (section 2.5.5.2 of RFC 4291). */
  lemma MappedIsIPv4(b: IP6)
    ensures FromIP6(b) ==
              if (forall i :: 0 <= i < 10 ==> b[i] == 0) && b[10] == b[11] == 0xff then IPv4(b[12..]) else IPv6(b)
  {
    assert b[..12] == MAPPED_PREFIX <==> forall i :: 0 <= i < 12 ==> b[i] == MAPPED_PREFIX[i];
    assert b[10] == b[..12][10] && b[11] == b[..12][11];
    assert forall i :: 0 <= i < 10 ==> MAPPED_PREFIX[i] == 0;
  }

  /** The type byte of each family, all below 16 and different, and the place of the port. */
  datatype Parser = Parser(v4: byte, domain: byte, v6: byte, portFirst: bool) {
    ghost predicate Valid() {
      v4 < 16 && domain < 16 && v6 < 16 && v4 != domain && v4 != v6 && domain != v6
    }
  }

  predicate MaybeIPPrefix(b: byte) {
    b == 91 || 48 <= b <= 57
  }

  predicate IsValidDomain(name: bytes) {
    forall i :: 0 <= i < |name| ==>
      || 48 <= name[i] <= 57 || 97 <= name[i] <= 122 || 65 <= name[i] <= 90
      || name[i] == 45 || name[i] == 46 || name[i] == 95
  }

  /** A valid name has letters, digits, hyphens, dots and underscores. */
  lemma ValidNames(name: bytes)
    ensures IsValidDomain(name) <==>
              forall i :: 0 <= i < |name| ==>
                var c := name[i] as char;
                '0' <= c <= '9' || 'a' <= c <= 'z' || 'A' <= c <= 'Z' || c in {'-', '.', '_'}
    ensures name != [] ==> (MaybeIPPrefix(name[0]) <==> name[0] as char == '[' || '0' <= name[0] as char <= '9')
  {
  }

  const MAX_DOMAIN := 256

  /** The bytes of an address. None is an error, before anything is written. */
  function WriteAddress(p: Parser, a: Address): Option<bytes> {
    match a
    case IPv4(ip) => Some([p.v4] + ip)
    case IPv6(ip) => Some([p.v6] + ip)
    case Domain(name) =>
      if |name| > MAX_DOMAIN then None else Some([p.domain, |name| % 256] + name)
  }

  /** What a name on the wire is taken for. */
  function ReadName(parse: IPParser, name: bytes): Option<Address>
    requires name != []
  {
    if MaybeIPPrefix(name[0]) && parse(name).Some? then Some(parse(name).value)
    else if !IsValidDomain(name) then None
    else Some(Domain(name))
  }

  /**
   * Reads an address into a buffer that already holds `scratch`. A name of length zero makes the
   * reader take the whole buffer, type and length byte included, for the name.
   */
  function ReadAddress(p: Parser, parse: IPParser, scratch: bytes, s: bytes): Option<(Address, bytes)> {
    if |s| < 1 || s[0] >= 16 then None
    else if s[0] == p.v4 then
      if |s| < 5 then None else Some((IPv4(s[1..5]), s[5..]))
    else if s[0] == p.v6 then
      if |s| < 17 then None else Some((FromIP6(s[1..17]), s[17..]))
    else if s[0] == p.domain then
      if |s| < 2 || |s| < 2 + s[1] as int then None
      else
        var n := s[1] as int;
        var a := ReadName(parse, if n == 0 then scratch + s[..2] else s[2..2 + n]);
        if a.None? then None else Some((a.value, s[2 + n..]))
    else None
  }

  function WriteAddressPort(p: Parser, a: Address, port: uint16): Option<bytes> {
    var w := WriteAddress(p, a);
    if w.None? then None
    else if p.portFirst then Some(U16(port) + w.value)
    else Some(w.value + U16(port))
  }

  function ReadAddressPort(p: Parser, parse: IPParser, s: bytes): Option<(Address, uint16, bytes)> {
    if p.portFirst then
      if |s| < 2 then None
      else
        var r := ReadAddress(p, parse, s[..2], s[2..]);
        if r.None? then None else Some((r.value.0, FromU16(s[0], s[1]), r.value.1))
    else
      var r := ReadAddress(p, parse, [], s);
      if r.None? || |r.value.1| < 2 then None
      else Some((r.value.0, FromU16(r.value.1[0], r.value.1[1]), r.value.1[2..]))
  }

  /** Addresses that survive: normalised IPs, and valid names of 1 to 255 bytes that are not IPs in disguise. */
  predicate Survives(parse: IPParser, a: Address) {
    match a
    case IPv4(_) => true
    case IPv6(ip) => ip[..12] != MAPPED_PREFIX
    case Domain(name) =>
      1 <= |name| <= 255 && IsValidDomain(name) && !(MaybeIPPrefix(name[0]) && parse(name).Some?)
  }

  /** An address is read back as itself exactly if it survives; 256 bytes pass the length test but do not. */
  lemma AddressRoundTrip(p: Parser, parse: IPParser, scratch: bytes, a: Address, rest: bytes)
    requires p.Valid()
    ensures var w := WriteAddress(p, a);
            Survives(parse, a) <==> w.Some? && ReadAddress(p, parse, scratch, w.value + rest) == Some((a, rest))
  {
    var w := WriteAddress(p, a);
    if w.Some? {
      var s := w.value + rest;
      match a {
        case IPv4(ip) =>
          assert s[1..5] == ip && s[5..] == rest;
        case IPv6(ip) =>
          assert s[1..17] == ip && s[17..] == rest;
        case Domain(name) =>
          if 1 <= |name| <= 255 {
            assert s[2..2 + |name|] == name && s[2 + |name|..] == rest;
          } else if |name| == 256 {
            assert s[2..] == name + rest;
          } else {
            assert s[2..] == rest;
          }
      }
    }
  }

  /** Only names of more than 256 bytes are refused; one of 256 bytes is written with a length of zero. */
  lemma WritableNames(p: Parser, name: bytes)
    ensures WriteAddress(p, Domain(name)).Some? <==> |name| <= 256
    ensures |name| <= 256 ==>
              WriteAddress(p, Domain(name)).value == [p.domain, if |name| == 256 then 0 else |name|] + name
  {
  }

  /** With the port, first or last, the same addresses come back, together with their port. */
  lemma AddressPortRoundTrip(p: Parser, parse: IPParser, a: Address, port: uint16, rest: bytes)
    requires p.Valid()
    ensures var w := WriteAddressPort(p, a, port);
            Survives(parse, a) <==> w.Some? && ReadAddressPort(p, parse, w.value + rest) == Some((a, port, rest))
  {
    hide WriteAddress, ReadAddress, Survives, U16;
    var w := WriteAddress(p, a);
    if w.Some? {
      if p.portFirst {
        var s := U16(port) + w.value + rest;
        assert s[..2] == U16(port) && s[2..] == w.value + rest;
        AddressRoundTrip(p, parse, s[..2], a, rest);
        assert FromU16(s[0], s[1]) == port;
      } else {
        var s := w.value + U16(port) + rest;
        assert s == w.value + (U16(port) + rest);
        AddressRoundTrip(p, parse, [], a, U16(port) + rest);
        var after := U16(port) + rest;
        assert after[2..] == rest && FromU16(after[0], after[1]) == port;
        if !Survives(parse, a) {
          WrongEnd(p, parse, a, port, rest);
        }
      }
    } else {
      AddressRoundTrip(p, parse, [], a, rest);
    }
  }

  /** What reads back as itself, whatever is left over, survives. */
  lemma ReadsItself(p: Parser, parse: IPParser, a: Address, port: uint16)
    requires p.Valid() && p.portFirst && WriteAddressPort(p, a, port).Some?
    ensures var r := ReadAddressPort(p, parse, WriteAddressPort(p, a, port).value);
            r.Some? && r.value.0 == a ==> Survives(parse, a)
  {
    hide U16, FromU16;
    var w := WriteAddress(p, a).value;
    assert (U16(port) + w)[2..] == w;
    match a {
      case IPv4(ip) =>
      case IPv6(ip) =>
        assert w[1..17] == ip;
      case Domain(name) =>
        assert w[2..] == name;
    }
  }

  /** With the port last, an address that does not survive is not read back by accident either. */
  lemma WrongEnd(p: Parser, parse: IPParser, a: Address, port: uint16, rest: bytes)
    requires p.Valid() && WriteAddress(p, a).Some? && !Survives(parse, a)
    ensures ReadAddress(p, parse, [], WriteAddress(p, a).value + (U16(port) + rest)).Some? ==>
              var r := ReadAddress(p, parse, [], WriteAddress(p, a).value + (U16(port) + rest)).value;
              r.0 != a || |r.1| != |rest| + 2
  {
  }
}
