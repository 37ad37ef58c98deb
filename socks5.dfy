/** The SOCKS5 address codec of `sockaddr_universal.h`: an address in the
    ATYP / DST.ADDR / DST.PORT layout of section 5 of RFC 1928. One octet gives the
    address type, then come 4 octets of IPv4 address, a length octet and that many
    octets of domain name, or 16 octets of IPv6 address, and last the port as two
    octets in network byte order. */
module Socks5Address {
  import opened ClibCommon

  /** `enum SOCKS5_ADDRTYPE`. */
  const AddrTypeInvalid: byte := 0x00
  const AddrTypeIPv4: byte := 0x01
  const AddrTypeDomainName: byte := 0x03
  const AddrTypeIPv6: byte := 0x04

  /** The size of the `domainname` buffer of `struct socks5_address`. */
  const DomainNameBufferSize: nat := 0x0100

  newtype uint16 = x: int | 0 <= x < 0x1_0000

  type IPv4Bytes = s: seq<byte> | |s| == 4 witness [0, 0, 0, 0]
  type IPv6Bytes = s: seq<byte> | |s| == 16 witness [0, 0, 0, 0, 0, 0, 0, 0, 0, 0, 0, 0, 0, 0, 0, 0]
  /** A name whose length fits the one length octet of the encoding. */
  type DomainBytes = s: seq<byte> | |s| <= 0xFF

  /** `struct socks5_address`, one variant per valid address type. */
  datatype Address =
    | IPv4(ipv4: IPv4Bytes, port: uint16)
    | DomainName(domainName: DomainBytes, port: uint16)
    | IPv6(ipv6: IPv6Bytes, port: uint16)

  /** The ATYP octet an address is written with. */
  function TypeOf(a: Address): (t: byte)
    ensures t != AddrTypeInvalid
    ensures t == AddrTypeIPv4 <==> a.IPv4?
    ensures t == AddrTypeDomainName <==> a.DomainName?
    ensures t == AddrTypeIPv6 <==> a.IPv6?
  {
    match a
    case IPv4(_, _) => AddrTypeIPv4
    case DomainName(_, _) => AddrTypeDomainName
    case IPv6(_, _) => AddrTypeIPv6
  }

  /** A domain name always fits, with its terminating zero, in the struct's buffer. */
  lemma DomainNameFits(a: Address)
    requires a.DomainName?
    ensures |a.domainName| < DomainNameBufferSize
  {
  }

  /** `socks5_address_size`: the length of the encoding, 7 for IPv4, 19 for IPv6 and
      4 plus the name's length for a domain name. */
  function Size(a: Address): (n: nat)
    ensures 4 <= n <= 1 + 1 + 0xFF + 2
  {
    match a
    case IPv4(_, _) => 1 + 4 + 2
    case DomainName(name, _) => 1 + 1 + |name| + 2
    case IPv6(_, _) => 1 + 16 + 2
  }

  /** The port in network byte order: high octet first. */
  function PortBytes(p: uint16): (r: seq<byte>)
    ensures |r| == 2
  {
    [(p / 0x100) as byte, (p % 0x100) as byte]
  }

  /** Reads a port written in network byte order: `hi` is its high octet and `lo`
      its low one. */
  function ReadPort(hi: byte, lo: byte): (p: uint16)
    ensures p as int / 0x100 == hi as int && p as int % 0x100 == lo as int
  {
    (hi as int * 0x100 + lo as int) as uint16
  }

  lemma PortRoundTrip(p: uint16)
    ensures ReadPort(PortBytes(p)[0], PortBytes(p)[1]) == p
  {
  }

  /** The bytes `socks5_address_binary` writes: type, address, port. */
  function Binary(a: Address): (r: seq<byte>)
    ensures |r| == Size(a)
    ensures r[0] == TypeOf(a)
    ensures r[|r| - 2..] == PortBytes(a.port)
  {
    match a
    case IPv4(ip, p) => [AddrTypeIPv4] + ip + PortBytes(p)
    case DomainName(name, p) => [AddrTypeDomainName, |name| as byte] + name + PortBytes(p)
    case IPv6(ip, p) => [AddrTypeIPv6] + ip + PortBytes(p)
  }

  /** `socks5_address_parse`: the address at the start of `data`, or `None` when
      the type octet is not a valid ATYP or when `data` is shorter than an encoding
      of that type (for a domain name, shorter than its length octet announces).
      Octets after the encoding are ignored. */
  function Parse(data: seq<byte>): (r: Option<Address>)
    ensures r.Some? ==> Size(r.value) <= |data| && TypeOf(r.value) == data[0]
    ensures |data| == 0 ==> r.None?
  {
    if |data| == 0 then None
    else if data[0] == AddrTypeIPv4 then
      if |data| < 1 + 4 + 2 then None
      else Some(IPv4(data[1..5], ReadPort(data[5], data[6])))
    else if data[0] == AddrTypeDomainName then
      if |data| < 2 then None
      else
        var n := data[1] as nat;
        if |data| < 1 + 1 + n + 2 then None
        else Some(DomainName(data[2..2 + n], ReadPort(data[2 + n], data[3 + n])))
    else if data[0] == AddrTypeIPv6 then
      if |data| < 1 + 16 + 2 then None
      else Some(IPv6(data[1..17], ReadPort(data[17], data[18])))
    else None
  }

  /** Parsing what the serialiser wrote gives back the address, whatever follows it. */
  lemma RoundTrip(a: Address, rest: seq<byte>)
    ensures Parse(Binary(a) + rest) == Some(a)
  {
    var e := Binary(a) + rest;
    PortRoundTrip(a.port);
    match a
    case IPv4(ip, p) =>
      assert e[1..5] == ip;
    case DomainName(name, p) =>
      assert e[2..2 + |name|] == name;
    case IPv6(ip, p) =>
      assert e[1..17] == ip;
  }

  /** Writing a port that was read from two octets gives back those octets. */
  lemma ReadPortBytes(hi: byte, lo: byte)
    ensures PortBytes(ReadPort(hi, lo)) == [hi, lo]
  {
    var v := hi as int * 0x100 + lo as int;
    assert v / 0x100 == hi as int && v % 0x100 == lo as int;
  }

  /** A parse that succeeds read exactly the serialisation of its result. */
  lemma ParseReadsBinary(data: seq<byte>)
    requires Parse(data).Some?
    ensures Binary(Parse(data).value) == data[..Size(Parse(data).value)]
  {
    var a := Parse(data).value;
    var n := Size(a);
    match a
    case IPv4(ip, p) =>
      ReadPortBytes(data[5], data[6]);
      assert data[..n] == [data[0]] + data[1..5] + [data[5], data[6]];
    case DomainName(name, p) =>
      var k := |name|;
      ReadPortBytes(data[2 + k], data[3 + k]);
      assert data[..n] == [data[0], data[1]] + data[2..2 + k] + [data[2 + k], data[3 + k]];
    case IPv6(ip, p) =>
      ReadPortBytes(data[17], data[18]);
      assert data[..n] == [data[0]] + data[1..17] + [data[17], data[18]];
  }

  /** A parse succeeds exactly when the input starts with the encoding of some
      address, and that address is what it returns. */
  lemma ParseAcceptsEncodings(data: seq<byte>, a: Address)
    ensures Parse(data) == Some(a) <==> Size(a) <= |data| && data[..Size(a)] == Binary(a)
  {
    if Size(a) <= |data| && data[..Size(a)] == Binary(a) {
      RoundTrip(a, data[Size(a)..]);
      PrefixSplit(data, Size(a));
    }
    if Parse(data) == Some(a) {
      ParseReadsBinary(data);
    }
  }

  /** A sequence is its first `n` elements followed by the rest. */
  lemma PrefixSplit<T>(s: seq<T>, n: nat)
    requires n <= |s|
    ensures s == s[..n] + s[n..]
  {
  }

  /** Input with an invalid type octet, or too short for its type, is rejected; so
      is anything shorter than the 4 octets of the shortest encoding. */
  lemma ParseRejects(data: seq<byte>)
    ensures |data| < 4 ==> Parse(data).None?
    ensures (|data| == 0 || data[0] !in {AddrTypeIPv4, AddrTypeDomainName, AddrTypeIPv6}) ==> Parse(data).None?
    ensures |data| > 0 && data[0] == AddrTypeIPv4 && |data| < 7 ==> Parse(data).None?
    ensures |data| > 0 && data[0] == AddrTypeIPv6 && |data| < 19 ==> Parse(data).None?
    ensures |data| > 0 && data[0] == AddrTypeDomainName && (|data| < 2 || |data| < 4 + data[1] as int) ==> Parse(data).None?
  {
  }

  /** `socks5_address_parse` over the caller's `len` octets at `data`: reads the
      type octet, the address and the port in turn, advancing an offset. */
  method ParseAddress(data: array<byte>, len: nat) returns (r: Option<Address>)
    requires len <= data.Length
    ensures r == Parse(data[..len])
  {
    if len == 0 {
      return None;
    }
    var offset := 0;
    var addrType := data[offset];
    offset := offset + 1;
    var addrSize: nat;
    if addrType == AddrTypeIPv4 {
      addrSize := 4;
      if len < 1 + addrSize + 2 {
        return None;
      }
    } else if addrType == AddrTypeDomainName {
      if len < 2 {
        return None;
      }
      addrSize := data[offset] as nat;
      offset := offset + 1;
      if len < 1 + 1 + addrSize + 2 {
        return None;
      }
    } else if addrType == AddrTypeIPv6 {
      addrSize := 16;
      if len < 1 + addrSize + 2 {
        return None;
      }
    } else {
      return None;
    }
    var bytes := data[offset..offset + addrSize];
    assert |bytes| == addrSize;
    assert data[..len][offset..offset + addrSize] == bytes;
    offset := offset + addrSize;
    var port := ReadPort(data[offset], data[offset + 1]);
    if addrType == AddrTypeIPv4 {
      r := Some(IPv4(bytes, port));
    } else if addrType == AddrTypeDomainName {
      r := Some(DomainName(bytes, port));
    } else {
      r := Some(IPv6(bytes, port));
    }
  }

  /** Copies `s` into `buffer` from `offset` on, leaving every other slot alone. */
  method WriteBytes(buffer: array<byte>, offset: nat, s: seq<byte>)
    requires offset + |s| <= buffer.Length
    modifies buffer
    ensures buffer[offset..offset + |s|] == s
    ensures forall i :: 0 <= i < buffer.Length && !(offset <= i < offset + |s|) ==> buffer[i] == old(buffer[i])
  {
    var i := 0;
    while i < |s|
      invariant i <= |s|
      invariant forall j :: 0 <= j < i ==> buffer[offset + j] == s[j]
      invariant forall j :: 0 <= j < buffer.Length && !(offset <= j < offset + i) ==> buffer[j] == old(buffer[j])
    {
      buffer[offset + i] := s[i];
      i := i + 1;
    }
  }

  /** `socks5_address_binary`: writes the encoding of `a` into the first `size` slots of
      `buffer`. When they cannot hold it, it fails and writes nothing; otherwise
      it writes exactly `Size(a)` octets and none past them. */
  method WriteAddress(a: Address, buffer: array<byte>, size: nat) returns (ok: bool)
    requires size <= buffer.Length
    modifies buffer
    ensures ok <==> Size(a) <= size
    ensures ok ==> buffer[..Size(a)] == Binary(a)
    ensures ok ==> forall i :: Size(a) <= i < buffer.Length ==> buffer[i] == old(buffer[i])
    ensures !ok ==> buffer[..] == old(buffer[..])
  {
    if size == 0 || size < Size(a) {
      return false;
    }
    var body: seq<byte>;
    match a {
      case IPv4(ip, _) => body := ip;
      case DomainName(name, _) => body := [|name| as byte] + name;
      case IPv6(ip, _) => body := ip;
    }
    var n := Size(a);
    assert Binary(a) == [TypeOf(a)] + body + PortBytes(a.port);
    buffer[0] := TypeOf(a);
    WriteBytes(buffer, 1, body);
    ghost var written := buffer[..1 + |body|];
    assert written == [TypeOf(a)] + body by {
      assert written[1..] == buffer[1..1 + |body|];
    }
    WriteBytes(buffer, 1 + |body|, PortBytes(a.port));
    assert buffer[..1 + |body|] == written;
    assert buffer[..n] == buffer[..1 + |body|] + buffer[1 + |body|..n];
    ok := true;
  }
}
