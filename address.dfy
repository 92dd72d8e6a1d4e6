/**
 * Splitting an endpoint token into address and port: `parse_address_port`
 * (macOS) and `parse_windows_address` (Windows), which have the same body,
 * and the `->` cut that `get_ports_macos` applies to lsof's NAME column.
 */
module Address {
  import opened Wrappers
  import opened Numerals
  import opened Text

  /** `port_str.parse::<u16>().unwrap_or(0)`. */
  function PortOrZero(s: string): u16
  {
    match ParseU16(s)
    case Some(p) => p
    case None => 0
  }

  /**
   * `r` is `addr` cut at its last `:`: the address is everything before it,
   * no `:` follows it, and the port is what follows read as a u16, 0 when it
   * is not one; without any `:`, the whole token with port 0.
   */
  ghost predicate SplitsAtLastColon(addr: string, r: (string, u16))
  {
    if ':' in addr then
      && |r.0| < |addr|
      && addr[..|r.0|] == r.0
      && addr[|r.0|] == ':'
      && ':' !in addr[|r.0| + 1..]
      && r.1 == PortOrZero(addr[|r.0| + 1..])
    else
      r == (addr, 0)
  }

  /** `parse_address_port`. */
  function ParseAddressPort(addr: string): (r: (string, u16))
    ensures SplitsAtLastColon(addr, r)
  {
    match RFind(addr, ':')
    case Some(i) => (addr[..i], PortOrZero(addr[i + 1..]))
    case None => (addr, 0)
  }

  /** `parse_windows_address`, the same code under another name. */
  function ParseWindowsAddress(addr: string): (r: (string, u16))
    ensures SplitsAtLastColon(addr, r)
  {
    ParseAddressPort(addr)
  }

  lemma LastColonBeforeDigits(address: string, suffix: string)
    requires ':' !in suffix
    ensures ParseAddressPort(address + ":" + suffix) == (address, PortOrZero(suffix))
  {
    var s := address + ":" + suffix;
    assert s[|address| + 1..] == suffix;
    RFindLast(s, ':', |address|);
    assert s[..|address|] == address;
  }

  /**
   * An endpoint printed as `address:port` splits back into that address and
   * port, whatever colons the address holds (an IPv6 literal in brackets).
   */
  lemma AddressPortRoundTrip(address: string, port: u16)
    ensures ParseAddressPort(address + ":" + NatToString(port)) == (address, port)
    ensures ParseWindowsAddress(address + ":" + NatToString(port)) == (address, port)
  {
    var digits := NatToString(port);
    assert ':' !in digits by {
      assert forall i :: 0 <= i < |digits| ==> IsDigit(digits[i]);
    }
    LastColonBeforeDigits(address, digits);
    ParseUnsignedOfNatToString(port, U16_MAX);
  }

  /** A port text that is empty, not a number, or above 65535 gives port 0. */
  lemma AddressPortZero(address: string, suffix: string)
    requires ':' !in suffix
    requires !IsUnsignedLiteral(suffix) || DecimalValue(Magnitude(suffix)) > U16_MAX
    ensures ParseAddressPort(address + ":" + suffix) == (address, 0)
  {
    LastColonBeforeDigits(address, suffix);
  }

  /** `name_field.find("->")` cut: the local endpoint of an lsof NAME column. */
  function LocalEndpoint(name: string): (local: string)
    ensures !HasArrow(name) ==> local == name
    ensures HasArrow(name) ==> |local| < |name| && name[..|local|] == local && ArrowAt(name, |local|) && !HasArrow(local)
  {
    match FindArrow(name)
    case Some(i) =>
      var local := name[..i];
      assert !HasArrow(local) by {
        forall j | 0 <= j < |local| ensures !ArrowAt(local, j) {
          assert !ArrowAt(name, j);
        }
      }
      local
    case None => name
  }

  /** A connection `local->remote` keeps only its local endpoint. */
  lemma LocalEndpointOfConnection(local: string, remote: string)
    requires !HasArrow(local)
    ensures LocalEndpoint(local + "->" + remote) == local
  {
    var s := local + "->" + remote;
    forall j | 0 <= j < |local|
      ensures !ArrowAt(s, j)
    {
      if j + 1 < |local| {
        assert !ArrowAt(local, j);
      } else {
        assert s[j + 1] == '-';
      }
    }
    FindArrowFirst(s, |local|);
    assert s[..|local|] == local;
  }

  /** An IPv4 endpoint. */
  lemma AddressPortIPv4Example(token: string)
    requires token == "192.168.1.5:8080"
    ensures ParseAddressPort(token) == ("192.168.1.5", 8080)
  {
    assert NatToString(8) == "8";
    assert NatToString(80) == "80";
    assert NatToString(808) == "808";
    assert token == "192.168.1.5" + ":" + NatToString(8080);
    AddressPortRoundTrip("192.168.1.5", 8080);
  }

  /** A bracketed IPv6 endpoint: only the last colon separates the port. */
  lemma AddressPortIPv6Example(token: string)
    requires token == "[::1]:443"
    ensures ParseAddressPort(token) == ("[::1]", 443)
  {
    assert NatToString(4) == "4";
    assert NatToString(44) == "44";
    assert token == "[::1]" + ":" + NatToString(443);
    AddressPortRoundTrip("[::1]", 443);
  }

  /** A wildcard port and a token without any colon both give port 0. */
  lemma AddressPortZeroExamples(wildcard: string, host: string)
    requires wildcard == "*:*" && host == "localhost"
    ensures ParseAddressPort(wildcard) == ("*", 0)
    ensures ParseAddressPort(host) == (host, 0)
  {
    assert wildcard == "*" + ":" + "*";
    assert !IsDigit('*');
    AddressPortZero("*", "*");
    assert ':' !in host;
  }

  /** A NAME column without a remote end. */
  lemma IPv4EndpointExample(local: string)
    requires local == "10.0.0.1:5000"
    ensures !HasArrow(local)
    ensures ParseAddressPort(local) == ("10.0.0.1", 5000)
  {
    forall j | 0 <= j < |local|
      ensures !ArrowAt(local, j)
    {
      assert local[j] != '-';
    }
    assert NatToString(5) == "5";
    assert NatToString(50) == "50";
    assert NatToString(500) == "500";
    assert local == "10.0.0.1" + ":" + NatToString(5000);
    AddressPortRoundTrip("10.0.0.1", 5000);
  }

  /** A connection keeps its local endpoint. */
  lemma ConnectionExample(name: string)
    requires name == "10.0.0.1:5000->10.0.0.2:80"
    ensures ParseAddressPort(LocalEndpoint(name)) == ("10.0.0.1", 5000)
  {
    var local := "10.0.0.1:5000";
    assert name == local + "->" + "10.0.0.2:80";
    IPv4EndpointExample(local);
    LocalEndpointOfConnection(local, "10.0.0.2:80");
  }
}
