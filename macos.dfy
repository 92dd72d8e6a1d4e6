/**
 * `get_ports_macos`: run `lsof -i -P -n`, read each line after the header
 * into a `PortInfo`, keep the first row per (pid, port, protocol) with a
 * non-zero port, sort by port.
 */
module Macos {
  import opened Wrappers
  import opened Numerals
  import opened Text
  import opened Address
  import opened PortRecords
  import opened PortSort
  import opened PortListing

  /** The characters `trim_matches` strips from lsof's state column. */
  const Parens: set<char> := {'(', ')'}

  /** `lines().skip(1)`: every line but the header. */
  function SkipHeader(lines: seq<string>): seq<string>
  {
    if lines == [] then [] else lines[1..]
  }

  /**
   * The fields of one line of lsof: COMMAND PID USER FD TYPE DEVICE
   * SIZE/OFF NODE NAME [(STATE)].  Fewer than nine fields, or a PID field
   * that is not a u32, give no row; otherwise the name is field 0, the pid
   * field 1, the protocol field 7, the endpoint field 8 (up to a `->`), and
   * the state field 9 without its parentheses, or empty.
   */
  function ParseLsofFields(parts: seq<string>): (r: Option<PortInfo>)
    ensures r.Some? <==> |parts| >= 9 && ParseU32(parts[1]).Some?
    ensures r.Some? ==>
      && r.value.processName == parts[0]
      && r.value.pid == ParseU32(parts[1]).value
      && r.value.protocol == parts[7]
      && (r.value.localAddress, r.value.port) == ParseAddressPort(LocalEndpoint(parts[8]))
      && r.value.state == (if |parts| > 9 then TrimMatches(parts[9], Parens) else "")
  {
    if |parts| < 9 then None
    else
      match ParseU32(parts[1])
      case None => None
      case Some(pid) =>
        var (localAddress, port) := ParseAddressPort(LocalEndpoint(parts[8]));
        var state := if |parts| > 9 then TrimMatches(parts[9], Parens) else "";
        Some(PortInfo(pid, parts[0], port, parts[7], state, localAddress))
  }

  /** One line of lsof, split on whitespace. */
  function ParseLsofLine(line: string): Option<PortInfo>
  {
    ParseLsofFields(SplitWhitespace(line))
  }

  lemma NoArrowAroundColon(address: string, digits: string)
    requires !HasArrow(address) && AllDigits(digits)
    ensures !HasArrow(address + ":" + digits)
  {
    var s := address + ":" + digits;
    forall j | 0 <= j < |s|
      ensures !ArrowAt(s, j)
    {
      if j + 1 < |address| {
        assert !ArrowAt(address, j);
      } else if j + 1 < |s| && j + 1 > |address| {
        assert s[j + 1] == digits[j - |address|];
      }
    }
  }

  /** A NAME column `address:port`, possibly followed by `->remote`, gives that address and port. */
  lemma NameFieldRoundTrip(address: string, port: u16, remote: string)
    requires !HasArrow(address)
    requires remote == [] || (|remote| >= 2 && remote[0] == '-' && remote[1] == '>')
    ensures ParseAddressPort(LocalEndpoint(address + ":" + NatToString(port) + remote)) == (address, port)
  {
    var local := address + ":" + NatToString(port);
    NoArrowAroundColon(address, NatToString(port));
    if remote == [] {
      assert local + remote == local;
    } else {
      assert remote == "->" + remote[2..];
      assert local + remote == local + "->" + remote[2..];
      LocalEndpointOfConnection(local, remote[2..]);
    }
    AddressPortRoundTrip(address, port);
  }

  /**
   * A line printed from its fields with any padding, as lsof aligns its
   * columns, whose PID is a u32 numeral and whose NAME is `address:port`,
   * possibly followed by `->remote`, reads back as the row with that pid,
   * name, protocol, address and port, and with the state in parentheses, if
   * there is one, stripped of them.
   */
  lemma LsofLineRoundTrip(fields: seq<string>, gaps: seq<string>, pid: u32, address: string, port: u16, remote: string, state: string)
    requires AllFields(fields) && |fields| >= 9 && Padding(gaps, |fields|)
    requires fields[1] == NatToString(pid)
    requires fields[8] == address + ":" + NatToString(port) + remote
    requires !HasArrow(address)
    requires remote == [] || (|remote| >= 2 && remote[0] == '-' && remote[1] == '>')
    requires |fields| > 9 ==> fields[9] == "(" + state + ")" && BareEnds(state, Parens)
    requires |fields| == 9 ==> state == ""
    ensures ParseLsofLine(Layout(fields, gaps)) == Some(PortInfo(pid, fields[0], port, fields[7], state, address))
  {
    SplitWhitespaceOfLayout(fields, gaps);
    ParseUnsignedOfNatToString(pid, U32_MAX);
    NameFieldRoundTrip(address, port, remote);
    if |fields| > 9 {
      TrimMatchesOfWrapped("(", state, ")", Parens);
    }
  }

  /** What each line gives, in order. */
  function LsofParsed(lines: seq<string>): (parsed: seq<Option<PortInfo>>)
    ensures |parsed| == |lines|
    ensures forall i :: 0 <= i < |lines| ==> parsed[i] == ParseLsofLine(lines[i])
  {
    seq(|lines|, i requires 0 <= i < |lines| => ParseLsofLine(lines[i]))
  }

  /** The rows that the lines give, in line order (lines giving none skipped). */
  function LsofRecords(lines: seq<string>): seq<PortInfo>
  {
    Present(LsofParsed(lines))
  }

  /** A row is among the rows of the lines exactly when some line gives it. */
  lemma LsofRecordsFromLines(lines: seq<string>)
    ensures forall y :: y in LsofRecords(lines) <==> exists i :: 0 <= i < |lines| && ParseLsofLine(lines[i]) == Some(y)
  {
    PresentMembers(LsofParsed(lines));
  }

  lemma LsofRecordsStep(lines: seq<string>, i: nat)
    requires i < |lines|
    ensures ParseLsofLine(lines[i]).None? ==> LsofRecords(lines[..i + 1]) == LsofRecords(lines[..i])
    ensures ParseLsofLine(lines[i]).Some? ==>
      LsofRecords(lines[..i + 1]) == LsofRecords(lines[..i]) + [ParseLsofLine(lines[i]).value]
  {
    assert LsofParsed(lines[..i + 1]) == LsofParsed(lines[..i]) + [ParseLsofLine(lines[i])];
    PresentStep(LsofParsed(lines[..i]), ParseLsofLine(lines[i]));
  }

  /**
   * `get_ports_macos`, with lsof's run given as `lsof`: an error message when
   * lsof could not be started or failed, otherwise the deduplicated rows of
   * the lines after the header, sorted by port.
   */
  method GetPortsMacos(lsof: CommandOutput) returns (r: Result<seq<PortInfo>, string>)
    ensures lsof.SpawnFailed? ==> r == Err("Failed to execute lsof: " + lsof.error)
    ensures lsof.Exited? && !lsof.success ==> r == Err("lsof command failed")
    ensures lsof.Exited? && lsof.success ==>
      r == Ok(Listing(LsofRecords(SkipHeader(Lines(lsof.stdout)))))
    ensures r.Ok? ==> SortedByPort(r.value) && NoZeroPort(r.value) && UniqueKeys(r.value)
  {
    if lsof.SpawnFailed? {
      return Err("Failed to execute lsof: " + lsof.error);
    }
    if !lsof.success {
      return Err("lsof command failed");
    }
    var lines := SkipHeader(Lines(lsof.stdout));
    var ports: seq<PortInfo> := [];
    var seen: set<string> := {};
    for i := 0 to |lines|
      invariant ports == KeepFirst(LsofRecords(lines[..i]))
      invariant seen == SeenKeys(LsofRecords(lines[..i]))
    {
      LsofRecordsStep(lines, i);
      match ParseLsofLine(lines[i]) {
        case None =>
        case Some(info) =>
          KeepFirstStep(LsofRecords(lines[..i]), info);
          var key := Key(info);
          if !(key in seen || info.port == 0) {
            seen := seen + {key};
            ports := ports + [info];
          }
      }
    }
    assert lines[..|lines|] == lines;
    ListingOrdered(LsofRecords(lines));
    ListingUnique(LsofRecords(lines));
    ports := SortByPort(ports);
    r := Ok(ports);
  }
}
