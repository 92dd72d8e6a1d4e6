/**
 * `get_ports_windows`: run `netstat -ano` and `tasklist /FO CSV /NH`, build
 * a pid-to-name table from tasklist, read each netstat line into a
 * `PortInfo`, keep the first row per (pid, port, protocol) with a non-zero
 * port, sort by port.
 */
module Windows {
  import opened Wrappers
  import opened Numerals
  import opened Text
  import opened Address
  import opened PortRecords
  import opened PortSort
  import opened PortListing

  /** The character `trim_matches` strips from tasklist's CSV cells. */
  const Quote: set<char> := {'"'}

  /**
   * The cells of one CSV line of tasklist, `"Image Name","PID",...`: at
   * least two cells, the second of which, without its quotes, is a u32, give
   * the pid and the first cell without its quotes; any other line gives
   * nothing.
   */
  function ParseTasklistCells(parts: seq<string>): (r: Option<(u32, string)>)
    ensures r.Some? <==> |parts| >= 2 && ParseU32(TrimMatches(parts[1], Quote)).Some?
    ensures r.Some? ==>
      r.value == (ParseU32(TrimMatches(parts[1], Quote)).value, TrimMatches(parts[0], Quote))
  {
    if |parts| < 2 then None
    else
      match ParseU32(TrimMatches(parts[1], Quote))
      case None => None
      case Some(pid) => Some((pid, TrimMatches(parts[0], Quote)))
  }

  /** One line of tasklist, split on commas. */
  function ParseTasklistLine(line: string): Option<(u32, string)>
  {
    ParseTasklistCells(Split(line, ','))
  }

  /** The entry names the process `pid`. */
  predicate Names(entry: Option<(u32, string)>, pid: u32)
  {
    entry.Some? && entry.value.0 == pid
  }

  /** The table after inserting every entry in order: a later entry for a pid replaces an earlier one. */
  function Table(entries: seq<Option<(u32, string)>>): map<u32, string>
  {
    if entries == [] then map[]
    else
      var m := Table(entries[..|entries| - 1]);
      match entries[|entries| - 1]
      case None => m
      case Some(entry) => m[entry.0 := entry.1]
  }

  /** A pid that no entry names is not in the table. */
  lemma {:induction false} TableAbsent(entries: seq<Option<(u32, string)>>, pid: u32)
    requires forall i :: 0 <= i < |entries| ==> !Names(entries[i], pid)
    ensures pid !in Table(entries)
    decreases |entries|
  {
    if entries != [] {
      var n := |entries| - 1;
      assert forall i :: 0 <= i < n ==> entries[..n][i] == entries[i];
      TableAbsent(entries[..n], pid);
    }
  }

  /** A pid that entry `i` names, and no later entry, has the name entry `i` gives. */
  lemma {:induction false} TableLast(entries: seq<Option<(u32, string)>>, pid: u32, i: nat)
    requires i < |entries| && Names(entries[i], pid)
    requires forall j :: i < j < |entries| ==> !Names(entries[j], pid)
    ensures pid in Table(entries) && Table(entries)[pid] == entries[i].value.1
    decreases |entries|
  {
    var n := |entries| - 1;
    if i < n {
      var init := entries[..n];
      assert forall j :: i <= j < n ==> init[j] == entries[j];
      TableLast(init, pid, i);
    }
  }

  /** The entries of the lines, in order. */
  function Entries(lines: seq<string>): (entries: seq<Option<(u32, string)>>)
    ensures |entries| == |lines|
    ensures forall i :: 0 <= i < |lines| ==> entries[i] == ParseTasklistLine(lines[i])
  {
    seq(|lines|, i requires 0 <= i < |lines| => ParseTasklistLine(lines[i]))
  }

  /** The pid-to-name table of the tasklist lines. */
  function PidToName(lines: seq<string>): map<u32, string>
  {
    Table(Entries(lines))
  }

  /** A pid that no line names is not in the table. */
  lemma PidToNameAbsent(lines: seq<string>, pid: u32)
    requires forall i :: 0 <= i < |lines| ==> !Names(ParseTasklistLine(lines[i]), pid)
    ensures pid !in PidToName(lines)
  {
    TableAbsent(Entries(lines), pid);
  }

  /** A pid that line `i` names, and no later line, has the name line `i` gives. */
  lemma PidToNameLast(lines: seq<string>, pid: u32, i: nat)
    requires i < |lines| && Names(ParseTasklistLine(lines[i]), pid)
    requires forall j :: i < j < |lines| ==> !Names(ParseTasklistLine(lines[j]), pid)
    ensures pid in PidToName(lines) && PidToName(lines)[pid] == ParseTasklistLine(lines[i]).value.1
  {
    TableLast(Entries(lines), pid, i);
  }

  /** A quoted pid numeral, stripped of its quotes, parses back to the pid. */
  lemma QuotedPid(pid: u32)
    ensures ParseU32(TrimMatches("\"" + NatToString(pid) + "\"", Quote)) == Some(pid)
  {
    var numeral := NatToString(pid);
    assert BareEnds(numeral, Quote) by {
      assert IsDigit(numeral[0]) && IsDigit(numeral[|numeral| - 1]);
    }
    TrimMatchesOfWrapped("\"", numeral, "\"", Quote);
    ParseUnsignedOfNatToString(pid, U32_MAX);
  }

  /**
   * Cells of which the first is a quoted name and the second the quoted
   * numeral of a pid give that pid and name.
   */
  lemma TasklistCellsRoundTrip(cells: seq<string>, name: string, pid: u32)
    requires |cells| >= 2
    requires cells[0] == "\"" + name + "\"" && BareEnds(name, Quote)
    requires cells[1] == "\"" + NatToString(pid) + "\""
    ensures ParseTasklistCells(cells) == Some((pid, name))
  {
    TrimMatchesOfWrapped("\"", name, "\"", Quote);
    QuotedPid(pid);
  }

  /**
   * A CSV line that starts with a quoted name and the quoted numeral of a
   * pid, neither holding a comma, gives that pid and name, whatever cells
   * follow (tasklist's memory cell, say, which holds a thousands separator).
   */
  lemma TasklistLineRoundTrip(name: string, pid: u32, tail: string)
    requires ',' !in name && BareEnds(name, Quote)
    requires tail == [] || tail[0] == ','
    ensures ParseTasklistLine("\"" + name + "\"" + "," + "\"" + NatToString(pid) + "\"" + tail)
      == Some((pid, name))
  {
    var c0, c1 := "\"" + name + "\"", "\"" + NatToString(pid) + "\"";
    assert ',' !in NatToString(pid) by {
      assert forall i :: 0 <= i < |NatToString(pid)| ==> IsDigit(NatToString(pid)[i]);
    }
    assert "\"" + name + "\"" + "," + "\"" + NatToString(pid) + "\"" + tail == c0 + [','] + c1 + tail;
    SplitFirstTwo(c0, c1, tail, ',');
    TasklistCellsRoundTrip(Split(c0 + [','] + c1 + tail, ','), name, pid);
  }

  /** The table `get_ports_windows` uses: tasklist's, or empty when tasklist did not succeed. */
  function NameTable(success: bool, stdout: string): map<u32, string>
  {
    if success then PidToName(Lines(stdout)) else map[]
  }

  /** `parse().unwrap_or(0)` on a pid field: the u32 it spells, or 0. */
  function PidOrZero(s: string): u32
  {
    match ParseU32(s)
    case Some(p) => p
    case None => 0
  }

  /** The name the table gives `pid`, `Unknown` when it has none. */
  function ProcessName(names: map<u32, string>, pid: u32): string
  {
    if pid in names then names[pid] else "Unknown"
  }

  /**
   * The fields of one line of `netstat -ano`: Proto Local Foreign [State] PID.
   * Fewer than four fields, a protocol other than TCP or UDP (in any case),
   * or a TCP line without a fifth field give no row; otherwise the pid is
   * field 4 for TCP and field 3 for UDP (0 when that is not a u32), the
   * state field 3 for TCP and empty for UDP, and the endpoint field 1.
   */
  function ParseNetstatFields(parts: seq<string>, names: map<u32, string>): (r: Option<PortInfo>)
    ensures r.Some? <==>
      |parts| >= 4 && (ToUpper(parts[0]) == "UDP" || (ToUpper(parts[0]) == "TCP" && |parts| >= 5))
    ensures r.Some? ==>
      && r.value.protocol == ToUpper(parts[0])
      && (r.value.localAddress, r.value.port) == ParseWindowsAddress(parts[1])
      && r.value.processName == ProcessName(names, r.value.pid)
    ensures r.Some? && r.value.protocol == "TCP" ==> r.value.pid == PidOrZero(parts[4]) && r.value.state == parts[3]
    ensures r.Some? && r.value.protocol == "UDP" ==> r.value.pid == PidOrZero(parts[3]) && r.value.state == ""
  {
    if |parts| < 4 then None
    else
      var protocol := ToUpper(parts[0]);
      if protocol != "TCP" && protocol != "UDP" then None
      else
        var state := if protocol == "TCP" && |parts| > 3 then parts[3] else "";
        var pidIndex := if protocol == "TCP" then 4 else 3;
        if |parts| > pidIndex then
          var pid := PidOrZero(parts[pidIndex]);
          var (localAddress, port) := ParseWindowsAddress(parts[1]);
          Some(PortInfo(pid, ProcessName(names, pid), port, protocol, state, localAddress))
        else None
  }

  /** One line of netstat, split on whitespace. */
  function ParseNetstatLine(line: string, names: map<u32, string>): Option<PortInfo>
  {
    ParseNetstatFields(SplitWhitespace(line), names)
  }

  /**
   * A TCP line `proto address:port remote state pid` printed from its fields
   * with any padding, as netstat indents and aligns its rows, reads back as the row with that pid, its name from the table, the port,
   * the upper-case protocol, the state and the address.
   */
  lemma NetstatTcpLine(gaps: seq<string>, proto: string, address: string, port: u16, remote: string, state: string, pid: u32, names: map<u32, string>)
    requires ToUpper(proto) == "TCP"
    requires AllFields([proto, address + ":" + NatToString(port), remote, state, NatToString(pid)])
    requires Padding(gaps, 5)
    ensures ParseNetstatLine(Layout([proto, address + ":" + NatToString(port), remote, state, NatToString(pid)], gaps), names)
      == Some(PortInfo(pid, ProcessName(names, pid), port, "TCP", state, address))
  {
    SplitWhitespaceOfLayout([proto, address + ":" + NatToString(port), remote, state, NatToString(pid)], gaps);
    ParseUnsignedOfNatToString(pid, U32_MAX);
    AddressPortRoundTrip(address, port);
  }

  /**
   * A UDP line `proto address:port remote pid` printed from its fields with
   * any padding reads back as the row with that pid, its name from the table, the port, the
   * upper-case protocol, no state and the address.
   */
  lemma NetstatUdpLine(gaps: seq<string>, proto: string, address: string, port: u16, remote: string, pid: u32, names: map<u32, string>)
    requires ToUpper(proto) == "UDP"
    requires AllFields([proto, address + ":" + NatToString(port), remote, NatToString(pid)])
    requires Padding(gaps, 4)
    ensures ParseNetstatLine(Layout([proto, address + ":" + NatToString(port), remote, NatToString(pid)], gaps), names)
      == Some(PortInfo(pid, ProcessName(names, pid), port, "UDP", "", address))
  {
    SplitWhitespaceOfLayout([proto, address + ":" + NatToString(port), remote, NatToString(pid)], gaps);
    ParseUnsignedOfNatToString(pid, U32_MAX);
    AddressPortRoundTrip(address, port);
  }

  /** What each line gives, in order. */
  function NetstatParsed(lines: seq<string>, names: map<u32, string>): (parsed: seq<Option<PortInfo>>)
    ensures |parsed| == |lines|
    ensures forall i :: 0 <= i < |lines| ==> parsed[i] == ParseNetstatLine(lines[i], names)
  {
    seq(|lines|, i requires 0 <= i < |lines| => ParseNetstatLine(lines[i], names))
  }

  /** The rows that the lines give, in line order (lines giving none skipped). */
  function NetstatRecords(lines: seq<string>, names: map<u32, string>): seq<PortInfo>
  {
    Present(NetstatParsed(lines, names))
  }

  /** A row is among the rows of the lines exactly when some line gives it. */
  lemma NetstatRecordsFromLines(lines: seq<string>, names: map<u32, string>)
    ensures forall y :: y in NetstatRecords(lines, names) <==> exists i :: 0 <= i < |lines| && ParseNetstatLine(lines[i], names) == Some(y)
  {
    PresentMembers(NetstatParsed(lines, names));
  }

  lemma NetstatRecordsStep(lines: seq<string>, i: nat, names: map<u32, string>)
    requires i < |lines|
    ensures ParseNetstatLine(lines[i], names).None? ==> NetstatRecords(lines[..i + 1], names) == NetstatRecords(lines[..i], names)
    ensures ParseNetstatLine(lines[i], names).Some? ==>
      NetstatRecords(lines[..i + 1], names) == NetstatRecords(lines[..i], names) + [ParseNetstatLine(lines[i], names).value]
  {
    assert NetstatParsed(lines[..i + 1], names) == NetstatParsed(lines[..i], names) + [ParseNetstatLine(lines[i], names)];
    PresentStep(NetstatParsed(lines[..i], names), ParseNetstatLine(lines[i], names));
  }

  lemma PidToNameStep(lines: seq<string>, i: nat)
    requires i < |lines|
    ensures ParseTasklistLine(lines[i]).None? ==> PidToName(lines[..i + 1]) == PidToName(lines[..i])
    ensures ParseTasklistLine(lines[i]).Some? ==>
      var entry := ParseTasklistLine(lines[i]).value;
      PidToName(lines[..i + 1]) == PidToName(lines[..i])[entry.0 := entry.1]
  {
    var e, x := Entries(lines[..i]), ParseTasklistLine(lines[i]);
    assert Entries(lines[..i + 1]) == e + [x];
    assert (e + [x])[..i] == e;
  }

  /**
   * `get_ports_windows`, with the runs of netstat and tasklist given as
   * `netstat` and `tasklist`: an error message when netstat could not be
   * started or failed or tasklist could not be started; otherwise the
   * deduplicated rows of netstat's lines, named from tasklist's table (empty
   * when tasklist failed), sorted by port.
   */
  method GetPortsWindows(netstat: CommandOutput, tasklist: CommandOutput) returns (r: Result<seq<PortInfo>, string>)
    ensures netstat.SpawnFailed? ==> r == Err("Failed to execute netstat: " + netstat.error)
    ensures netstat.Exited? && !netstat.success ==> r == Err("netstat command failed")
    ensures netstat.Exited? && netstat.success && tasklist.SpawnFailed? ==>
      r == Err("Failed to execute tasklist: " + tasklist.error)
    ensures netstat.Exited? && netstat.success && tasklist.Exited? ==>
      r == Ok(Listing(NetstatRecords(Lines(netstat.stdout), NameTable(tasklist.success, tasklist.stdout))))
    ensures r.Ok? ==> SortedByPort(r.value) && NoZeroPort(r.value) && UniqueKeys(r.value)
  {
    if netstat.SpawnFailed? {
      return Err("Failed to execute netstat: " + netstat.error);
    }
    if !netstat.success {
      return Err("netstat command failed");
    }
    if tasklist.SpawnFailed? {
      return Err("Failed to execute tasklist: " + tasklist.error);
    }

    var names: map<u32, string> := map[];
    if tasklist.success {
      var taskLines := Lines(tasklist.stdout);
      for i := 0 to |taskLines|
        invariant names == PidToName(taskLines[..i])
      {
        PidToNameStep(taskLines, i);
        var parts := Split(taskLines[i], ',');
        if |parts| >= 2 {
          var name := TrimMatches(parts[0], Quote);
          match ParseU32(TrimMatches(parts[1], Quote)) {
            case None =>
            case Some(pid) =>
              names := names[pid := name];
          }
        }
      }
      assert taskLines[..|taskLines|] == taskLines;
    }
    assert names == NameTable(tasklist.success, tasklist.stdout);

    var lines := Lines(netstat.stdout);
    var ports: seq<PortInfo> := [];
    var seen: set<string> := {};
    for i := 0 to |lines|
      invariant ports == KeepFirst(NetstatRecords(lines[..i], names))
      invariant seen == SeenKeys(NetstatRecords(lines[..i], names))
    {
      NetstatRecordsStep(lines, i, names);
      match ParseNetstatLine(lines[i], names) {
        case None =>
        case Some(info) =>
          KeepFirstStep(NetstatRecords(lines[..i], names), info);
          var key := Key(info);
          if !(key in seen || info.port == 0) {
            seen := seen + {key};
            ports := ports + [info];
          }
      }
    }
    assert lines[..|lines|] == lines;
    ListingOrdered(NetstatRecords(lines, names));
    ListingUnique(NetstatRecords(lines, names));
    ports := SortByPort(ports);
    r := Ok(ports);
  }
}
