# Killswitch port listing, modelled in Dafny

Killswitch is a desktop app (Tauri, Rust back end). It lists the processes that hold network ports, so the user can kill one.
This project models the back end's port listing in `src-tauri/src/commands.rs`:

- `PortInfo`, the row the listing returns: pid, process name, port, protocol, state and local address.
- `get_ports_macos`:
  - It runs `lsof -i -P -n` and skips the header line.
  - It splits each line on whitespace. A line needs at least nine fields and a u32 PID in field 1.
  - It takes the command name (field 0) and the protocol (field 7).
  - It cuts the NAME column (field 8) at the first `->`. It splits what remains at the last `:` into address and port.
  - It takes the state from field 9 without its parentheses.
- `get_ports_windows`:
  - It runs `netstat -ano` and `tasklist /FO CSV /NH`.
  - It builds a pid-to-name table from tasklist's CSV lines, in which a later line for a pid wins.
  - It reads each TCP or UDP line of netstat. The protocol is matched in any case and stored upper-case.
  - The pid is field 4 for TCP and field 3 for UDP. A pid that does not parse becomes 0. A missing pid field skips the line.
  - The state is field 3 for TCP and empty for UDP.
  - It names each row from the table, or `Unknown` when the table has no entry for the pid.
- What both listings do after parsing:
  - They keep the first row per `pid:port:protocol` key. Rows with port 0 are dropped and never enter the seen-set.
  - They sort by port, stably.
  - An lsof or netstat run that cannot be started or exits with failure gives an error message. So does a tasklist run that cannot be started.
- `parse_address_port` and `parse_windows_address`: both split at the last `:`, with port 0 when the suffix is not a u16.

Modules:

| file | module | contents |
|---|---|---|
| `wrappers.dfy` | `Wrappers` | `Option`, `Result` |
| `numerals.dfy` | `Numerals` | `u16`/`u32`; `str::parse` for unsigned integers; decimal printing |
| `text.dfy` | `Text` | `split_whitespace`, `split(',')`, `trim_matches`, `rfind`, `find("->")`, ASCII `to_uppercase`, `lines` |
| `address.dfy` | `Address` | the two address splitters and the `->` cut |
| `records.dfy` | `PortRecords` | `PortInfo`, the seen-set key, first-occurrence deduplication |
| `sorting.dfy` | `PortSort` | the stable sort by port |
| `listing.dfy` | `PortListing` | subprocess results, line filtering, deduplicate-then-sort |
| `macos.dfy` | `Macos` | lsof parsing and `get_ports_macos` |
| `windows.dfy` | `Windows` | tasklist table, netstat parsing and `get_ports_windows` |

The parsing and deduplication are functions, since they only compute values.
`GetPortsMacos` and `GetPortsWindows` are methods. Each runs the source's loop over the lines, with the same seen-set of key strings and the same tasklist map.
The loop invariants tie each loop to the specification functions: `KeepFirst`, `SeenKeys` and `PidToName`.
Each method's postcondition gives the result as `Listing` of the parsed rows. The lemmas of `PortListing` then say what that listing holds.

## Model

| member | source | states |
|---|---|---|
| Numerals.ParseUnsigned | src-tauri/src/commands.rs:52-55 | `parse` on an unsigned type succeeds exactly on an optional `+` followed by one or more digits whose value is at most the type's maximum, and returns that value |
| Numerals.ParseU32 | src-tauri/src/commands.rs:52-55 | `parse::<u32>()` succeeds exactly on a literal of value at most 4294967295 and returns its value |
| Numerals.ParseU16 | src-tauri/src/commands.rs:100 | `parse::<u16>()` succeeds exactly on a literal of value at most 65535 and returns its value |
| Numerals.NatToString | src-tauri/src/commands.rs:75 | the `{}` rendering of a number is a non-empty digit string without leading zero whose decimal value is the number |
| Numerals.NatToStringInjective | src-tauri/src/commands.rs:75 | different numbers render differently |
| Numerals.ParseUnsignedOfNatToString | src-tauri/src/commands.rs:52-55 | a rendered number no larger than the maximum parses back to itself, with or without a leading `+` |
| Numerals.ParseUnsignedRejects | src-tauri/src/commands.rs:52-55 | a numeral above the maximum does not parse; the empty text, a lone `+` and every `-`-signed numeral never parse |
| Text.SplitWhitespace | src-tauri/src/commands.rs:46 | `split_whitespace` yields non-empty fields without whitespace, and no field exactly when the text is all whitespace |
| Text.SkipWhitespace | src-tauri/src/commands.rs:46 | whitespace in front of a text yields no field |
| Text.SplitWhitespaceOfLayout | src-tauri/src/commands.rs:46 | a row of fields with any whitespace before, between (at least one character) and after them splits into exactly those fields |
| Text.Split | src-tauri/src/commands.rs:130 | `split(',')` yields at least one part, no part holds a comma, and the parts joined by commas give the line back |
| Text.SplitOfJoin | src-tauri/src/commands.rs:130 | comma-free cells joined by commas split back into the same cells |
| Text.TrimMatches | src-tauri/src/commands.rs:69 | `trim_matches` is the text with the leading run and then the trailing run of the given characters removed (see TrimMatchesOfWrapped) |
| Text.TrimMatchesOfWrapped | src-tauri/src/commands.rs:69 | `trim_matches` strips a run of the given characters from both ends and leaves a core that neither begins nor ends with one |
| Text.RFind | src-tauri/src/commands.rs:97 | `rfind(':')` finds a `:` with none after it, and finds nothing exactly when there is no `:` |
| Text.FindArrow | src-tauri/src/commands.rs:61 | `find("->")` finds the first `->`, and nothing exactly when there is none |
| Text.ToUpper | src-tauri/src/commands.rs:150 | `to_uppercase`, on ASCII letters |
| Text.ToUpperMatchesWord | src-tauri/src/commands.rs:150-151 | a field upper-cases to `TCP` or `UDP` exactly when each of its characters is that word's letter in either case |
| Text.Lines | src-tauri/src/commands.rs:45 | no line holds a line feed |
| Text.LinesOfTerminated | src-tauri/src/commands.rs:45 | lines each ended by `\n`, or by `\r\n`, read back as the same lines |
| Address.PortOrZero | src-tauri/src/commands.rs:100 | `parse::<u16>().unwrap_or(0)`: the u16 the text spells, else 0 |
| Address.ParseAddressPort | src-tauri/src/commands.rs:95-105 | with a `:`, the address is the text before the last `:` and the port is the rest as a u16, 0 when it is not one; without a `:`, the whole token with port 0 |
| Address.ParseWindowsAddress | src-tauri/src/commands.rs:197-206 | the same split as on macOS |
| Address.AddressPortRoundTrip | src-tauri/src/commands.rs:96-105 | `address:port` splits back into that address and port, whatever colons the address holds |
| Address.AddressPortZero | src-tauri/src/commands.rs:100 | a port suffix that is not a u16 literal gives port 0 and keeps the address |
| Address.LocalEndpoint | src-tauri/src/commands.rs:61-66 | without `->` the NAME column is kept whole; with one it is cut just before the first `->`, and the result holds no `->` |
| Address.LocalEndpointOfConnection | src-tauri/src/commands.rs:61-66 | `local->remote` keeps `local` when `local` holds no `->` |
| Address.AddressPortIPv4Example | src-tauri/src/commands.rs:96-105 | `192.168.1.5:8080` gives (`192.168.1.5`, 8080) |
| Address.AddressPortIPv6Example | src-tauri/src/commands.rs:96-105 | `[::1]:443` gives (`[::1]`, 443) |
| Address.AddressPortZeroExamples | src-tauri/src/commands.rs:96-105 | `*:*` gives (`*`, 0) and `localhost` gives (`localhost`, 0) |
| Address.IPv4EndpointExample | src-tauri/src/commands.rs:61-66 | `10.0.0.1:5000` holds no `->` and gives (`10.0.0.1`, 5000) |
| Address.ConnectionExample | src-tauri/src/commands.rs:61-66 | `10.0.0.1:5000->10.0.0.2:80` gives (`10.0.0.1`, 5000) |
| PortRecords.PortInfo | src-tauri/src/commands.rs:4-12 | one listed row: a u32 pid, the process name, a u16 port, the protocol, the state and the local address, field for field as the struct |
| PortRecords.Key | src-tauri/src/commands.rs:75 | the seen-set key `pid:port:protocol` (see KeyInjective) |
| PortRecords.KeyInjective | src-tauri/src/commands.rs:75 | two rows have the same key string exactly when their pid, port and protocol agree |
| PortRecords.KeepFirst | src-tauri/src/commands.rs:74-79 | the rows the loop pushes, defined without a seen-set: each row with a non-zero port whose key no earlier row has |
| PortRecords.SeenKeys | src-tauri/src/commands.rs:74-79 | the seen-set after a prefix of rows: the keys of its rows with a non-zero port |
| PortRecords.KeepFirstStep | src-tauri/src/commands.rs:74-79 | one loop turn: a row whose key is in the seen-set, or whose port is 0, changes nothing; any other row is pushed and its key is added |
| PortRecords.KeepFirstSound | src-tauri/src/commands.rs:74-79 | every kept row is the first input row with its key, and its port is not 0 |
| PortRecords.KeepFirstUnique | src-tauri/src/commands.rs:74-79 | kept rows have non-zero ports and pairwise different keys |
| PortRecords.KeepFirstComplete | src-tauri/src/commands.rs:74-79 | the first row for each key is kept if its port is not 0 |
| PortRecords.KeepFirstCoversKeys | src-tauri/src/commands.rs:74-79 | every key of an input row with a non-zero port appears among the kept rows |
| PortRecords.FirstWithKey | src-tauri/src/commands.rs:74-79 | every row with a non-zero port has a first occurrence of its key at or before it |
| PortSort.SortByPort | src-tauri/src/commands.rs:91 | the sort by port, as repeated insertion after rows with an equal or smaller port (see SortByPortCorrect) |
| PortSort.InsertPermutes | src-tauri/src/commands.rs:91 | inserting adds exactly the inserted row |
| PortSort.InsertSorted | src-tauri/src/commands.rs:91 | inserting into a sorted sequence keeps it sorted |
| PortSort.WithPortInsert | src-tauri/src/commands.rs:91 | an inserted row goes after the rows already there with its port |
| PortSort.SortByPortCorrect | src-tauri/src/commands.rs:91 | `sort_by` on port gives a sorted permutation that keeps the input order among rows with the same port (stable) |
| PortSort.SortByPortKeepsKeys | src-tauri/src/commands.rs:91 | sorting keeps keys distinct and ports non-zero |
| PortListing.CommandOutput | src-tauri/src/commands.rs:32-35 | what running a tool gives: either the spawn error's message, or the exit status's success and the captured stdout (also at lines 110-113 and 120-123) |
| PortListing.Listing | src-tauri/src/commands.rs:74-92 | the result: the kept rows sorted by port (see the Listing lemmas) |
| PortListing.PresentMembers | src-tauri/src/commands.rs:45-55 | a row is among the parsed rows exactly when some line gave it (the `continue` lines give none) |
| PortListing.ListingOrdered | src-tauri/src/commands.rs:91-92 | the listing is sorted by port, is a permutation of the kept rows, and keeps their order among equal ports |
| PortListing.ListingUnique | src-tauri/src/commands.rs:74-92 | the listing has no port 0 and no two rows with the same pid, port and protocol |
| PortListing.ListingSound | src-tauri/src/commands.rs:74-92 | each listed row is the first input row with its key |
| PortListing.ListingComplete | src-tauri/src/commands.rs:74-92 | every pid, port and protocol of an input row with a non-zero port is listed |
| PortListing.DuplicateScenario | src-tauri/src/commands.rs:74-92 | rows 80/TCP pid 200, 22/TCP pid 100, 22/TCP pid 100 list as the first 22 row, then the 80 row |
| PortListing.PortZeroScenario | src-tauri/src/commands.rs:76-79 | a port-0 row is dropped without hiding a later row with the same pid and protocol |
| Macos.SkipHeader | src-tauri/src/commands.rs:45 | `skip(1)`: every line but the first |
| Macos.ParseLsofLine | src-tauri/src/commands.rs:46 | the line's whitespace-separated fields read as ParseLsofFields says |
| Macos.LsofRecords | src-tauri/src/commands.rs:45-55 | the rows the lines give, in line order |
| Macos.ParseLsofFields | src-tauri/src/commands.rs:46-72 | a row exists exactly when there are at least nine fields and field 1 is a u32; its name, pid and protocol are fields 0, 1 and 7, its address and port come from field 8 cut at the first `->`, and its state is field 9 with `(` and `)` trimmed from both ends, or empty without a field 9 |
| Macos.NameFieldRoundTrip | src-tauri/src/commands.rs:58-66 | a NAME column `address:port`, optionally followed by `->remote`, gives that address and port |
| Macos.LsofLineRoundTrip | src-tauri/src/commands.rs:46-72 | an lsof line printed from its fields with any column padding reads back as the row with that pid, name, protocol, address, port, and the state without parentheses or empty |
| Macos.LsofRecordsFromLines | src-tauri/src/commands.rs:45-55 | a row is among the lsof rows exactly when some line gives it |
| Macos.GetPortsMacos | src-tauri/src/commands.rs:31-93 | errors `Failed to execute lsof: …` and `lsof command failed`; otherwise the listing of the rows of the lines after the header, which is sorted, free of port 0 and free of duplicate keys |
| Windows.ParseTasklistCells | src-tauri/src/commands.rs:130-134 | an entry exactly when there are at least two cells and the second without quotes is a u32; it is that pid and the first cell without quotes |
| Windows.ParseTasklistLine | src-tauri/src/commands.rs:130 | the line's comma-separated cells read as ParseTasklistCells says |
| Windows.Table | src-tauri/src/commands.rs:125-138 | the map after inserting every entry in order (see TableAbsent, TableLast) |
| Windows.PidToName | src-tauri/src/commands.rs:125-138 | the map built from the tasklist lines (see PidToNameAbsent, PidToNameLast) |
| Windows.NameTable | src-tauri/src/commands.rs:125-138 | the tasklist map when tasklist succeeded, else the empty map |
| Windows.TableAbsent | src-tauri/src/commands.rs:125-138 | a pid that no tasklist entry names is not in the table |
| Windows.TableLast | src-tauri/src/commands.rs:125-138 | a pid's name in the table is the one its last entry gives |
| Windows.PidToNameAbsent | src-tauri/src/commands.rs:125-138 | a pid that no tasklist line names is not in the table |
| Windows.PidToNameLast | src-tauri/src/commands.rs:125-138 | a later tasklist line for a pid overwrites an earlier one |
| Windows.TasklistCellsRoundTrip | src-tauri/src/commands.rs:131-134 | cells whose first two are a quoted name and a quoted pid numeral give that pid and the name without quotes |
| Windows.TasklistLineRoundTrip | src-tauri/src/commands.rs:130-134 | a CSV line that starts with a comma-free quoted name and a quoted pid numeral gives that pid and name, whatever cells follow, commas inside them included (as in tasklist's `"2,360 K"` memory cell) |
| Windows.PidOrZero | src-tauri/src/commands.rs:162-164 | `parse::<u32>().unwrap_or(0)`: the u32 the field spells, else 0 |
| Windows.ProcessName | src-tauri/src/commands.rs:177-180 | the name the map gives the pid, else `Unknown` |
| Windows.ParseNetstatFields | src-tauri/src/commands.rs:145-180 | a row exists exactly for at least four fields with protocol UDP, or TCP with a fifth field; the protocol is stored upper-case; the pid is field 4 (TCP) or 3 (UDP), or 0 when it does not parse; the state is field 3 for TCP and empty for UDP; the name comes from the table, else `Unknown` |
| Windows.ParseNetstatLine | src-tauri/src/commands.rs:145 | the line's whitespace-separated fields read as ParseNetstatFields says |
| Windows.NetstatRecords | src-tauri/src/commands.rs:144-167 | the rows the lines give, in line order |
| Windows.NetstatTcpLine | src-tauri/src/commands.rs:145-167 | a TCP line printed from its five fields with any padding reads back as its row |
| Windows.NetstatUdpLine | src-tauri/src/commands.rs:145-167 | a UDP line printed from its four fields with any padding reads back as its row with an empty state |
| Windows.NetstatRecordsFromLines | src-tauri/src/commands.rs:144-167 | a row is among the netstat rows exactly when some line gives it |
| Windows.GetPortsWindows | src-tauri/src/commands.rs:108-193 | errors for netstat spawn failure, netstat failure and tasklist spawn failure; otherwise the listing of the netstat rows named from the tasklist table (empty when tasklist failed), which is sorted, free of port 0 and free of duplicate keys |

## Left out

- `kill_process` is not part of this model. It only runs `kill -9` or `taskkill` and reports the exit status.
- `get_ports` dispatches on the target operating system, and every other platform gets `Unsupported platform`. Both are compile-time configuration and are not modelled. The two listings are modelled side by side.
- Running the subprocesses is not modelled. Each run is a `CommandOutput` parameter: it could not be started (with its error text), or it exited with success or failure after printing some text.
- `String::from_utf8_lossy` is not modelled: output is taken as already decoded text.
- Text.SplitWhitespace: treats only the ASCII whitespace characters as separators. Rust's `split_whitespace` also splits at Unicode white space.
- Text.ToUpper: changes only ASCII letters, where Rust's `to_uppercase` maps all of Unicode. The result is only compared with `TCP` and `UDP` (src-tauri/src/commands.rs:151), and no non-ASCII character upper-cases to T, C, P, U or D (the only non-ASCII characters upper-casing to ASCII alone are ß (to `SS`), ı, ſ and the Latin ligatures ﬀ–ﬆ, and a character such as ẗ whose upper case starts with T keeps a combining mark), so the listing's rows are the same; only the upper-cased text of a field that is neither protocol differs, and it is never kept.
- The seen-set and the pid table are a Dafny `set` and `map`, not a hash set and hash map. Hashing and capacity are not modelled.
- PortSort.SortByPortCorrect: `sort_by` is modelled by what it produces, a stable sort by port. The sort is written as an insertion sort over a sequence, not as the algorithm of Rust's library stable sort.
- Windows.ParseNetstatFields: in the source the name lookup happens after the seen-set check. The model looks the name up while parsing the line. The table is fixed by then and the key does not involve the name, so the rows are the same.
- A tasklist run that cannot be started aborts `get_ports_windows` with an error, because of the `?` on the `output()` call (lines 120-123). Only a tasklist run that exits with failure leaves the name table empty. The model follows the code here.
