/**
 * What both listing functions do after parsing: deduplicate on the
 * (pid, port, protocol) key, drop port-0 rows, sort by port.  Also the
 * abstraction of a subprocess run, whose output is the input of the model.
 */
module PortListing {
  import opened Wrappers
  import opened PortRecords
  import opened PortSort

  /**
   * What `Command::new(..).output()` gave: the tool could not be started
   * (with the operating system's message), or it ran and exited with a
   * success or failure status after printing `stdout`.
   */
  datatype CommandOutput = SpawnFailed(error: string) | Exited(success: bool, stdout: string)

  /** The rows among the parsed lines, in line order: a line that gives no row is skipped. */
  function Present(parsed: seq<Option<PortInfo>>): seq<PortInfo>
  {
    if parsed == [] then []
    else
      Present(parsed[..|parsed| - 1])
      + match parsed[|parsed| - 1] case Some(info) => [info] case None => []
  }

  lemma PresentStep(parsed: seq<Option<PortInfo>>, x: Option<PortInfo>)
    ensures x.None? ==> Present(parsed + [x]) == Present(parsed)
    ensures x.Some? ==> Present(parsed + [x]) == Present(parsed) + [x.value]
  {
    assert (parsed + [x])[..|parsed|] == parsed;
  }

  /** A row is present exactly when some line gave it. */
  lemma {:induction false} PresentMembers(parsed: seq<Option<PortInfo>>)
    ensures forall y :: y in Present(parsed) <==> exists i :: 0 <= i < |parsed| && parsed[i] == Some(y)
    decreases |parsed|
  {
    if parsed != [] {
      var n := |parsed| - 1;
      var init := parsed[..n];
      PresentMembers(init);
      PresentStep(init, parsed[n]);
      assert init + [parsed[n]] == parsed;
      forall y
        ensures y in Present(parsed) <==> exists i :: 0 <= i < |parsed| && parsed[i] == Some(y)
      {
        if exists i :: 0 <= i < |parsed| && parsed[i] == Some(y) {
          var i :| 0 <= i < |parsed| && parsed[i] == Some(y);
          if i < n {
            assert init[i] == parsed[i];
          }
        }
      }
    }
  }

  /** The listing built from the rows the loop accepts, in line order. */
  function Listing(rows: seq<PortInfo>): seq<PortInfo>
  {
    SortByPort(KeepFirst(rows))
  }

  /** The listing is sorted by port, holds the kept rows, and keeps the input order among equal ports. */
  lemma ListingOrdered(rows: seq<PortInfo>)
    ensures SortedByPort(Listing(rows))
    ensures multiset(Listing(rows)) == multiset(KeepFirst(rows))
    ensures forall p :: WithPort(Listing(rows), p) == WithPort(KeepFirst(rows), p)
  {
    SortByPortCorrect(KeepFirst(rows));
  }

  /** The listing has no port 0 and no two rows with the same (pid, port, protocol). */
  lemma ListingUnique(rows: seq<PortInfo>)
    ensures NoZeroPort(Listing(rows)) && UniqueKeys(Listing(rows))
  {
    KeepFirstUnique(rows);
    SortByPortKeepsKeys(KeepFirst(rows));
  }

  /** Each listed row is the first input row with its key: first occurrence wins. */
  lemma ListingSound(rows: seq<PortInfo>)
    ensures forall y :: y in Listing(rows) ==>
      exists i :: 0 <= i < |rows| && IsFirstOccurrence(rows, i) && y == rows[i]
  {
    var kept := KeepFirst(rows);
    SortByPortCorrect(kept);
    KeepFirstSound(rows);
    forall y | y in Listing(rows)
      ensures y in kept
    {
      assert y in multiset(kept);
    }
  }

  /** Every (pid, port, protocol) of an input row with a non-zero port is listed. */
  lemma ListingComplete(rows: seq<PortInfo>)
    ensures forall i :: 0 <= i < |rows| && rows[i].port != 0 ==>
      exists y :: y in Listing(rows) && SameKey(y, rows[i])
  {
    var kept := KeepFirst(rows);
    SortByPortCorrect(kept);
    KeepFirstCoversKeys(rows);
    forall i | 0 <= i < |rows| && rows[i].port != 0
      ensures exists y :: y in Listing(rows) && SameKey(y, rows[i])
    {
      var y :| y in kept && SameKey(y, rows[i]);
      assert y in multiset(Listing(rows));
    }
  }

  /**
   * Two rows for pid 100 on 22/TCP and one for pid 200 on 80/TCP, in the
   * order 80, 22, 22: the listing has two rows, port 22 first, and the
   * port-22 row is the first of its two lines.
   */
  lemma DuplicateScenario(a: PortInfo, b: PortInfo, c: PortInfo)
    requires a.pid == 200 && a.port == 80 && a.protocol == "TCP"
    requires b.pid == 100 && b.port == 22 && b.protocol == "TCP"
    requires c.pid == 100 && c.port == 22 && c.protocol == "TCP"
    ensures Listing([a, b, c]) == [b, a]
  {
    var rows := [a, b, c];
    assert rows[..2] == [a, b] && [a, b][..1] == [a] && [a][..0] == [];
    assert KeepFirst([a]) == [a];
    assert IsFirstOccurrence([a, b], 1);
    assert KeepFirst([a, b]) == [a, b];
    assert !IsFirstOccurrence(rows, 2);
    assert KeepFirst(rows) == [a, b];
    assert SortByPort([a]) == [a];
  }

  /** A row with port 0 is dropped and does not hide a later row with the same pid and protocol. */
  lemma PortZeroScenario(a: PortInfo, b: PortInfo)
    requires a.port == 0 && b.port != 0 && a.pid == b.pid && a.protocol == b.protocol
    ensures Listing([a, b]) == [b]
  {
    var rows := [a, b];
    assert rows[..1] == [a] && [a][..0] == [];
    assert KeepFirst([a]) == [];
    assert !SameKey(a, b);
    assert IsFirstOccurrence(rows, 1);
    assert KeepFirst(rows) == [b];
    assert [b][..0] == [];
    assert SortByPort([b]) == [b];
  }
}
