/**
 * `ports.sort_by(|a, b| a.port.cmp(&b.port))`: a stable sort of the kept
 * rows by port, given here as an insertion sort on values.
 */
module PortSort {
  import opened PortRecords

  predicate SortedByPort(s: seq<PortInfo>)
  {
    forall i, j :: 0 <= i < j < |s| ==> s[i].port <= s[j].port
  }

  /** The rows of `s` whose port is `p`, in their order in `s`. */
  function WithPort(s: seq<PortInfo>, p: int): seq<PortInfo>
  {
    if s == [] then [] else (if s[0].port == p then [s[0]] else []) + WithPort(s[1..], p)
  }

  /** `x` placed after every row of the sorted `s` whose port is not greater than its own. */
  function Insert(x: PortInfo, s: seq<PortInfo>): seq<PortInfo>
  {
    if s == [] then [x]
    else if x.port < s[0].port then [x] + s
    else [s[0]] + Insert(x, s[1..])
  }

  /** The rows of `s` ordered by port; rows with equal ports keep their order. */
  function SortByPort(s: seq<PortInfo>): seq<PortInfo>
  {
    if s == [] then [] else Insert(s[|s| - 1], SortByPort(s[..|s| - 1]))
  }

  lemma {:induction false} InsertPermutes(x: PortInfo, s: seq<PortInfo>)
    ensures multiset(Insert(x, s)) == multiset(s) + multiset{x}
    decreases |s|
  {
    if s != [] && x.port >= s[0].port {
      InsertPermutes(x, s[1..]);
      assert s == [s[0]] + s[1..];
    }
  }

  lemma {:induction false} InsertSorted(x: PortInfo, s: seq<PortInfo>)
    requires SortedByPort(s)
    ensures SortedByPort(Insert(x, s))
    decreases |s|
  {
    if s != [] && x.port >= s[0].port {
      var t := Insert(x, s[1..]);
      InsertSorted(x, s[1..]);
      InsertPermutes(x, s[1..]);
      forall k | 0 <= k < |t|
        ensures s[0].port <= t[k].port
      {
        assert t[k] in multiset(t);
        if t[k] != x {
          assert t[k] in s[1..];
        }
      }
    }
  }

  lemma {:induction false} WithPortNone(s: seq<PortInfo>, p: int)
    requires forall k :: 0 <= k < |s| ==> s[k].port != p
    ensures WithPort(s, p) == []
    decreases |s|
  {
    if s != [] { WithPortNone(s[1..], p); }
  }

  lemma {:induction false} WithPortAppend(s: seq<PortInfo>, x: PortInfo, p: int)
    ensures WithPort(s + [x], p) == WithPort(s, p) + (if x.port == p then [x] else [])
    decreases |s|
  {
    if s == [] {
      assert [x][1..] == [];
    } else {
      assert (s + [x])[1..] == s[1..] + [x];
      WithPortAppend(s[1..], x, p);
    }
  }

  lemma {:induction false} WithPortInsert(x: PortInfo, s: seq<PortInfo>, p: int)
    requires SortedByPort(s)
    ensures WithPort(Insert(x, s), p) == WithPort(s, p) + (if x.port == p then [x] else [])
    decreases |s|
  {
    if s == [] {
      assert [x][1..] == [];
    } else if x.port < s[0].port {
      assert ([x] + s)[1..] == s;
      if x.port == p {
        WithPortNone(s, p);
      }
    } else {
      WithPortInsert(x, s[1..], p);
      assert ([s[0]] + Insert(x, s[1..]))[1..] == Insert(x, s[1..]);
    }
  }

  /**
   * Sorting by port orders the rows by port, keeps exactly the same rows,
   * and keeps the input order among rows with the same port (stability).
   */
  lemma {:induction false} SortByPortCorrect(s: seq<PortInfo>)
    ensures SortedByPort(SortByPort(s))
    ensures multiset(SortByPort(s)) == multiset(s)
    ensures forall p :: WithPort(SortByPort(s), p) == WithPort(s, p)
    decreases |s|
  {
    if s != [] {
      var init, x := s[..|s| - 1], s[|s| - 1];
      SortByPortCorrect(init);
      InsertSorted(x, SortByPort(init));
      InsertPermutes(x, SortByPort(init));
      assert s == init + [x];
      forall p
        ensures WithPort(SortByPort(s), p) == WithPort(s, p)
      {
        WithPortInsert(x, SortByPort(init), p);
        WithPortAppend(init, x, p);
      }
    }
  }

  lemma {:induction false} InsertUnique(x: PortInfo, s: seq<PortInfo>)
    requires UniqueKeys(s)
    requires forall k :: 0 <= k < |s| ==> !SameKey(s[k], x)
    ensures UniqueKeys(Insert(x, s))
    decreases |s|
  {
    if s != [] {
      if x.port < s[0].port {
        var t := [x] + s;
        forall i, j | 0 <= i < j < |t|
          ensures !SameKey(t[i], t[j])
        {
          if i > 0 { assert t[i] == s[i - 1] && t[j] == s[j - 1]; }
        }
      } else {
        var u := Insert(x, s[1..]);
        InsertUnique(x, s[1..]);
        InsertPermutes(x, s[1..]);
        var t := [s[0]] + u;
        forall i, j | 0 <= i < j < |t|
          ensures !SameKey(t[i], t[j])
        {
          if i == 0 {
            assert t[j] == u[j - 1];
            assert u[j - 1] in multiset(u);
            if u[j - 1] != x {
              assert u[j - 1] in s[1..];
              var m :| 0 <= m < |s[1..]| && s[1..][m] == u[j - 1];
              assert s[m + 1] == u[j - 1];
            }
          } else {
            assert t[i] == u[i - 1] && t[j] == u[j - 1];
          }
        }
      }
    }
  }

  /** Sorting keeps key uniqueness and the absence of port 0. */
  lemma {:induction false} SortByPortKeepsKeys(s: seq<PortInfo>)
    requires UniqueKeys(s) && NoZeroPort(s)
    ensures UniqueKeys(SortByPort(s)) && NoZeroPort(SortByPort(s))
    decreases |s|
  {
    if s != [] {
      var init, x := s[..|s| - 1], s[|s| - 1];
      SortByPortKeepsKeys(init);
      SortByPortCorrect(init);
      var sorted := SortByPort(init);
      forall k | 0 <= k < |sorted|
        ensures !SameKey(sorted[k], x)
      {
        assert sorted[k] in multiset(init);
        var m :| 0 <= m < |init| && init[m] == sorted[k];
        assert s[m] == sorted[k];
      }
      InsertUnique(x, sorted);
      SortByPortCorrect(s);
      forall k | 0 <= k < |SortByPort(s)|
        ensures SortByPort(s)[k].port != 0
      {
        assert SortByPort(s)[k] in multiset(s);
      }
    }
  }
}
