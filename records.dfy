/**
 * `PortInfo`, the seen-set key of the listing loops, and what the loops keep:
 * the first row for each (pid, port, protocol) key among the rows whose port
 * is not 0.
 */
module PortRecords {
  import opened Numerals
  import opened Text

  /** One process bound to one port. */
  datatype PortInfo = PortInfo(
    pid: u32,
    processName: string,
    port: u16,
    protocol: string,
    state: string,
    localAddress: string)

  /** The seen-set key `format!("{}:{}:{}", pid, port, protocol)`. */
  function Key(r: PortInfo): string
  {
    NatToString(r.pid) + ":" + NatToString(r.port) + ":" + r.protocol
  }

  /** Two rows describe the same binding: same pid, port and protocol. */
  predicate SameKey(a: PortInfo, b: PortInfo)
  {
    a.pid == b.pid && a.port == b.port && a.protocol == b.protocol
  }

  lemma NumeralHasNoColon(n: nat)
    ensures ':' !in NatToString(n)
  {
    var s := NatToString(n);
    assert forall i :: 0 <= i < |s| ==> IsDigit(s[i]);
  }

  lemma ColonSplit(p: string, q: string, u: string, v: string)
    requires ':' !in p && ':' !in q
    requires p + ":" + u == q + ":" + v
    ensures p == q && u == v
  {
    var s := p + ":" + u;
    var t := q + ":" + v;
    assert s[..|p|] == p && s[|p| + 1..] == u;
    assert t[..|q|] == q && t[|q| + 1..] == v;
    IndexOfFirst(s, ':', |p|);
    IndexOfFirst(t, ':', |q|);
  }

  /** The key string is injective on (pid, port, protocol): numerals hold no `:`. */
  lemma KeyInjective(a: PortInfo, b: PortInfo)
    ensures Key(a) == Key(b) <==> SameKey(a, b)
  {
    if Key(a) == Key(b) {
      var pa, pb := NatToString(a.pid), NatToString(b.pid);
      var qa, qb := NatToString(a.port), NatToString(b.port);
      NumeralHasNoColon(a.pid);
      NumeralHasNoColon(b.pid);
      NumeralHasNoColon(a.port);
      NumeralHasNoColon(b.port);
      assert Key(a) == pa + ":" + (qa + ":" + a.protocol);
      assert Key(b) == pb + ":" + (qb + ":" + b.protocol);
      ColonSplit(pa, pb, qa + ":" + a.protocol, qb + ":" + b.protocol);
      ColonSplit(qa, qb, a.protocol, b.protocol);
      NatToStringInjective(a.pid, b.pid);
      NatToStringInjective(a.port, b.port);
    }
  }

  /** `c[i]` survives: its port is not 0 and no earlier row has its key. */
  predicate IsFirstOccurrence(c: seq<PortInfo>, i: nat)
    requires i < |c|
  {
    c[i].port != 0 && forall j :: 0 <= j < i ==> !SameKey(c[j], c[i])
  }

  /**
   * The rows the listing loop pushes, in input order, stated without a
   * seen-set: each row whose port is not 0 and whose key no earlier row has.
   */
  function KeepFirst(c: seq<PortInfo>): seq<PortInfo>
  {
    if c == [] then []
    else KeepFirst(c[..|c| - 1]) + (if IsFirstOccurrence(c, |c| - 1) then [c[|c| - 1]] else [])
  }

  /** The seen-set after the rows `c`: the keys of those whose port is not 0. */
  function SeenKeys(c: seq<PortInfo>): set<string>
  {
    set i | 0 <= i < |c| && c[i].port != 0 :: Key(c[i])
  }

  predicate UniqueKeys(s: seq<PortInfo>)
  {
    forall i, j :: 0 <= i < j < |s| ==> !SameKey(s[i], s[j])
  }

  predicate NoZeroPort(s: seq<PortInfo>)
  {
    forall i :: 0 <= i < |s| ==> s[i].port != 0
  }

  /**
   * One turn of the loop: a row is skipped when its key is in the seen-set or
   * its port is 0; otherwise it is pushed and its key is added to the set.
   */
  lemma KeepFirstStep(c: seq<PortInfo>, x: PortInfo)
    ensures Key(x) in SeenKeys(c) || x.port == 0 ==>
      KeepFirst(c + [x]) == KeepFirst(c) && SeenKeys(c + [x]) == SeenKeys(c)
    ensures !(Key(x) in SeenKeys(c) || x.port == 0) ==>
      KeepFirst(c + [x]) == KeepFirst(c) + [x] && SeenKeys(c + [x]) == SeenKeys(c) + {Key(x)}
  {
    var d := c + [x];
    assert d[..|c|] == c;
    assert IsFirstOccurrence(d, |c|) <==> x.port != 0 && Key(x) !in SeenKeys(c) by {
      if x.port != 0 {
        if Key(x) in SeenKeys(c) {
          var j :| 0 <= j < |c| && c[j].port != 0 && Key(c[j]) == Key(x);
          KeyInjective(c[j], x);
          assert SameKey(d[j], d[|c|]);
        } else {
          forall j | 0 <= j < |c|
            ensures !SameKey(d[j], d[|c|])
          {
            KeyInjective(c[j], x);
          }
        }
      }
    }
    assert SeenKeys(d) == SeenKeys(c) + (if x.port != 0 then {Key(x)} else {}) by {
      forall k | k in SeenKeys(d)
        ensures k in SeenKeys(c) + (if x.port != 0 then {Key(x)} else {})
      {
        var i :| 0 <= i < |d| && d[i].port != 0 && Key(d[i]) == k;
        if i < |c| { assert c[i] == d[i]; }
      }
      forall k | k in SeenKeys(c)
        ensures k in SeenKeys(d)
      {
        var i :| 0 <= i < |c| && c[i].port != 0 && Key(c[i]) == k;
        assert d[i] == c[i];
      }
      if x.port != 0 {
        assert d[|c|] == x;
      }
    }
  }

  /** Every kept row is the first row of the input with its key, and its port is not 0. */
  lemma {:induction false} KeepFirstSound(c: seq<PortInfo>)
    ensures forall y :: y in KeepFirst(c) ==>
      exists i :: 0 <= i < |c| && IsFirstOccurrence(c, i) && y == c[i]
    decreases |c|
  {
    if c != [] {
      var n := |c| - 1;
      var init := c[..n];
      KeepFirstSound(init);
      var prev := KeepFirst(init);
      assert KeepFirst(c) == prev + (if IsFirstOccurrence(c, n) then [c[n]] else []);
      forall y | y in KeepFirst(c)
        ensures exists i :: 0 <= i < |c| && IsFirstOccurrence(c, i) && y == c[i]
      {
        if y in prev {
          var i :| 0 <= i < |init| && IsFirstOccurrence(init, i) && y == init[i];
          assert IsFirstOccurrence(c, i) && y == c[i];
        } else {
          assert IsFirstOccurrence(c, n) && y == c[n];
        }
      }
    }
  }

  /** The kept rows have non-zero ports and pairwise different keys. */
  lemma {:induction false} KeepFirstUnique(c: seq<PortInfo>)
    ensures NoZeroPort(KeepFirst(c))
    ensures UniqueKeys(KeepFirst(c))
    decreases |c|
  {
    if c != [] {
      var n := |c| - 1;
      var init := c[..n];
      KeepFirstUnique(init);
      KeepFirstSound(init);
      var prev := KeepFirst(init);
      if IsFirstOccurrence(c, n) {
        var out := prev + [c[n]];
        forall i, j | 0 <= i < j < |out|
          ensures !SameKey(out[i], out[j])
        {
          if j == |prev| {
            assert prev[i] in prev;
            var m :| 0 <= m < |init| && IsFirstOccurrence(init, m) && prev[i] == init[m];
            assert !SameKey(c[m], c[n]);
          } else {
            assert out[i] == prev[i] && out[j] == prev[j];
          }
        }
      }
    }
  }

  /** The first row with a non-zero port for each key is kept. */
  lemma {:induction false} KeepFirstComplete(c: seq<PortInfo>)
    ensures forall i :: 0 <= i < |c| && IsFirstOccurrence(c, i) ==> c[i] in KeepFirst(c)
    decreases |c|
  {
    if c != [] {
      var n := |c| - 1;
      var init := c[..n];
      KeepFirstComplete(init);
      forall i | 0 <= i < |c| && IsFirstOccurrence(c, i)
        ensures c[i] in KeepFirst(c)
      {
        if i < n {
          assert IsFirstOccurrence(init, i);
        }
      }
    }
  }

  /** Every row with a non-zero port has its key among the kept rows. */
  lemma KeepFirstCoversKeys(c: seq<PortInfo>)
    ensures forall i :: 0 <= i < |c| && c[i].port != 0 ==>
      exists y :: y in KeepFirst(c) && SameKey(y, c[i])
  {
    KeepFirstComplete(c);
    forall i | 0 <= i < |c| && c[i].port != 0
      ensures exists y :: y in KeepFirst(c) && SameKey(y, c[i])
    {
      var f := FirstWithKey(c, i);
      assert c[f] in KeepFirst(c);
    }
  }

  /** The index of the first row with the key of `c[i]`. */
  function FirstWithKey(c: seq<PortInfo>, i: nat): (f: nat)
    requires i < |c| && c[i].port != 0
    ensures f <= i && SameKey(c[f], c[i]) && IsFirstOccurrence(c, f)
    decreases i
  {
    if IsFirstOccurrence(c, i) then i
    else
      var j :| 0 <= j < i && SameKey(c[j], c[i]);
      FirstWithKey(c, j)
  }
}
