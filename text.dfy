/**
 * The Rust `str` operations the port listing uses, on strings as sequences
 * of characters: `lines`, `split_whitespace`, `split(',')`, `trim_matches`,
 * `rfind(':')`, `find("->")` and `to_uppercase`.
 */
module Text {
  import opened Wrappers

  /** The ASCII characters Rust's `char::is_whitespace` accepts: space, tab, line feed, vertical tab, form feed, carriage return. */
  predicate IsWhitespace(c: char)
  {
    c == ' ' || c == '\t' || c == '\n' || c == '\r' || c as int == 11 || c as int == 12
  }

  /** A token that `split_whitespace` can yield: non-empty and free of whitespace. */
  predicate IsField(w: string)
  {
    |w| > 0 && forall i :: 0 <= i < |w| ==> !IsWhitespace(w[i])
  }

  predicate AllFields(fields: seq<string>)
  {
    forall i :: 0 <= i < |fields| ==> IsField(fields[i])
  }

  predicate AllWhitespace(s: string)
  {
    forall i :: 0 <= i < |s| ==> IsWhitespace(s[i])
  }

  /** The length of the longest whitespace-free prefix of `s`. */
  function WordLength(s: string): (n: nat)
    ensures n <= |s|
    ensures forall i :: 0 <= i < n ==> !IsWhitespace(s[i])
    ensures n < |s| ==> IsWhitespace(s[n])
  {
    if s == [] || IsWhitespace(s[0]) then 0 else 1 + WordLength(s[1..])
  }

  /** Rust's `split_whitespace`: the maximal whitespace-free runs of `s`, in order. */
  function SplitWhitespace(s: string): (fields: seq<string>)
    ensures AllFields(fields)
    ensures fields == [] <==> AllWhitespace(s)
    decreases |s|
  {
    if s == [] then []
    else if IsWhitespace(s[0]) then
      assert AllWhitespace(s) <==> AllWhitespace(s[1..]) by {
        assert forall i :: 0 < i < |s| ==> s[i] == s[1..][i - 1];
      }
      SplitWhitespace(s[1..])
    else
      var n := WordLength(s);
      [s[..n]] + SplitWhitespace(s[n..])
  }

  /** The parts, with `sep` between neighbours (Rust's `join`). */
  function Join(parts: seq<string>, sep: char): string
  {
    if |parts| == 0 then ""
    else if |parts| == 1 then parts[0]
    else parts[0] + [sep] + Join(parts[1..], sep)
  }

  lemma {:induction false} WordLengthOfField(w: string, t: string)
    requires IsField(w)
    requires t == [] || IsWhitespace(t[0])
    ensures WordLength(w + t) == |w|
    decreases |w|
  {
    var s := w + t;
    if |w| == 1 {
      assert s[1..] == t;
    } else {
      assert s[1..] == w[1..] + t;
      WordLengthOfField(w[1..], t);
    }
  }

  /** Whitespace in front of a text yields no field. */
  lemma {:induction false} SkipWhitespace(ws: string, t: string)
    requires AllWhitespace(ws)
    ensures SplitWhitespace(ws + t) == SplitWhitespace(t)
    decreases |ws|
  {
    if ws != [] {
      var s := ws + t;
      assert s[0] == ws[0];
      assert s[1..] == ws[1..] + t;
      SkipWhitespace(ws[1..], t);
    } else {
      assert ws + t == t;
    }
  }

  /** A field followed by whitespace, or by nothing, is the first field. */
  lemma SplitWhitespaceOfField(w: string, t: string)
    requires IsField(w)
    requires t == [] || IsWhitespace(t[0])
    ensures SplitWhitespace(w + t) == [w] + SplitWhitespace(t)
  {
    WordLengthOfField(w, t);
    var s := w + t;
    assert s[..|w|] == w;
    assert s[|w|..] == t;
  }

  /**
   * The fields laid out as a tool prints a padded row:
   * `gaps[0] fields[0] gaps[1] ... fields[n-1] gaps[n]`.
   */
  function Layout(fields: seq<string>, gaps: seq<string>): string
    requires |gaps| == |fields| + 1
  {
    if fields == [] then gaps[0] else gaps[0] + fields[0] + Layout(fields[1..], gaps[1..])
  }

  /** Padding for `n` fields: whitespace only, at least one character between neighbouring fields. */
  predicate Padding(gaps: seq<string>, n: nat)
  {
    && |gaps| == n + 1
    && (forall i :: 0 <= i < |gaps| ==> AllWhitespace(gaps[i]))
    && (forall i :: 0 < i < n ==> |gaps[i]| > 0)
  }

  lemma LayoutAfterField(fields: seq<string>, gaps: seq<string>)
    requires |fields| >= 1 && Padding(gaps, |fields|)
    ensures var rest := Layout(fields[1..], gaps[1..]); rest == [] || IsWhitespace(rest[0])
  {
    if |fields| == 1 {
      assert Layout(fields[1..], gaps[1..]) == gaps[1];
    } else {
      assert |gaps[1]| > 0;
      assert Layout(fields[1..], gaps[1..])[0] == gaps[1][0];
    }
  }

  /**
   * A row padded with any runs of whitespace, before the first field, between
   * fields and after the last, splits into exactly its fields.
   */
  lemma {:induction false} SplitWhitespaceOfLayout(fields: seq<string>, gaps: seq<string>)
    requires AllFields(fields) && Padding(gaps, |fields|)
    ensures SplitWhitespace(Layout(fields, gaps)) == fields
    decreases |fields|
  {
    if fields == [] {
      SkipWhitespace(gaps[0], []);
      assert gaps[0] + [] == gaps[0];
    } else {
      var w := fields[0];
      var rest := Layout(fields[1..], gaps[1..]);
      assert Layout(fields, gaps) == gaps[0] + (w + rest);
      SkipWhitespace(gaps[0], w + rest);
      LayoutAfterField(fields, gaps);
      SplitWhitespaceOfField(w, rest);
      assert AllFields(fields[1..]);
      assert Padding(gaps[1..], |fields| - 1);
      SplitWhitespaceOfLayout(fields[1..], gaps[1..]);
      assert fields == [w] + fields[1..];
    }
  }

  /** Rust's `str::split` on one character: the pieces between separators, at least one, possibly empty. */
  function Split(s: string, sep: char): (parts: seq<string>)
    ensures |parts| >= 1
    ensures forall i :: 0 <= i < |parts| ==> sep !in parts[i]
    ensures Join(parts, sep) == s
    decreases |s|
  {
    if s == [] then [""]
    else
      var rest := Split(s[1..], sep);
      if s[0] == sep then
        var parts := [""] + rest;
        assert parts[1..] == rest;
        parts
      else
        var parts := [[s[0]] + rest[0]] + rest[1..];
        assert |rest| > 1 ==> parts[1..] == rest[1..];
        assert s == [s[0]] + s[1..];
        parts
  }

  lemma {:induction false} SplitAfterPiece(a: string, t: string, sep: char)
    requires sep !in a
    ensures Split(a + t, sep) == [a + Split(t, sep)[0]] + Split(t, sep)[1..]
    decreases |a|
  {
    if a == [] {
      assert a + t == t;
      var p := Split(t, sep);
      assert a + p[0] == p[0];
      assert p == [p[0]] + p[1..];
    } else {
      assert (a + t)[1..] == a[1..] + t;
      SplitAfterPiece(a[1..], t, sep);
      assert [a[0]] + (a[1..] + Split(t, sep)[0]) == a + Split(t, sep)[0];
    }
  }

  /** Text that is empty or starts with the separator has an empty first piece. */
  lemma SplitFirstEmpty(t: string, sep: char)
    requires t == [] || t[0] == sep
    ensures Split(t, sep)[0] == ""
  {
  }

  /**
   * Two separator-free pieces, joined by the separator and followed by
   * anything that starts with a separator, are the first two parts.
   */
  lemma SplitFirstTwo(a: string, b: string, tail: string, sep: char)
    requires sep !in a && sep !in b
    requires tail == [] || tail[0] == sep
    ensures |Split(a + [sep] + b + tail, sep)| >= 2
    ensures Split(a + [sep] + b + tail, sep)[0] == a
    ensures Split(a + [sep] + b + tail, sep)[1] == b
  {
    var u := b + tail;
    var t := [sep] + u;
    assert a + [sep] + b + tail == a + t;
    SplitAfterPiece(a, t, sep);
    assert t[1..] == u;
    SplitAfterPiece(b, tail, sep);
    SplitFirstEmpty(tail, sep);
    assert b + Split(tail, sep)[0] == b;
    assert a + Split(t, sep)[0] == a;
  }

  /** Splitting separator-free pieces joined by the separator gives the pieces back. */
  lemma {:induction false} SplitOfJoin(parts: seq<string>, sep: char)
    requires |parts| >= 1
    requires forall i :: 0 <= i < |parts| ==> sep !in parts[i]
    ensures Split(Join(parts, sep), sep) == parts
    decreases |parts|
  {
    var a := parts[0];
    if |parts| == 1 {
      SplitAfterPiece(a, [], sep);
      assert a + [] == a;
    } else {
      var u := Join(parts[1..], sep);
      var t := [sep] + u;
      assert Join(parts, sep) == a + t;
      SplitAfterPiece(a, t, sep);
      assert t[1..] == u;
      SplitOfJoin(parts[1..], sep);
      assert Split(t, sep) == [""] + parts[1..];
      assert a + "" == a;
      assert ([""] + parts[1..])[1..] == parts[1..];
      assert parts == [a] + parts[1..];
    }
  }

  function TrimStart(s: string, cs: set<char>): (r: string)
    ensures |r| <= |s| && r == s[|s| - |r|..]
    ensures forall i :: 0 <= i < |s| - |r| ==> s[i] in cs
    ensures r != [] ==> r[0] !in cs
    decreases |s|
  {
    if s != [] && s[0] in cs then TrimStart(s[1..], cs) else s
  }

  function TrimEnd(s: string, cs: set<char>): (r: string)
    ensures |r| <= |s| && r == s[..|r|]
    ensures forall i :: |r| <= i < |s| ==> s[i] in cs
    ensures r != [] ==> r[|r| - 1] !in cs
    decreases |s|
  {
    if s != [] && s[|s| - 1] in cs then TrimEnd(s[..|s| - 1], cs) else s
  }

  /** Rust's `trim_matches`: `s` without its leading and trailing characters from `cs`. */
  function TrimMatches(s: string, cs: set<char>): (r: string)
  {
    TrimEnd(TrimStart(s, cs), cs)
  }

  predicate AllIn(s: string, cs: set<char>)
  {
    forall i :: 0 <= i < |s| ==> s[i] in cs
  }

  /** Neither end of `s` is a character of `cs`. */
  predicate BareEnds(s: string, cs: set<char>)
  {
    s == [] || (s[0] !in cs && s[|s| - 1] !in cs)
  }

  lemma {:induction false} TrimStartOfWrapped(pre: string, rest: string, cs: set<char>)
    requires AllIn(pre, cs)
    requires rest == [] || rest[0] !in cs
    ensures TrimStart(pre + rest, cs) == rest
    decreases |pre|
  {
    if pre == [] {
      assert pre + rest == rest;
    } else {
      assert (pre + rest)[1..] == pre[1..] + rest;
      TrimStartOfWrapped(pre[1..], rest, cs);
    }
  }

  lemma {:induction false} TrimEndOfWrapped(rest: string, post: string, cs: set<char>)
    requires AllIn(post, cs)
    requires rest == [] || rest[|rest| - 1] !in cs
    ensures TrimEnd(rest + post, cs) == rest
    decreases |post|
  {
    if post == [] {
      assert rest + post == rest;
    } else {
      var s := rest + post;
      assert s[..|s| - 1] == rest + post[..|post| - 1];
      TrimEndOfWrapped(rest, post[..|post| - 1], cs);
    }
  }

  /** Trimming removes exactly the wrapping characters around a core that does not start or end with one. */
  lemma TrimMatchesOfWrapped(pre: string, core: string, post: string, cs: set<char>)
    requires AllIn(pre, cs) && AllIn(post, cs) && BareEnds(core, cs)
    ensures TrimMatches(pre + core + post, cs) == core
  {
    if core == [] {
      assert pre + core + post == (pre + post) + [];
      TrimStartOfWrapped(pre + post, [], cs);
    } else {
      assert pre + core + post == pre + (core + post);
      TrimStartOfWrapped(pre, core + post, cs);
      TrimEndOfWrapped(core, post, cs);
    }
  }

  /** Rust's `rfind` for a character: the index of its last occurrence. */
  function RFind(s: string, c: char): (r: Option<nat>)
    ensures r.None? <==> c !in s
    ensures r.Some? ==> r.value < |s| && s[r.value] == c && c !in s[r.value + 1..]
    decreases |s|
  {
    if s == [] then None
    else if s[|s| - 1] == c then Some(|s| - 1)
    else
      assert s == s[..|s| - 1] + [s[|s| - 1]];
      RFind(s[..|s| - 1], c)
  }

  /** The last occurrence is where `RFind` stops. */
  lemma RFindLast(s: string, c: char, i: nat)
    requires i < |s| && s[i] == c && c !in s[i + 1..]
    ensures RFind(s, c) == Some(i)
  {
    assert c in s;
  }

  /** Rust's `find` for a character: the index of its first occurrence. */
  function IndexOf(s: string, c: char): (r: Option<nat>)
    ensures r.None? <==> c !in s
    ensures r.Some? ==> r.value < |s| && s[r.value] == c && c !in s[..r.value]
    decreases |s|
  {
    if s == [] then None
    else if s[0] == c then Some(0)
    else
      assert s == [s[0]] + s[1..];
      match IndexOf(s[1..], c)
      case Some(i) =>
        assert s[..i + 1] == [s[0]] + s[1..][..i];
        Some(i + 1)
      case None => None
  }

  /** The first occurrence is where `IndexOf` stops. */
  lemma IndexOfFirst(s: string, c: char, i: nat)
    requires i < |s| && s[i] == c && c !in s[..i]
    ensures IndexOf(s, c) == Some(i)
  {
    assert c in s;
  }

  /** `s` holds the marker `->` at index `i`. */
  predicate ArrowAt(s: string, i: int)
  {
    0 <= i && i + 1 < |s| && s[i] == '-' && s[i + 1] == '>'
  }

  predicate HasArrow(s: string)
  {
    exists i :: 0 <= i < |s| && ArrowAt(s, i)
  }

  /** Rust's `find("->")`: the index of the first `->`. */
  function FindArrow(s: string): (r: Option<nat>)
    ensures r.None? <==> !HasArrow(s)
    ensures r.Some? ==> ArrowAt(s, r.value) && forall j :: 0 <= j < r.value ==> !ArrowAt(s, j)
    decreases |s|
  {
    if |s| < 2 then None
    else if s[0] == '-' && s[1] == '>' then
      assert ArrowAt(s, 0);
      Some(0)
    else
      var t := s[1..];
      assert forall j :: ArrowAt(s, j + 1) <==> ArrowAt(t, j);
      assert HasArrow(s) ==> HasArrow(t) by {
        if HasArrow(s) {
          var j :| ArrowAt(s, j);
          assert ArrowAt(t, j - 1);
        }
      }
      match FindArrow(t)
      case Some(i) =>
        forall j | 0 <= j < i + 1
          ensures !ArrowAt(s, j)
        {
          if j > 0 { assert !ArrowAt(t, j - 1); }
        }
        Some(i + 1)
      case None => None
  }

  /** The first `->` is where `FindArrow` stops. */
  lemma FindArrowFirst(s: string, i: nat)
    requires ArrowAt(s, i)
    requires forall j :: 0 <= j < i ==> !ArrowAt(s, j)
    ensures FindArrow(s) == Some(i)
  {
    assert HasArrow(s);
  }

  function AsciiUpper(c: char): char
  {
    if 'a' <= c <= 'z' then (c as int - 32) as char else c
  }

  /** Rust's `to_uppercase`, for the ASCII letters. */
  function ToUpper(s: string): string
  {
    seq(|s|, i requires 0 <= i < |s| => AsciiUpper(s[i]))
  }

  /** The lower-case form of an ASCII capital letter; other characters unchanged. */
  function AsciiLower(c: char): char
  {
    if 'A' <= c <= 'Z' then (c as int + 32) as char else c
  }

  /**
   * A text upper-cases to a word of capital letters exactly when it has the
   * word's length and each character is the word's letter in either case.
   */
  lemma ToUpperMatchesWord(s: string, word: string)
    requires forall i :: 0 <= i < |word| ==> 'A' <= word[i] <= 'Z'
    ensures ToUpper(s) == word <==>
      |s| == |word| && forall i :: 0 <= i < |s| ==> s[i] == word[i] || s[i] == AsciiLower(word[i])
  {
    if |s| == |word| && forall i :: 0 <= i < |s| ==> s[i] == word[i] || s[i] == AsciiLower(word[i]) {
      assert forall i :: 0 <= i < |s| ==> ToUpper(s)[i] == word[i];
    }
  }

  /** The line without the `\r` of a `\r\n` ending. */
  function StripCarriageReturn(line: string): string
  {
    if |line| > 0 && line[|line| - 1] == '\r' then line[..|line| - 1] else line
  }

  /**
   * Rust's `str::lines`: the pieces after which a `\n` stands, without the
   * `\n` and without one `\r` just before it; a last piece without `\n` is
   * kept as it is, and a `\n` at the very end starts no further line.
   */
  function Lines(s: string): (ls: seq<string>)
    ensures forall i :: 0 <= i < |ls| ==> '\n' !in ls[i]
    decreases |s|
  {
    if s == [] then []
    else
      match IndexOf(s, '\n')
      case None => [s]
      case Some(i) =>
        var line := StripCarriageReturn(s[..i]);
        assert '\n' !in line by {
          assert forall k :: 0 <= k < |line| ==> line[k] == s[..i][k];
        }
        [line] + Lines(s[i + 1..])
  }

  /** The lines, each followed by a line ending: `\n`, or `\r\n` when `crlf`. */
  function Terminated(ls: seq<string>, crlf: bool): string
  {
    if ls == [] then "" else ls[0] + (if crlf then "\r\n" else "\n") + Terminated(ls[1..], crlf)
  }

  /** A line that `Lines` gives back unchanged when it is followed by a line ending. */
  predicate IsLine(line: string, crlf: bool)
  {
    '\n' !in line && (!crlf ==> line == [] || line[|line| - 1] != '\r')
  }

  /** `Lines` recovers the lines of a text that ends every line with `\n` or with `\r\n`. */
  lemma {:induction false} LinesOfTerminated(ls: seq<string>, crlf: bool)
    requires forall i :: 0 <= i < |ls| ==> IsLine(ls[i], crlf)
    ensures Lines(Terminated(ls, crlf)) == ls
    decreases |ls|
  {
    if ls != [] {
      var l := ls[0];
      var eol := if crlf then "\r\n" else "\n";
      var rest := Terminated(ls[1..], crlf);
      var s := l + eol + rest;
      var n := |l| + |eol| - 1;
      assert s[n] == '\n';
      assert s[..n] == if crlf then l + "\r" else l;
      assert '\n' !in s[..n];
      var r := IndexOf(s, '\n');
      assert r.Some?;
      assert r.value == n;
      assert StripCarriageReturn(s[..n]) == l;
      assert s[n + 1..] == rest;
      LinesOfTerminated(ls[1..], crlf);
      assert ls == [l] + ls[1..];
    }
  }
}
