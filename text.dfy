/**
 * The `str` operations that `parse_http_response` is built from: `trim`,
 * `split_once`, `splitn(3, ' ')`, `lines`, `starts_with` and `join`.
 */
module Text {
  import opened Wrappers

  /** Rust's `char::is_whitespace`: the Unicode White_Space property. */
  predicate IsWhitespace(c: char) {
    var n := c as int;
    (0x09 <= n <= 0x0D) || n == 0x20 || n == 0x85 || n == 0xA0 || n == 0x1680
    || (0x2000 <= n <= 0x200A) || n == 0x2028 || n == 0x2029 || n == 0x202F
    || n == 0x205F || n == 0x3000
  }

  predicate AllWhitespace(s: string) {
    forall i :: 0 <= i < |s| ==> IsWhitespace(s[i])
  }

  /** The length of the leading run of whitespace. */
  function LeadingRun(s: string): (n: nat)
    ensures n <= |s| && AllWhitespace(s[..n])
    ensures n < |s| ==> !IsWhitespace(s[n])
  {
    if s != [] && IsWhitespace(s[0]) then
      var m := LeadingRun(s[1..]);
      WhitespaceCons(s, m);
      1 + m
    else 0
  }

  /** The length of the trailing run of whitespace. */
  function TrailingRun(s: string): (n: nat)
    ensures n <= |s| && AllWhitespace(s[|s| - n..])
    ensures n < |s| ==> !IsWhitespace(s[|s| - n - 1])
  {
    if s != [] && IsWhitespace(s[|s| - 1]) then
      var m := TrailingRun(s[..|s| - 1]);
      WhitespaceSnoc(s, |s| - 1 - m);
      1 + m
    else 0
  }

  /** A whitespace first character followed by whitespace is whitespace. */
  lemma WhitespaceCons(s: string, m: nat)
    requires s != [] && IsWhitespace(s[0]) && m <= |s| - 1 && AllWhitespace(s[1..][..m])
    ensures AllWhitespace(s[..m + 1])
  {
    var p := s[..m + 1];
    forall i | 0 <= i < |p| ensures IsWhitespace(p[i]) {
      if i > 0 {
        assert p[i] == s[1..][..m][i - 1];
      }
    }
  }

  /** Whitespace followed by a whitespace last character is whitespace. */
  lemma WhitespaceSnoc(s: string, k: nat)
    requires k < |s| && IsWhitespace(s[|s| - 1]) && AllWhitespace(s[..|s| - 1][k..])
    ensures AllWhitespace(s[k..])
  {
    forall i | 0 <= i < |s| - 1 - k ensures IsWhitespace(s[k..][i]) {
      assert s[k..][i] == s[..|s| - 1][k..][i];
    }
  }

  /** `str::trim_start`: the suffix left after dropping leading whitespace. */
  function TrimStart(s: string): (r: string)
    ensures |r| <= |s| && r == s[|s| - |r|..]
    ensures AllWhitespace(s[..|s| - |r|])
    ensures r == [] || !IsWhitespace(r[0])
  {
    s[LeadingRun(s)..]
  }

  /** `str::trim_end`: the prefix left after dropping trailing whitespace. */
  function TrimEnd(s: string): (r: string)
    ensures |r| <= |s| && r == s[..|r|]
    ensures AllWhitespace(s[|r|..])
    ensures r == [] || !IsWhitespace(r[|r| - 1])
  {
    s[..|s| - TrailingRun(s)]
  }

  /**
   * `str::trim`. The result is the slice of `s` left once its leading and
   * trailing runs of whitespace are dropped: it neither starts nor ends
   * with whitespace, and it is empty exactly when `s` is all whitespace.
   */
  function Trim(s: string): (r: string)
    ensures |r| <= |s|
    ensures exists k: nat :: k + |r| <= |s| && r == s[k..k + |r|] && AllWhitespace(s[..k]) && AllWhitespace(s[k + |r|..])
    // a corollary of the slice clause, kept because the header-line proofs use it in this form
    ensures forall c :: c in r ==> c in s
    ensures r == [] || (!IsWhitespace(r[0]) && !IsWhitespace(r[|r| - 1]))
    ensures r == [] <==> AllWhitespace(s)
  {
    var k := LeadingRun(s);
    if k == |s| then
      assert s[..k] == s && s[k..k] == [];
      []
    else
      var e := |s| - TrailingRun(s);
      TrimCore(s, k, e);
      s[k..e]
  }

  /** Trimming both ends is trimming the start, then the end. */
  lemma TrimStartThenEnd(s: string)
    ensures Trim(s) == TrimEnd(TrimStart(s))
  {
    var k := LeadingRun(s);
    if k < |s| {
      SliceIsTrimEnd(s, k, |s| - TrailingRun(s));
    } else {
      assert s[k..] == [];
    }
  }

  /** The slice between the two whitespace runs is what trimming the end leaves of the part after the first run. */
  lemma SliceIsTrimEnd(s: string, k: nat, e: nat)
    requires k < |s| && AllWhitespace(s[..k]) && !IsWhitespace(s[k])
    requires e <= |s| && AllWhitespace(s[e..]) && (e > 0 ==> !IsWhitespace(s[e - 1]))
    ensures k <= e && s[k..e] == TrimEnd(s[k..])
  {
    TrimCore(s, k, e);
    var t := s[k..];
    assert s[k..e] == t[..e - k] && t[e - k..] == s[e..];
    EndUnique(t, s[k..e], TrimEnd(t));
  }

  /** Only one prefix of `t` leaves a whitespace rest and does not itself end in whitespace. */
  lemma EndUnique(t: string, r1: string, r2: string)
    requires |r1| <= |t| && r1 == t[..|r1|] && AllWhitespace(t[|r1|..]) && (r1 == [] || !IsWhitespace(r1[|r1| - 1]))
    requires |r2| <= |t| && r2 == t[..|r2|] && AllWhitespace(t[|r2|..]) && (r2 == [] || !IsWhitespace(r2[|r2| - 1]))
    ensures r1 == r2
  {
    forall j | |r1| <= j < |t| ensures IsWhitespace(t[j]) {
      assert t[j] == t[|r1|..][j - |r1|];
    }
    forall j | |r2| <= j < |t| ensures IsWhitespace(t[j]) {
      assert t[j] == t[|r2|..][j - |r2|];
    }
    assert r1 != [] ==> t[|r1| - 1] == r1[|r1| - 1];
    assert r2 != [] ==> t[|r2| - 1] == r2[|r2| - 1];
    assert |r1| == |r2|;
  }

  /** The slice between a leading and a trailing whitespace run that meet no whitespace at their inner ends. */
  lemma TrimCore(s: string, k: nat, e: nat)
    requires k < |s| && AllWhitespace(s[..k]) && !IsWhitespace(s[k])
    requires e <= |s| && AllWhitespace(s[e..]) && (e > 0 ==> !IsWhitespace(s[e - 1]))
    ensures k < e
    ensures var r := s[k..e];
      && k + |r| <= |s| && r == s[k..k + |r|] && AllWhitespace(s[..k]) && AllWhitespace(s[k + |r|..])
      && (forall c :: c in r ==> c in s)
      && !IsWhitespace(r[0]) && !IsWhitespace(r[|r| - 1])
      && !AllWhitespace(s)
  {
    forall j | e <= j < |s| ensures IsWhitespace(s[j]) {
      assert s[j] == s[e..][j - e];
    }
    var r := s[k..e];
    assert r[0] == s[k] && r[|r| - 1] == s[e - 1];
    forall c | c in r ensures c in s {
      var i :| 0 <= i < |r| && r[i] == c;
      assert s[k + i] == c;
    }
  }

  /** `str::starts_with`: `prefix` is `s`'s first characters, one by one. */
  function StartsWith(s: string, prefix: string): (b: bool)
    ensures b <==> |prefix| <= |s| && forall i :: 0 <= i < |prefix| ==> s[i] == prefix[i]
  {
    |prefix| <= |s| && s[..|prefix|] == prefix
  }

  /** `str::split_once(c)`: the text before and after the first occurrence of `c`. */
  function SplitOnce(s: string, c: char): (r: Option<(string, string)>)
    ensures r.None? <==> c !in s
    ensures r.Some? ==> s == r.value.0 + [c] + r.value.1 && c !in r.value.0
  {
    if s == [] then None
    else if s[0] == c then Some(([], s[1..]))
    else match SplitOnce(s[1..], c)
      case None => None
      case Some(parts) => Some(([s[0]] + parts.0, parts.1))
  }

  /** Splitting at the first `c` finds the known split when the text before it has no `c`. */
  lemma {:induction false} SplitOnceAt(a: string, c: char, b: string)
    requires c !in a
    ensures SplitOnce(a + [c] + b, c) == Some((a, b))
  {
    var s := a + [c] + b;
    if a == [] {
      assert s[1..] == b;
    } else {
      assert s[0] == a[0] != c && s[1..] == a[1..] + [c] + b;
      SplitOnceAt(a[1..], c, b);
      assert [a[0]] + a[1..] == a;
    }
  }

  /** `slice::join(sep)` on a sequence of strings. */
  function Join(parts: seq<string>, sep: string): string {
    if parts == [] then []
    else if |parts| == 1 then parts[0]
    else parts[0] + sep + Join(parts[1..], sep)
  }

  /** Joining two non-empty runs of parts puts exactly one separator between them. */
  lemma {:induction false} JoinAppend(a: seq<string>, b: seq<string>, sep: string)
    requires a != [] && b != []
    ensures Join(a + b, sep) == Join(a, sep) + sep + Join(b, sep)
    decreases |a|
  {
    assert (a + b)[0] == a[0];
    if |a| == 1 {
      assert (a + b)[1..] == b;
    } else {
      assert (a + b)[1..] == a[1..] + b;
      JoinAppend(a[1..], b, sep);
    }
  }

  /**
   * `str::splitn(3, ' ')`: at most three pieces, cut at the first two spaces.
   * The pieces rejoined with a space give back the line, and only the third
   * piece may still hold a space.
   */
  function SplitN3(s: string): (parts: seq<string>)
    ensures 1 <= |parts| <= 3
    ensures Join(parts, " ") == s
    ensures forall i :: 0 <= i < |parts| - 1 ==> ' ' !in parts[i]
    ensures |parts| < 3 ==> ' ' !in parts[|parts| - 1]
  {
    match SplitOnce(s, ' ')
    case None => [s]
    case Some((first, rest)) =>
      match SplitOnce(rest, ' ')
      case None => [first, rest]
      case Some((second, third)) =>
        assert [first, second, third][1..] == [second, third];
        assert [second, third][1..] == [third];
        assert Join([second, third], " ") == second + " " + third;
        [first, second, third]
  }

  /** Drops one `\r` at the end of a line. */
  function StripCr(line: string): string {
    if line != [] && line[|line| - 1] == '\r' then line[..|line| - 1] else line
  }

  /**
   * `str::lines`: the text cut at each `\n`, with one `\r` dropped before a
   * `\n`, and no empty last line when the text ends in `\n`. A `\r` at the very
   * end of a text without a final `\n` is kept.
   */
  function Lines(s: string): (ls: seq<string>)
    ensures forall i :: 0 <= i < |ls| ==> '\n' !in ls[i]
    ensures ls == [] <==> s == []
    decreases |s|
  {
    if s == [] then []
    else match SplitOnce(s, '\n')
      case None => [s]
      case Some((line, rest)) => [StripCr(line)] + Lines(rest)
  }

  /** A non-empty text without `\n` is a single line, kept whole, even with a final `\r`. */
  lemma LinesSingle(s: string)
    requires s != [] && '\n' !in s
    ensures Lines(s) == [s]
  {
  }

  /** A line without a carriage return keeps its last character. */
  lemma NoCrStrip(line: string)
    requires '\r' !in line
    ensures StripCr(line) == line
  {
    if line != [] {
      assert line[|line| - 1] in line;
    }
  }

  /** Joining a first part with the rest. */
  lemma JoinCons(first: string, more: seq<string>, sep: string)
    ensures Join([first] + more, sep) == if more == [] then first else first + sep + Join(more, sep)
  {
    if more != [] {
      assert ([first] + more)[1..] == more;
    }
  }

  /**
   * Without carriage returns, the lines joined with `\n` give back the text,
   * up to the one final `\n` that `lines` does not report.
   */
  lemma {:induction false} LinesJoin(s: string)
    requires '\r' !in s
    ensures Join(Lines(s), "\n") + (if s != [] && s[|s| - 1] == '\n' then "\n" else "") == s
    decreases |s|
  {
    if s != [] && '\n' in s {
      var line, rest := SplitOnce(s, '\n').value.0, SplitOnce(s, '\n').value.1;
      assert s == line + "\n" + rest;
      assert '\r' !in line && '\r' !in rest;
      NoCrStrip(line);
      LinesCons(line, rest);
      LinesJoin(rest);
      JoinCons(line, Lines(rest), "\n");
      if rest != [] {
        assert s[|s| - 1] == rest[|rest| - 1];
      }
    }
  }

  /** The first line of a text is the text up to its first `\n`, less one `\r`. */
  lemma LinesCons(line: string, rest: string)
    requires '\n' !in line
    ensures Lines(line + "\n" + rest) == [StripCr(line)] + Lines(rest)
  {
    SplitOnceAt(line, '\n', rest);
  }

  /** A text cut after a `\n` has the lines of the two parts, one after the other. */
  lemma {:induction false} LinesAppend(a: string, b: string)
    requires a == [] || a[|a| - 1] == '\n'
    ensures Lines(a + b) == Lines(a) + Lines(b)
    decreases |a|
  {
    if a == [] {
      assert a + b == b;
    } else {
      var line, rest := FirstLine(a);
      var first := StripCr(line);
      calc {
        Lines(a + b);
        { LinesConsAppend(line, rest, b); }
        [first] + Lines(rest + b);
        { LinesAppend(rest, b); }
        [first] + (Lines(rest) + Lines(b));
        { assert [first] + (Lines(rest) + Lines(b)) == ([first] + Lines(rest)) + Lines(b); }
        ([first] + Lines(rest)) + Lines(b);
        { LinesCons(line, rest); }
        Lines(a) + Lines(b);
      }
    }
  }

  /** `LinesCons` for a first line followed by a text that goes on. */
  lemma LinesConsAppend(line: string, rest: string, b: string)
    requires '\n' !in line
    ensures Lines((line + "\n" + rest) + b) == [StripCr(line)] + Lines(rest + b)
  {
    assert (line + "\n" + rest) + b == line + "\n" + (rest + b);
    LinesCons(line, rest + b);
  }

  /** A text ending in `\n` is its first line, a `\n`, and a shorter text that also ends in `\n`, or nothing. */
  lemma FirstLine(a: string) returns (line: string, rest: string)
    requires a != [] && a[|a| - 1] == '\n'
    ensures '\n' !in line && a == line + "\n" + rest && |rest| < |a|
    ensures rest == [] || rest[|rest| - 1] == '\n'
  {
    var split := SplitOnce(a, '\n');
    line, rest := split.value.0, split.value.1;
    if rest != [] { assert rest[|rest| - 1] == a[|a| - 1]; }
  }

  /**
   * A `\r\n` line end splits exactly like a bare `\n`: once the lines are
   * re-joined with `\n`, the carriage return is gone.
   */
  lemma LinesCrLf(line: string, rest: string)
    requires '\n' !in line && (line == [] || line[|line| - 1] != '\r')
    ensures Lines(line + "\r\n" + rest) == Lines(line + "\n" + rest)
    ensures Lines(line + "\r\n" + rest) == [line] + Lines(rest)
  {
    assert line + "\r\n" + rest == (line + "\r") + "\n" + rest;
    LinesCons(line + "\r", rest);
    LinesCons(line, rest);
    assert (line + "\r")[..|line|] == line;
  }
}
