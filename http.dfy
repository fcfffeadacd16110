/**
 * `parse_http_response`: the HTTP message stored in the block of a WARC
 * `response` record, read line by line. The first line may announce the
 * version and status code, and is taken as the status line even when it is
 * blank; of the lines after it, those up to the first blank one are header
 * lines and those after that blank line form the body, re-joined with `\n`.
 */
module Http {
  import opened Wrappers
  import opened Text
  import opened Decimal
  import opened JsonMap

  /** The four HTTP columns of a row: version, status code, header map, body. */
  datatype HttpParts = HttpParts(version: Option<string>, status: Option<int>, headers: Option<string>, body: Option<string>)

  /**
   * The version and status code a status line announces. Only a line that
   * starts with `HTTP/` announces anything; its first space-separated piece
   * is the version, and its second, when there is one, the status code if
   * it reads as an `i32`. A version line without a space is all version and
   * announces no status code.
   */
  function StatusLine(line: string): (vs: (Option<string>, Option<int>))
    ensures vs.0.Some? <==> StartsWith(line, "HTTP/")
    ensures vs.1.Some? ==> vs.0.Some? && I32_MIN <= vs.1.value <= I32_MAX
    ensures StartsWith(line, "HTTP/") && ' ' !in line ==> vs == (Some(line), None)
  {
    if StartsWith(line, "HTTP/") then
      var parts := SplitN3(line);
      (Some(parts[0]), if |parts| >= 2 then ParseI32(parts[1]) else None)
    else
      (None, None)
  }

  /** A line that `line.trim().is_empty()` finds empty: whitespace only. */
  predicate Blank(line: string) {
    AllWhitespace(line)
  }

  /** The position of the first blank line, if any. */
  function FirstBlank(ls: seq<string>): Option<nat> {
    if ls == [] then None
    else if Blank(ls[0]) then Some(0)
    else match FirstBlank(ls[1..])
      case None => None
      case Some(j) => Some(j + 1)
  }

  /**
   * `FirstBlank` finds nothing exactly when no line is blank, and otherwise
   * a blank line with no blank line before it.
   */
  lemma {:induction false} FirstBlankSpec(ls: seq<string>)
    ensures var r := FirstBlank(ls);
      && (r.None? <==> forall i :: 0 <= i < |ls| ==> !Blank(ls[i]))
      && (r.Some? ==> r.value < |ls| && Blank(ls[r.value]) && forall i :: 0 <= i < r.value ==> !Blank(ls[i]))
  {
    if ls != [] {
      FirstBlankSpec(ls[1..]);
      assert forall i :: 0 < i < |ls| ==> ls[i] == ls[1..][i - 1];
    }
  }

  /**
   * The pair a header line gives: the line is cut at its first `:`, and the
   * name and the value are each trimmed and escaped. A line without a `:`
   * gives nothing.
   */
  function HeaderField(line: string): (p: Option<Pair>)
    ensures p.None? <==> ':' !in line
    ensures p.Some? ==> p.value.value.Str?
  {
    match SplitOnce(line, ':')
    case None => None
    case Some((key, value)) => Some(Pair(Escape(Trim(key)), Str(Escape(Trim(value)))))
  }

  function HeaderFields(ls: seq<string>): seq<Option<Pair>> {
    seq(|ls|, i requires 0 <= i < |ls| => HeaderField(ls[i]))
  }

  /** The header pairs of some lines, in the order of the lines. */
  function HeaderPairs(ls: seq<string>): seq<Pair> {
    Somes(HeaderFields(ls))
  }

  /** The lines before the first blank one; all of them when none is blank. */
  function HeaderSection(rest: seq<string>): seq<string> {
    match FirstBlank(rest)
    case None => rest
    case Some(b) => FirstBlankSpec(rest); rest[..b]
  }

  /** The lines after the first blank one; none when none is blank. */
  function BodySection(rest: seq<string>): seq<string> {
    match FirstBlank(rest)
    case None => []
    case Some(b) => FirstBlankSpec(rest); rest[b + 1..]
  }

  /** The header map of the lines after the first: absent when no pair was found. */
  function HeadersOf(rest: seq<string>): Option<string> {
    var ps := HeaderPairs(HeaderSection(rest));
    if ps == [] then None else Some(Object(ps))
  }

  /** The body of the lines after the first: absent when nothing follows a blank line. */
  function BodyOf(rest: seq<string>): Option<string> {
    var bodyLines := BodySection(rest);
    if bodyLines == [] then None else Some(Join(bodyLines, "\n"))
  }

  /** The lines after the status line. */
  function RestLines(content: string): seq<string> {
    var ls := Lines(content);
    if ls == [] then [] else ls[1..]
  }

  /**
   * What `parse_http_response` returns for a block of text. Only a first
   * line starting with `HTTP/` gives a version, and only a version line can
   * give a status code, which then fits an `i32`; an empty block gives
   * nothing at all.
   */
  function Response(content: string): (r: HttpParts)
    ensures r.version.Some? <==> Lines(content) != [] && StartsWith(Lines(content)[0], "HTTP/")
    ensures r.status.Some? ==> r.version.Some? && I32_MIN <= r.status.value <= I32_MAX
    ensures content == [] ==> r == HttpParts(None, None, None, None)
    ensures Lines(content) != [] ==> (r.version, r.status) == StatusLine(Lines(content)[0])
  {
    var ls := Lines(content);
    var (version, status) := if ls == [] then (None, None) else StatusLine(ls[0]);
    var rest := RestLines(content);
    HttpParts(version, status, HeadersOf(rest), BodyOf(rest))
  }

  /**
   * `parse_http_response`: takes the status line, then hands the remaining
   * lines to the walk that collects header pairs and body lines, and wraps
   * what it collected.
   */
  method ParseHttpResponse(content: string) returns (r: HttpParts)
    ensures r == Response(content)
  {
    var ls := Lines(content);
    var version: Option<string> := None;
    var status: Option<int> := None;
    var rest: seq<string> := [];
    if ls != [] {
      var statusLine := ls[0];
      if StartsWith(statusLine, "HTTP/") {
        var parts := SplitN3(statusLine);
        version := Some(parts[0]);
        if |parts| >= 2 {
          status := ParseI32(parts[1]);
        }
      }
      rest := ls[1..];
    }
    var headerPairs, bodyLines := ScanLines(rest);
    var headers := if headerPairs == [] then None else Some("{" + Join(headerPairs, ", ") + "}");
    var body := if bodyLines == [] then None else Some(Join(bodyLines, "\n"));
    r := HttpParts(version, status, headers, body);
  }

  /**
   * The `for line in lines` walk of `parse_http_response`: before the first
   * blank line, each line with a `:` adds a rendered pair; the blank line
   * sets `body_start`; every later line is kept as a body line.
   */
  method ScanLines(rest: seq<string>) returns (headerPairs: seq<string>, bodyLines: seq<string>)
    ensures headerPairs == RenderPairs(HeaderPairs(HeaderSection(rest)))
    ensures bodyLines == BodySection(rest)
  {
    headerPairs := [];
    bodyLines := [];
    var bodyStart := false;
    for i := 0 to |rest|
      invariant bodyStart <==> FirstBlank(rest[..i]).Some?
      invariant headerPairs == RenderPairs(HeaderPairs(HeaderSection(rest[..i])))
      invariant bodyLines == BodySection(rest[..i])
    {
      var line := rest[i];
      SectionsSnoc(rest, i);
      if bodyStart {
        bodyLines := bodyLines + [line];
      } else if Trim(line) == [] {
        bodyStart := true;
      } else {
        headerPairs := PushHeaderLine(headerPairs, HeaderSection(rest[..i]), line);
      }
    }
    assert rest[..|rest|] == rest;
  }

  /**
   * The `split_once(':')` branch: a line with a colon adds `"name": "value"`,
   * both sides trimmed and escaped; a line without one adds nothing.
   */
  method PushHeaderLine(pairs: seq<string>, ghost section: seq<string>, line: string) returns (pairs': seq<string>)
    requires pairs == RenderPairs(HeaderPairs(section))
    ensures pairs' == RenderPairs(HeaderPairs(section + [line]))
  {
    pairs' := pairs;
    var kv := SplitOnce(line, ':');
    if kv.Some? {
      var key := Escape(Trim(kv.value.0));
      var value := Escape(Trim(kv.value.1));
      pairs' := pairs + [RenderPair(Pair(key, Str(value)))];
    }
    assert HeaderFields(section + [line]) == HeaderFields(section) + [HeaderField(line)];
    PushedPair(HeaderFields(section), HeaderField(line), pairs, pairs');
  }

  /**
   * How the two sections grow by one line: once a blank line has been seen
   * the line joins the body; the first blank line itself joins neither; any
   * line before it joins the header section.
   */
  lemma SectionsSnoc(ls: seq<string>, i: nat)
    requires i < |ls|
    ensures var before, after := ls[..i], ls[..i + 1];
      && (FirstBlank(after).Some? <==> FirstBlank(before).Some? || Blank(ls[i]))
      && (FirstBlank(before).Some? ==>
            HeaderSection(after) == HeaderSection(before) && BodySection(after) == BodySection(before) + [ls[i]])
      && (FirstBlank(before).None? && Blank(ls[i]) ==>
            HeaderSection(after) == HeaderSection(before) && BodySection(after) == [])
      && (FirstBlank(before).None? && !Blank(ls[i]) ==>
            HeaderSection(after) == HeaderSection(before) + [ls[i]] && BodySection(after) == [])
  {
    var before, after := ls[..i], ls[..i + 1];
    FirstBlankSnoc(ls, i);
    FirstBlankSpec(before);
    var fb := FirstBlank(before);
    if fb.Some? {
      assert after[..fb.value] == before[..fb.value];
      assert after[fb.value + 1..] == before[fb.value + 1..] + [ls[i]];
    } else {
      assert after == before + [ls[i]];
    }
  }

  /** One more line: the first blank line stays where it was, or is the new line if it is blank. */
  lemma FirstBlankSnoc(ls: seq<string>, i: nat)
    requires i < |ls|
    ensures FirstBlank(ls[..i + 1]) ==
      if FirstBlank(ls[..i]).Some? then FirstBlank(ls[..i])
      else if Blank(ls[i]) then Some(i)
      else None
  {
    var before, after := FirstBlank(ls[..i]), FirstBlank(ls[..i + 1]);
    FirstBlankSpec(ls[..i]);
    FirstBlankSpec(ls[..i + 1]);
    assert forall j :: 0 <= j < i ==> ls[..i + 1][j] == ls[..i][j];
    if before.Some? {
      assert ls[..i + 1][before.value] == ls[..i][before.value];
    }
  }

  /** A blank line found in a prefix is the first blank line of the whole. */
  lemma FirstBlankPrefix(ls: seq<string>, k: nat)
    requires k <= |ls| && FirstBlank(ls[..k]).Some?
    ensures FirstBlank(ls) == FirstBlank(ls[..k])
  {
    FirstBlankSpec(ls[..k]);
    var p := FirstBlank(ls[..k]).value;
    assert ls[p] == ls[..k][p];
    assert forall j :: 0 <= j < p ==> ls[j] == ls[..k][j];
    FirstBlankAt(ls, p);
  }

  /** A blank line with no blank line before it is the first blank line. */
  lemma FirstBlankAt(ls: seq<string>, p: nat)
    requires p < |ls| && Blank(ls[p])
    requires forall j :: 0 <= j < p ==> !Blank(ls[j])
    ensures FirstBlank(ls) == Some(p)
  {
    FirstBlankSpec(ls);
  }

  /**
   * The version is the status line up to its first space: it starts with
   * `HTTP/`, holds no space, and is followed by a space or by nothing.
   */
  lemma VersionToken(line: string)
    requires StartsWith(line, "HTTP/")
    ensures var v := StatusLine(line).0.value;
      && StartsWith(v, "HTTP/") && ' ' !in v && StartsWith(line, v)
      && (|v| == |line| || line[|v|] == ' ')
  {
    var parts := SplitN3(line);
    var v := parts[0];
    if |parts| == 1 {
      assert line == v;
    } else {
      assert ' ' !in v;
      assert line == v + " " + Join(parts[1..], " ");
      assert line[|v|] == ' ';
    }
    assert StartsWith(line, v);
    assert forall j :: 0 <= j < 5 ==> line[j] == "HTTP/"[j] != ' ';
    assert v[..5] == line[..5];
  }

  /**
   * A status line `version code reason` announces `version` and the code as
   * `i32` parsing reads it; the reason phrase plays no part and may hold
   * spaces. Without a reason phrase the same holds.
   */
  lemma StatusLineParts(version: string, code: string, reason: string)
    requires StartsWith(version, "HTTP/") && ' ' !in version && ' ' !in code
    ensures StatusLine(version + " " + code + " " + reason) == (Some(version), ParseI32(code))
    ensures StatusLine(version + " " + code) == (Some(version), ParseI32(code))
  {
    var full := version + " " + code + " " + reason;
    assert full == version + [' '] + (code + " " + reason);
    SplitOnceAt(version, ' ', code + " " + reason);
    assert code + " " + reason == code + [' '] + reason;
    SplitOnceAt(code, ' ', reason);
    assert full[..5] == version[..5];
    var short := version + " " + code;
    assert short == version + [' '] + code;
    SplitOnceAt(version, ' ', code);
    assert short[..5] == version[..5];
  }

  /**
   * A line `name:value`, cut at its first colon, gives the pair of the
   * trimmed, escaped name and value; the value may hold further colons.
   */
  lemma HeaderFieldAt(name: string, value: string)
    requires ':' !in name
    ensures HeaderField(name + ":" + value) == Some(Pair(Escape(Trim(name)), Str(Escape(Trim(value)))))
  {
    assert name + ":" + value == name + [':'] + value;
    SplitOnceAt(name, ':', value);
  }

  /**
   * Every line with a colon gives a pair and no other line does, the pairs in
   * the order of their lines: repeated names are all kept, none is merged.
   */
  lemma {:induction false} HeaderPairsInOrder(ls: seq<string>)
    ensures var ps, ix := HeaderPairs(ls), PresentIndices(HeaderFields(ls));
      && |ps| == |ix|
      && (forall m :: 0 <= m < |ix| ==> ix[m] < |ls| && ':' in ls[ix[m]] && ps[m] == HeaderField(ls[ix[m]]).value)
      && (forall m, n :: 0 <= m < n < |ix| ==> ix[m] < ix[n])
      && (forall i :: 0 <= i < |ls| && ':' in ls[i] ==> i in ix)
  {
    var fs := HeaderFields(ls);
    SomesIndexed(fs);
    assert forall i :: 0 <= i < |ls| ==> fs[i] == HeaderField(ls[i]);
  }

  /**
   * The header map is absent exactly when no line after the status line and
   * before the first blank one holds a colon; otherwise it is the object of the pairs of those lines.
   */
  lemma {:induction false} HeadersAbsent(content: string)
    ensures var section := HeaderSection(RestLines(content));
      && (Response(content).headers.None? <==> forall i :: 0 <= i < |section| ==> ':' !in section[i])
      && (Response(content).headers.Some? ==> Response(content).headers.value == Object(HeaderPairs(section)))
  {
    var section := HeaderSection(RestLines(content));
    var fs := HeaderFields(section);
    SomesEmpty(fs);
    assert forall i :: 0 <= i < |section| ==> fs[i] == HeaderField(section[i]);
  }

  /**
   * The body is absent exactly when no line after the status line is blank or
   * the first such blank line is the last one; otherwise it is every line after the first blank one,
   * joined with `\n`.
   */
  lemma BodyAbsent(content: string)
    ensures var rest, b, body := RestLines(content), FirstBlank(RestLines(content)), Response(content).body;
      && (b.Some? ==> b.value < |rest|)
      && (body.None? <==> b.None? || b.value == |rest| - 1)
      && (body.Some? ==> b.Some? && body.value == Join(rest[b.value + 1..], "\n"))
  {
    FirstBlankSpec(RestLines(content));
  }

  /** Example: a blank first line is the status line, not the end of the headers. */
  lemma BlankStatusLine()
    ensures Response("\n\nbody") == HttpParts(None, None, None, Some("body"))
  {
    FirstLineOnlyStatus("", "\nbody");
    assert "" + "\n" + "\nbody" == "\n\nbody";
    LinesCons("", "body");
    assert "" + "\n" + "body" == "\nbody";
    LinesSingle("body");
  }

  /**
   * The first line decides the version and the status code and nothing else:
   * the header map and the body come from the following lines alone, whether
   * the first line is a status line or not.
   */
  lemma FirstLineOnlyStatus(first: string, following: string)
    requires '\n' !in first
    ensures Response(first + "\n" + following)
      == HttpParts(StatusLine(StripCr(first)).0, StatusLine(StripCr(first)).1, HeadersOf(Lines(following)), BodyOf(Lines(following)))
  {
    LinesCons(first, following);
    assert ([StripCr(first)] + Lines(following))[1..] == Lines(following);
  }

  /**
   * A message made of a head (the status line, the header lines and a blank
   * line, each ended by `\n`) followed by a body without carriage returns
   * gives back that body, less the one final `\n` that line splitting drops.
   */
  lemma BodyRoundTrip(head: string, body: string)
    requires head != [] && head[|head| - 1] == '\n'
    requires |Lines(head)| >= 2 && FirstBlank(Lines(head)[1..]) == Some(|Lines(head)| - 2)
    requires body != [] && '\r' !in body
    ensures Response(head + body).body.Some?
    ensures Response(head + body).body.value + (if body[|body| - 1] == '\n' then "\n" else "") == body
  {
    var hs := Lines(head);
    RestLinesAppend(head, body);
    BodySectionAfter(hs[1..], Lines(body));
    LinesJoin(body);
  }

  /** Lines after the status line of a head ending in `\n` and a tail. */
  lemma RestLinesAppend(head: string, body: string)
    requires head != [] && head[|head| - 1] == '\n'
    ensures RestLines(head + body) == Lines(head)[1..] + Lines(body)
  {
    var all, lh, lb := Lines(head + body), Lines(head), Lines(body);
    LinesAppend(head, body);
    assert all == lh + lb && lh != [];
    assert (lh + lb)[1..] == lh[1..] + lb;
  }

  /** When the first blank line ends the lines so far, the body is all that follows. */
  lemma BodySectionAfter(before: seq<string>, after: seq<string>)
    requires before != [] && FirstBlank(before) == Some(|before| - 1)
    ensures BodySection(before + after) == after
  {
    var rest := before + after;
    assert rest[..|before|] == before;
    FirstBlankPrefix(rest, |before|);
    assert rest[|before|..] == after;
  }
}
