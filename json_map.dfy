/**
 * The JSON-like maps the parser emits: `{"k1": "v1", "k2": 7}`. Keys and
 * string values are wrapped in double quotes, numbers are written bare, and
 * pairs are joined with `", "`. Callers escape each embedded `"` as `\"`
 * before they build a pair.
 */
module JsonMap {
  import opened Wrappers
  import opened Text
  import opened Decimal

  /** A value of the map: text already escaped by the caller, or a number. */
  datatype Value = Str(text: string) | Num(n: nat)

  datatype Pair = Pair(key: string, value: Value)

  /** Every `"` after the first character follows a backslash. */
  predicate QuotesEscaped(s: string) {
    |s| < 2 || ((s[1] == '"' ==> s[0] == '\\') && QuotesEscaped(s[1..]))
  }

  /**
   * `replace('"', "\\\"")`: every `"` becomes `\"`, so the text grows by
   * one character per double quote it holds.
   */
  function Escape(s: string): (r: string)
    ensures |r| == |s| + QuoteCount(s)
  {
    if s == [] then []
    else (if s[0] == '"' then "\\\"" else [s[0]]) + Escape(s[1..])
  }

  /** The number of double quotes in a text. */
  function QuoteCount(s: string): nat {
    if s == [] then 0 else (if s[0] == '"' then 1 else 0) + QuoteCount(s[1..])
  }

  /**
   * Escaping changes nothing in a text without `"`; it empties only the
   * empty text; afterwards every `"` follows a backslash, so the result never
   * starts with `"`; and the last character survives unless it was a `"`.
   */
  lemma {:induction false} EscapeShape(s: string)
    ensures var r := Escape(s);
      && ('"' !in s ==> r == s)
      && (r == [] <==> s == [])
      && (r != [] ==> r[0] != '"')
      && QuotesEscaped(r)
      && (r != [] && s[|s| - 1] != '"' ==> r[|r| - 1] == s[|s| - 1])
  {
    if s != [] {
      EscapeShape(s[1..]);
      var head: string := if s[0] == '"' then "\\\"" else [s[0]];
      var tail := Escape(s[1..]);
      assert Escape(s) == head + tail;
      assert QuotesEscaped(head + tail) by {
        if s[0] == '"' {
          assert (head + tail)[1..] == [s[0]] + tail;
          assert ([s[0]] + tail)[1..] == tail;
        } else {
          assert (head + tail)[1..] == tail;
        }
      }
      if '"' !in s {
        assert '"' !in s[1..];
      }
      if s[|s| - 1] != '"' && |s| > 1 {
        assert s[1..][|s[1..]| - 1] == s[|s| - 1];
      }
    }
  }

  /** Escaping distributes over concatenation: it works character by character. */
  lemma {:induction false} EscapeConcat(a: string, b: string)
    ensures Escape(a + b) == Escape(a) + Escape(b)
  {
    if a != [] {
      assert (a + b)[1..] == a[1..] + b;
      EscapeConcat(a[1..], b);
    } else {
      assert a + b == b;
    }
  }

  lemma EscapeSingle()
    ensures Escape("\"") == "\\\""
    ensures forall c: char :: c != '"' ==> Escape([c]) == [c]
  {
    forall c: char | c != '"'
      ensures Escape([c]) == [c]
    {
      assert [c][1..] == [];
    }
    assert "\""[1..] == [];
  }

  /** Reads `\"` back as `"`; every other character stands for itself. */
  function Unescape(s: string): string {
    if s == [] then []
    else if |s| >= 2 && s[0] == '\\' && s[1] == '"' then "\"" + Unescape(s[2..])
    else [s[0]] + Unescape(s[1..])
  }

  /** Escaping loses nothing: un-escaping recovers the original text. */
  lemma {:induction false} UnescapeEscape(s: string)
    ensures Unescape(Escape(s)) == s
  {
    if s != [] {
      var tail := Escape(s[1..]);
      UnescapeEscape(s[1..]);
      if s[0] == '"' {
        assert Escape(s) == "\\\"" + tail;
        assert (("\\\"" + tail)[2..]) == tail;
      } else {
        assert Escape(s) == [s[0]] + tail;
        assert ([s[0]] + tail)[1..] == tail;
        EscapeShape(s[1..]);
      }
    }
  }

  /** Distinct texts stay distinct once escaped. */
  lemma EscapeInjective(a: string, b: string)
    requires Escape(a) == Escape(b)
    ensures a == b
  {
    UnescapeEscape(a);
    UnescapeEscape(b);
  }

  /** A text between double quotes, as it stands: escaping is the caller's job. */
  function Quoted(s: string): (r: string)
    ensures |r| == |s| + 2 && r[0] == '"' && r[|r| - 1] == '"' && r[1..|r| - 1] == s
  {
    "\"" + s + "\""
  }

  function RenderValue(v: Value): string {
    match v
    case Str(text) => Quoted(text)
    case Num(n) => NatToDecimal(n)
  }

  /**
   * `"key": "value"` for text and `"key": 7` for a number: the key in quotes,
   * then `: `, then the value, which ends in a quote exactly when it is text.
   */
  function RenderPair(p: Pair): (r: string)
    ensures |r| >= |p.key| + 5
    ensures r[0] == '"' && r[1..|p.key| + 1] == p.key && r[|p.key| + 1..|p.key| + 4] == "\": "
    ensures p.value.Str? <==> r[|r| - 1] == '"'
    ensures p.value.Str? ==> r[|p.key| + 4..] == Quoted(p.value.text)
    ensures p.value.Num? ==> r[|p.key| + 4..] == NatToDecimal(p.value.n)
  {
    Quoted(p.key) + ": " + RenderValue(p.value)
  }

  function RenderPairs(ps: seq<Pair>): (r: seq<string>)
    ensures |r| == |ps|
    ensures forall i :: 0 <= i < |ps| ==> r[i] == RenderPair(ps[i])
  {
    if ps == [] then [] else [RenderPair(ps[0])] + RenderPairs(ps[1..])
  }

  lemma {:induction false} RenderPairsAppend(a: seq<Pair>, b: seq<Pair>)
    ensures RenderPairs(a + b) == RenderPairs(a) + RenderPairs(b)
  {
    if a == [] {
      assert a + b == b;
    } else {
      assert (a + b)[0] == a[0] && (a + b)[1..] == a[1..] + b;
      RenderPairsAppend(a[1..], b);
    }
  }

  /** `format!("{{{}}}", pairs.join(", "))`. */
  function Object(ps: seq<Pair>): (r: string)
    ensures |r| >= 2 && r[0] == '{' && r[|r| - 1] == '}'
  {
    "{" + Join(RenderPairs(ps), ", ") + "}"
  }

  /** The list grows by the rendering of an entry exactly when the entry is present. */
  lemma PushedPair(done: seq<Option<Pair>>, o: Option<Pair>, pairs: seq<string>, pairs': seq<string>)
    requires pairs == RenderPairs(Somes(done))
    requires pairs' == if o.Some? then pairs + [RenderPair(o.value)] else pairs
    ensures pairs' == RenderPairs(Somes(done + [o]))
  {
    assert (done + [o])[..|done|] == done;
    RenderPairsAppend(Somes(done), OptionToSeq(o));
    if o.Some? {
      assert RenderPairs([o.value]) == [RenderPair(o.value)];
    }
  }
}
