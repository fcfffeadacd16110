/**
 * `headers_to_json`: the WARC header map of a record, in a fixed order of
 * WARC/1.1 named fields (ISO 28500:2017, section 5), with the record's
 * computed content length always present and written bare.
 */
module WarcHeaders {
  import opened Wrappers
  import opened Text
  import opened JsonMap
  import opened Decimal

  /** The named fields of a WARC record that the parser looks up, and any other. */
  datatype WarcHeader =
    | WarcType | Date | RecordID | TargetURI | IPAddress | ContentType
    | ContentLength | PayloadDigest | BlockDigest | IdentifiedPayloadType
    | Other(name: string)

  /**
   * The first record of a buffer, as the WARC reader delivers it: the version
   * token, the header lookup, the computed length of the block and the block
   * itself, already decoded to text.
   */
  datatype Record = Record(version: string, headers: map<WarcHeader, string>, contentLength: nat, body: string)

  /** `record.header(h)`. */
  function Header(rec: Record, h: WarcHeader): Option<string> {
    if h in rec.headers then Some(rec.headers[h]) else None
  }

  function HeaderName(h: WarcHeader): string {
    match h
    case WarcType => "WARC-Type"
    case Date => "WARC-Date"
    case RecordID => "WARC-Record-ID"
    case TargetURI => "WARC-Target-URI"
    case IPAddress => "WARC-IP-Address"
    case ContentType => "Content-Type"
    case ContentLength => "Content-Length"
    case PayloadDigest => "WARC-Payload-Digest"
    case BlockDigest => "WARC-Block-Digest"
    case IdentifiedPayloadType => "WARC-Identified-Payload-Type"
    case Other(name) => name
  }

  /** An entry of the emitted map: a looked-up header, or the computed block length. */
  datatype Field = Named(header: WarcHeader) | BlockLength

  function FieldName(f: Field): string {
    match f
    case Named(h) => HeaderName(h)
    case BlockLength => "Content-Length"
  }

  /** The number of entries the map can hold. */
  const FieldCount: nat := 10

  /** The order in which the entries are emitted: the computed length comes seventh. */
  function FieldAt(i: nat): Field
    requires i < FieldCount
  {
    match i
    case 0 => Named(WarcType)
    case 1 => Named(Date)
    case 2 => Named(RecordID)
    case 3 => Named(TargetURI)
    case 4 => Named(IPAddress)
    case 5 => Named(ContentType)
    case 6 => BlockLength
    case 7 => Named(PayloadDigest)
    case 8 => Named(BlockDigest)
    case _ => Named(IdentifiedPayloadType)
  }

  /** The pair a field contributes, if any: a named field only when the record has it. */
  function Entry(rec: Record, f: Field): Option<Pair> {
    match f
    case Named(h) =>
      (match Header(rec, h)
       case None => None
       case Some(v) => Some(Pair(HeaderName(h), Str(Escape(v)))))
    case BlockLength => Some(Pair("Content-Length", Num(rec.contentLength)))
  }

  /** What each position of the fixed order contributes to this record's map. */
  function Entries(rec: Record): (es: seq<Option<Pair>>)
    ensures |es| == FieldCount
  {
    [Entry(rec, Named(WarcType))] + [Entry(rec, Named(Date))] + [Entry(rec, Named(RecordID))]
    + [Entry(rec, Named(TargetURI))] + [Entry(rec, Named(IPAddress))] + [Entry(rec, Named(ContentType))]
    + [Entry(rec, BlockLength)] + [Entry(rec, Named(PayloadDigest))] + [Entry(rec, Named(BlockDigest))]
    + [Entry(rec, Named(IdentifiedPayloadType))]
  }

  /** Position `i` of the entry table is the entry of the `i`-th field of the order. */
  lemma EntriesAt(rec: Record, i: nat)
    requires i < FieldCount
    ensures Entries(rec)[i] == Entry(rec, FieldAt(i))
  {
    var es := Entries(rec);
    var front := [Entry(rec, Named(WarcType))] + [Entry(rec, Named(Date))] + [Entry(rec, Named(RecordID))]
      + [Entry(rec, Named(TargetURI))] + [Entry(rec, Named(IPAddress))];
    var back := [Entry(rec, Named(ContentType))] + [Entry(rec, BlockLength)] + [Entry(rec, Named(PayloadDigest))]
      + [Entry(rec, Named(BlockDigest))] + [Entry(rec, Named(IdentifiedPayloadType))];
    assert es == front + back;
    if i < 5 {
      assert es[i] == front[i];
    } else {
      assert es[i] == back[i - 5];
    }
  }

  /** The pairs of the present fields, in the fixed order. */
  function WarcPairs(rec: Record): seq<Pair> {
    Somes(Entries(rec))
  }

  /** The text of the map: a JSON object, whatever the record holds. */
  function WarcHeadersJson(rec: Record): (json: string)
    ensures json == "{" + Join(RenderPairs(WarcPairs(rec)), ", ") + "}"
    ensures |json| >= 2 && json[0] == '{' && json[|json| - 1] == '}'
  {
    Object(WarcPairs(rec))
  }

  /** Whether a field contributes a pair: a named field when the record has it, the length always. */
  predicate Present(rec: Record, f: Field) {
    match f
    case Named(h) => h in rec.headers
    case BlockLength => true
  }

  /** What a present field contributes: its escaped text, or the bare computed length. */
  function FieldValue(rec: Record, f: Field): Value
    requires Present(rec, f)
  {
    match f
    case Named(h) => Str(Escape(rec.headers[h]))
    case BlockLength => Num(rec.contentLength)
  }

  /**
   * The map lists the present fields and nothing else, each under its name
   * with its value, in the fixed order: pair `m` is field `ix[m]` of the
   * order, the positions strictly increase, and every present field has one.
   */
  lemma {:induction false} WarcPairsInOrder(rec: Record)
    ensures var ps, ix := WarcPairs(rec), PresentIndices(Entries(rec));
      && |ps| == |ix|
      && (forall m :: 0 <= m < |ix| ==>
            ix[m] < FieldCount && Present(rec, FieldAt(ix[m]))
            && ps[m] == Pair(FieldName(FieldAt(ix[m])), FieldValue(rec, FieldAt(ix[m]))))
      && (forall m, n :: 0 <= m < n < |ix| ==> ix[m] < ix[n])
      && (forall i :: 0 <= i < FieldCount && Present(rec, FieldAt(i)) ==> i in ix)
  {
    var es := Entries(rec);
    SomesIndexed(es);
    forall i | 0 <= i < FieldCount
      ensures es[i] == Entry(rec, FieldAt(i))
    {
      EntriesAt(rec, i);
    }
  }

  /** No two positions of the order carry the same name. */
  lemma FieldNamesDistinct(i: nat, j: nat)
    requires i < j < FieldCount
    ensures FieldName(FieldAt(i)) != FieldName(FieldAt(j))
  {
  }

  /** No key occurs twice in the map. */
  lemma {:induction false} WarcKeysDistinct(rec: Record)
    ensures var ps := WarcPairs(rec);
      forall m, n :: 0 <= m < n < |ps| ==> ps[m].key != ps[n].key
  {
    WarcPairsInOrder(rec);
    var ps, ix := WarcPairs(rec), PresentIndices(Entries(rec));
    forall m, n | 0 <= m < n < |ps|
      ensures ps[m].key != ps[n].key
    {
      FieldNamesDistinct(ix[m], ix[n]);
    }
  }

  /**
   * The map always holds the computed block length under `Content-Length`,
   * rendered as a bare number; with the keys distinct it is the only
   * `Content-Length` entry, and the only number in the map.
   */
  lemma {:induction false} ContentLengthOnce(rec: Record)
    ensures Pair("Content-Length", Num(rec.contentLength)) in WarcPairs(rec)
    ensures "\"Content-Length\": " + NatToDecimal(rec.contentLength) in RenderPairs(WarcPairs(rec))
    ensures var ps := WarcPairs(rec);
      forall m :: 0 <= m < |ps| && (ps[m].key == "Content-Length" || ps[m].value.Num?) ==>
        ps[m] == Pair("Content-Length", Num(rec.contentLength))
  {
    WarcPairsInOrder(rec);
    var ps, ix := WarcPairs(rec), PresentIndices(Entries(rec));
    LengthPosition(6);
    var k :| 0 <= k < |ix| && ix[k] == 6;
    assert ps[k] == Pair("Content-Length", Num(rec.contentLength));
    assert RenderPairs(ps)[k] == RenderPair(ps[k]);
    LengthRendering(rec.contentLength);
    forall m | 0 <= m < |ps| && (ps[m].key == "Content-Length" || ps[m].value.Num?)
      ensures ps[m] == Pair("Content-Length", Num(rec.contentLength))
    {
      var i := ix[m];
      assert i < FieldCount && Present(rec, FieldAt(i));
      assert ps[m] == Pair(FieldName(FieldAt(i)), FieldValue(rec, FieldAt(i)));
      LengthPosition(i);
      if ps[m].value.Num? {
        assert FieldAt(i) == BlockLength;
      }
      assert i == 6;
    }
  }

  /** The length entry renders as the quoted name followed by the bare decimal digits. */
  lemma LengthRendering(n: nat)
    ensures RenderPair(Pair("Content-Length", Num(n))) == "\"Content-Length\": " + NatToDecimal(n)
  {
    var name := "Content-Length";
    var head := Quoted(name) + ": ";
    assert head == "\"Content-Length\": " by {
      assert Quoted(name) == "\"" + name + "\"";
    }
    assert RenderPair(Pair(name, Num(n))) == head + NatToDecimal(n);
  }

  /** The seventh position, and only it, is the computed length, named `Content-Length`. */
  lemma LengthPosition(i: nat)
    requires i < FieldCount
    ensures FieldAt(i) == BlockLength <==> i == 6
    ensures FieldName(FieldAt(i)) == "Content-Length" <==> i == 6
  {
    if i < 6 {
      FieldNamesDistinct(i, 6);
    } else if i > 6 {
      FieldNamesDistinct(6, i);
    }
  }

  /**
   * Only the nine looked-up fields and the computed length reach the map: the
   * record's own `Content-Length` header, any other header and the version
   * token do not.
   */
  lemma {:induction false} OnlyLookedUpFieldsMatter(r1: Record, r2: Record)
    requires r1.contentLength == r2.contentLength
    requires forall i :: 0 <= i < FieldCount && FieldAt(i).Named? ==>
      Header(r1, FieldAt(i).header) == Header(r2, FieldAt(i).header)
    ensures WarcHeadersJson(r1) == WarcHeadersJson(r2)
  {
    forall i | 0 <= i < FieldCount
      ensures Entries(r1)[i] == Entries(r2)[i]
    {
      EntriesAt(r1, i);
      EntriesAt(r2, i);
    }
    assert Entries(r1) == Entries(r2);
  }

  /** Replacing the declared `Content-Length` header leaves the map as it was. */
  lemma DeclaredLengthIgnored(rec: Record, declared: string)
    ensures WarcHeadersJson(rec.(headers := rec.headers[ContentLength := declared])) == WarcHeadersJson(rec)
  {
    var other := rec.(headers := rec.headers[ContentLength := declared]);
    forall i | 0 <= i < FieldCount && FieldAt(i).Named?
      ensures Header(other, FieldAt(i).header) == Header(rec, FieldAt(i).header)
    {
      assert FieldAt(i).header != ContentLength;
    }
    OnlyLookedUpFieldsMatter(other, rec);
  }

  /**
   * A record with a type, as every parsed record has, lists that type first,
   * escaped, and also holds the computed block length.
   */
  lemma {:induction false} WarcTypeFirst(rec: Record)
    requires WarcType in rec.headers
    ensures var ps := WarcPairs(rec);
      && ps != [] && ps[0] == Pair("WARC-Type", Str(Escape(rec.headers[WarcType])))
      && Pair("Content-Length", Num(rec.contentLength)) in ps
  {
    WarcPairsInOrder(rec);
    var ps, ix := WarcPairs(rec), PresentIndices(Entries(rec));
    LengthPosition(6);
    var j :| 0 <= j < |ix| && ix[j] == 6;
    assert ps[j] == Pair("Content-Length", Num(rec.contentLength));
    assert Present(rec, FieldAt(0));
    assert 0 in ix;
    var k :| 0 <= k < |ix| && ix[k] == 0;
    assert ix[0] <= ix[k];
  }

  /**
   * `headers_to_json`: pushes one rendered pair per present field onto a
   * growing list, then wraps the list, joined with `", "`, in braces.
   */
  method HeadersToJson(rec: Record) returns (json: string)
    ensures json == WarcHeadersJson(rec)
  {
    var pairs: seq<string> := [];
    // `done` holds the entries of the fields handled so far
    ghost var done: seq<Option<Pair>> := [];
    pairs := PushHeader(rec, pairs, done, WarcType); done := [Entry(rec, Named(WarcType))];
    pairs := PushHeader(rec, pairs, done, Date); done := done + [Entry(rec, Named(Date))];
    pairs := PushHeader(rec, pairs, done, RecordID); done := done + [Entry(rec, Named(RecordID))];
    pairs := PushHeader(rec, pairs, done, TargetURI); done := done + [Entry(rec, Named(TargetURI))];
    pairs := PushHeader(rec, pairs, done, IPAddress); done := done + [Entry(rec, Named(IPAddress))];
    pairs := PushHeader(rec, pairs, done, ContentType); done := done + [Entry(rec, Named(ContentType))];
    pairs := PushLength(rec, pairs, done); done := done + [Entry(rec, BlockLength)];
    pairs := PushHeader(rec, pairs, done, PayloadDigest); done := done + [Entry(rec, Named(PayloadDigest))];
    pairs := PushHeader(rec, pairs, done, BlockDigest); done := done + [Entry(rec, Named(BlockDigest))];
    pairs := PushHeader(rec, pairs, done, IdentifiedPayloadType); done := done + [Entry(rec, Named(IdentifiedPayloadType))];
    json := "{" + Join(pairs, ", ") + "}";
    assert done == Entries(rec);
  }

  /**
   * One `if let Some(v) = record.header(h)` block of `headers_to_json`: when the
   * record has header `h`, the list grows by `"Name": "v"` with `v` escaped.
   */
  method PushHeader(rec: Record, pairs: seq<string>, ghost done: seq<Option<Pair>>, h: WarcHeader)
    returns (pairs': seq<string>)
    requires pairs == RenderPairs(Somes(done))
    ensures done == [] ==> pairs' == RenderPairs(Somes([Entry(rec, Named(h))]))
    ensures pairs' == RenderPairs(Somes(done + [Entry(rec, Named(h))]))
  {
    pairs' := pairs;
    var v := Header(rec, h);
    if v.Some? {
      pairs' := pairs + [RenderPair(Pair(HeaderName(h), Str(Escape(v.value))))];
    }
    PushedPair(done, Entry(rec, Named(h)), pairs, pairs');
    assert done == [] ==> done + [Entry(rec, Named(h))] == [Entry(rec, Named(h))];
  }

  /** The unconditional push of the computed block length, written bare. */
  method PushLength(rec: Record, pairs: seq<string>, ghost done: seq<Option<Pair>>) returns (pairs': seq<string>)
    requires pairs == RenderPairs(Somes(done))
    ensures pairs' == RenderPairs(Somes(done + [Entry(rec, BlockLength)]))
  {
    pairs' := pairs + [RenderPair(Pair("Content-Length", Num(rec.contentLength)))];
    PushedPair(done, Entry(rec, BlockLength), pairs, pairs');
  }
}
