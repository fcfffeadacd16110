/**
 * `parse_warc_record` and the input selection of `parse_warc`: the first
 * record of a buffer becomes the six columns of a row, with the HTTP columns
 * filled only for `response` records.
 */
module WarcRecord {
  import opened Wrappers
  import opened WarcHeaders
  import opened Http

  /** The six columns `parse_warc_record` fills. */
  datatype ParsedRecord = ParsedRecord(
    warcVersion: string,
    warcHeaders: string,
    httpVersion: Option<string>,
    httpStatus: Option<int>,
    httpHeaders: Option<string>,
    httpBody: Option<string>)

  /**
   * `parse_warc_record`, given what the WARC reader yields first: no record,
   * a read error, or a record. There is a result exactly when a record was
   * read and it has a `WARC-Type` header; it then always carries the version
   * and the header map of that record.
   */
  function ParseWarcRecord(first: Option<Result<Record>>): (p: Option<ParsedRecord>)
    ensures p.Some? <==> first.Some? && first.value.Ok? && WarcType in first.value.value.headers
    ensures p.Some? ==> p.value.warcVersion == first.value.value.version
    ensures p.Some? ==> p.value.warcHeaders == WarcHeadersJson(first.value.value)
  {
    match first
    case None => None
    case Some(Err) => None
    case Some(Ok(rec)) =>
      var warcVersion := rec.version;
      var warcHeaders := WarcHeadersJson(rec);
      match Header(rec, WarcType)
      case None => None
      case Some(warcType) =>
        if warcType == "response" then
          var http := Response(rec.body);
          Some(ParsedRecord(warcVersion, warcHeaders, http.version, http.status, http.headers, http.body))
        else
          Some(ParsedRecord(warcVersion, warcHeaders, None, None, None, None))
  }

  /**
   * The HTTP columns follow the record type: a `response` record gets the
   * parse of its block, field by field; any other type gets none of them.
   */
  lemma HttpColumnsByType(rec: Record)
    requires WarcType in rec.headers
    ensures var p := ParseWarcRecord(Some(Ok(rec))).value;
      && (rec.headers[WarcType] == "response" ==>
            HttpParts(p.httpVersion, p.httpStatus, p.httpHeaders, p.httpBody) == Response(rec.body))
      && (rec.headers[WarcType] != "response" ==>
            p.httpVersion.None? && p.httpStatus.None? && p.httpHeaders.None? && p.httpBody.None?)
  {
  }

  /** A byte of a blob. */
  newtype byte = x: int | 0 <= x < 256

  /**
   * The bytes handed to the parser: the inflated bytes when gzip inflation
   * succeeded and produced something, otherwise the blob as stored. The
   * choice never loses a non-empty input.
   */
  function SelectInput(raw: seq<byte>, inflated: Option<seq<byte>>): (data: seq<byte>)
    ensures data == raw || (inflated.Some? && data == inflated.value)
    ensures data == [] ==> raw == []
    ensures inflated.Some? && inflated.value != [] ==> data == inflated.value
  {
    if inflated.Some? && inflated.value != [] then inflated.value else raw
  }

  /** The six output columns of one row, each possibly null. */
  datatype Row = Row(
    warcVersion: Option<string>,
    warcHeaders: Option<string>,
    httpVersion: Option<string>,
    httpStatus: Option<int>,
    httpHeaders: Option<string>,
    httpBody: Option<string>)

  const NullRow := Row(None, None, None, None, None, None)

  /**
   * One row of `parse_warc`. `inflate` stands for gzip inflation (`None` when
   * it fails) and `read` for the WARC reader on the chosen bytes. A null
   * blob, or a blob whose chosen bytes do not parse, gives a row of six
   * nulls; otherwise the two WARC columns are set and the HTTP columns are
   * those of the parse, each null where the parse has nothing.
   */
  function RowOf(blob: Option<seq<byte>>, inflate: seq<byte> -> Option<seq<byte>>,
                 read: seq<byte> -> Option<Result<Record>>): (row: Row)
    ensures blob.None? ==> row == NullRow
    ensures row.warcVersion.None? <==> row.warcHeaders.None?
    ensures row.warcVersion.None? ==> row == NullRow
    ensures row.warcHeaders.Some? ==>
      blob.Some? && |row.warcHeaders.value| >= 2 && row.warcHeaders.value[0] == '{' && row.warcHeaders.value[|row.warcHeaders.value| - 1] == '}'
    ensures blob.Some? ==>
      var p := ParseWarcRecord(read(SelectInput(blob.value, inflate(blob.value))));
      && (p.None? ==> row == NullRow)
      && (p.Some? ==> row == Row(Some(p.value.warcVersion), Some(p.value.warcHeaders),
                                 p.value.httpVersion, p.value.httpStatus, p.value.httpHeaders, p.value.httpBody))
  {
    match blob
    case None => NullRow
    case Some(raw) =>
      match ParseWarcRecord(read(SelectInput(raw, inflate(raw))))
      case None => NullRow
      case Some(p) =>
        Row(Some(p.warcVersion), Some(p.warcHeaders), p.httpVersion, p.httpStatus, p.httpHeaders, p.httpBody)
  }
}
