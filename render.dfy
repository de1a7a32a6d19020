/** The markup renderer: `to_xml` of subrecords, records and the file. Writing to a `String`
    cannot fail, so the source's `Result` is always `Ok` and is not modelled. */
module Render {
  import opened Wire
  import opened TagCodec
  import opened HexText
  import opened Numerals
  import opened Wrappers
  import opened Chunks
  import opened Container

  /** Bytes per row and per group of a subrecord payload (`{:32.4}`). */
  const ROW: nat := 32
  const GROUP: nat := 4

  /** An opening tag up to its closing '>': name and decimal size attribute. */
  function OpenTag(tag: string, size: nat): string {
    "<" + tag + " size=\"" + Decimal(size) + "\""
  }

  /** The payload between a subrecord's tags: rows of 32 bytes in groups of 4, set on lines of
      their own when the payload is longer than one row. */
  function PayloadText(payload: seq<Byte>): string {
    Lead(|payload|) + Layout(payload, ROW, GROUP) + Trail(|payload|)
  }

  /** The line break before a payload longer than one row. */
  function Lead(n: nat): string {
    if n > ROW then "\n" else ""
  }

  /** The line break and indent after a payload longer than one row. */
  function Trail(n: nat): string {
    if n > ROW then "\n  " else ""
  }

  /** The text `Subrecord::to_xml` appends. */
  function SubrecordText(tag: string, size: nat, payload: seq<Byte>): string {
    "  " + OpenTag(tag, size) + ">" + PayloadText(payload) + CloseTag(tag)
  }

  /** The rendered payload, whitespace deleted, is the payload's hex digits and decodes back to
      the payload; the size attribute reads back as the size. */
  lemma PayloadTextDecodes(payload: seq<Byte>, size: nat)
    ensures RemoveWhitespace(PayloadText(payload)) == HexDigits(payload)
    ensures DecodeHex(RemoveWhitespace(PayloadText(payload))) == Some(payload)
    ensures DecimalValue(Decimal(size)) == size
  {
    PayloadTextDigits(payload);
    DecodeHexDigits(payload);
    DecimalRoundTrip(size);
  }

  lemma PayloadTextDigits(payload: seq<Byte>)
    ensures RemoveWhitespace(PayloadText(payload)) == HexDigits(payload)
  {
    var lead := Lead(|payload|);
    var trail := Trail(|payload|);
    var body := Layout(payload, ROW, GROUP);
    BreaksBlank(|payload|);
    LayoutDigits(payload, ROW, GROUP);
    RemoveWhitespaceAppend(lead, body);
    assert RemoveWhitespace(lead + body) == HexDigits(payload);
    RemoveWhitespaceAppend(lead + body, trail);
  }

  /** The line breaks around a long payload are whitespace only. */
  lemma BreaksBlank(n: nat)
    ensures RemoveWhitespace(Lead(n)) == "" && RemoveWhitespace(Trail(n)) == ""
  {
    Blank(Lead(n));
    Blank(Trail(n));
  }

  /** Text made only of whitespace disappears when whitespace is deleted. */
  lemma Blank(s: string)
    requires forall i :: 0 <= i < |s| ==> IsWhitespace(s[i])
    ensures RemoveWhitespace(s) == ""
  {
    if s != [] {
      Blank(s[..|s| - 1]);
    }
  }

  /** `Subrecord::to_xml`: `data` is the record's bytes; the subrecord's range in it must be in
      bounds, or the slice panics. */
  method SubrecordToXml(sub: Subrecord, data: seq<Byte>, xml: string) returns (out: string)
    requires |data| < U32_LIMIT && sub.start + SUBRECORD_HEAD + sub.size <= |data|
    ensures out == xml + SubrecordTextOf(data, sub)
  {
    hide EncodeTag, OpenTag, CloseTag, Layout;
    var range := SubrecordRange(sub);
    var window := data[range.0 .. range.1];
    var tag := XmlTag(window[..4]);
    var payload := window[SUBRECORD_HEAD..];
    var lead := if |payload| > ROW then "\n" else "";
    var hex := FormatBytes(payload, ROW, GROUP);
    var trail := if |payload| > ROW then "\n  " else "";
    assert window[..4] == data[sub.start .. sub.start + 4];
    assert lead + hex + trail == PayloadText(payload);
    out := xml + ("  " + OpenTag(tag, sub.size) + ">" + (lead + hex + trail) + CloseTag(tag));
  }

  /** Any flag byte set. */
  predicate AnyFlag(flags: seq<Byte>) {
    exists k :: 0 <= k < |flags| && flags[k] != 0
  }

  /** The `flags` attribute: present only when some flag byte is set, written as plain digits. */
  function FlagsAttribute(flags: seq<Byte>): string {
    if AnyFlag(flags) then " flags=\"" + Layout(flags, 0, 0) + "\"" else ""
  }

  /** A closing tag and its line break. */
  function CloseTag(tag: string): string {
    "</" + tag + ">\n"
  }

  /** A record's opening tag: name, size and, when set, flags. */
  function RecordHead(tag: string, size: nat, flags: seq<Byte>): string {
    OpenTag(tag, size) + FlagsAttribute(flags) + ">\n"
  }

  /** The text `Record::to_xml` appends around its subrecords' text. */
  function RecordText(tag: string, size: nat, flags: seq<Byte>, inner: string): string {
    RecordHead(tag, size, flags) + inner + CloseTag(tag)
  }

  /** The flags attribute holds exactly the hex digits of the flag bytes and reads back as them. */
  lemma FlagsTextDecodes(flags: seq<Byte>)
    ensures Layout(flags, 0, 0) == HexDigits(flags)
    ensures DecodeHex(Layout(flags, 0, 0)) == Some(flags)
  {
    LayoutUnseparated(flags);
    DecodeHexDigits(flags);
  }

  /** Every subrecord lies within the first `n` bytes. */
  ghost predicate FitIn(subs: seq<Subrecord>, n: nat) {
    forall i :: 0 <= i < |subs| ==> subs[i].start + SUBRECORD_HEAD + subs[i].size <= n
  }

  /** Every subrecord lies inside the record's header-plus-body window. */
  ghost predicate SubrecordsFit(rec: Record) {
    FitIn(rec.subrecords, RECORD_HEAD + rec.size)
  }

  /** The text of one subrecord of a record window. */
  function SubrecordTextOf(window: seq<Byte>, sub: Subrecord): string
    requires sub.start + SUBRECORD_HEAD + sub.size <= |window|
  {
    SubrecordText(EncodeTag(window[sub.start .. sub.start + 4]), sub.size,
                  window[sub.start + SUBRECORD_HEAD .. sub.start + SUBRECORD_HEAD + sub.size])
  }

  /** The subrecords' text, in order. */
  function SubrecordsText(window: seq<Byte>, subs: seq<Subrecord>): string
    requires FitIn(subs, |window|)
  {
    if subs == [] then ""
    else SubrecordsText(window, subs[..|subs| - 1]) + SubrecordTextOf(window, subs[|subs| - 1])
  }

  /** The whole text of one record lying in the buffer. */
  function RecordTextOf(data: seq<Byte>, rec: Record): string
    requires rec.start + RECORD_HEAD + rec.size <= |data| && SubrecordsFit(rec)
  {
    var window := data[rec.start .. rec.start + RECORD_HEAD + rec.size];
    RecordText(EncodeTag(window[..4]), rec.size, window[8..16], SubrecordsText(window, rec.subrecords))
  }

  /** The `flags` attribute of `Record::to_xml`, written only when a flag byte is set. */
  method FlagsXml(flags: seq<Byte>) returns (attribute: string)
    ensures attribute == FlagsAttribute(flags)
    ensures AnyFlag(flags) <==> attribute != ""
  {
    attribute := "";
    if exists k :: 0 <= k < |flags| && flags[k] != 0 {
      var hex := FormatBytes(flags, 0, 0);
      attribute := " flags=\"" + hex + "\"";
    }
  }

  lemma RecordTextOfWindow(data: seq<Byte>, rec: Record, window: seq<Byte>)
    requires rec.start + RECORD_HEAD + rec.size <= |data| && SubrecordsFit(rec)
    requires window == data[rec.start .. rec.start + RECORD_HEAD + rec.size]
    ensures RecordTextOf(data, rec) ==
            RecordText(EncodeTag(window[..4]), rec.size, window[8..16], SubrecordsText(window, rec.subrecords))
  {
    hide RecordText, EncodeTag, SubrecordsText;
  }

  /** `Record::to_xml`: the record's range must lie in the buffer and every subrecord in the
      record's range, or a slice panics. */
  method RecordToXml(rec: Record, data: seq<Byte>, xml: string) returns (out: string)
    requires |data| < U32_LIMIT && rec.start + RECORD_HEAD + rec.size <= |data| && SubrecordsFit(rec)
    ensures out == xml + RecordTextOf(data, rec)
  {
    hide SubrecordTextOf, EncodeTag, FlagsAttribute, OpenTag, RecordTextOf;
    var range := RecordRange(rec);
    var window := data[range.0 .. range.1];
    assert window == data[rec.start .. rec.start + RECORD_HEAD + rec.size];
    var tag := XmlTag(window[..4]);
    var flags := window[8..16];
    var attribute := FlagsXml(flags);
    var head := OpenTag(tag, rec.size) + attribute + ">\n";
    assert head == RecordHead(tag, rec.size, flags);
    out := xml + head;
    assert |window| == RECORD_HEAD + rec.size;
    for i := 0 to |rec.subrecords|
      invariant FitIn(rec.subrecords[..i], |window|)
      invariant out == xml + head + SubrecordsText(window, rec.subrecords[..i])
    {
      ghost var done := SubrecordsText(window, rec.subrecords[..i]);
      assert rec.subrecords[..i + 1][..i] == rec.subrecords[..i];
      assert rec.subrecords[..i + 1][i] == rec.subrecords[i];
      assert FitIn(rec.subrecords[..i + 1], |window|);
      assert SubrecordsText(window, rec.subrecords[..i + 1]) == done + SubrecordTextOf(window, rec.subrecords[i]);
      out := SubrecordToXml(rec.subrecords[i], window, out);
      AppendAssoc(xml + head, done, SubrecordTextOf(window, rec.subrecords[i]));
    }
    assert rec.subrecords[..|rec.subrecords|] == rec.subrecords;
    out := out + CloseTag(tag);
    ghost var inner := SubrecordsText(window, rec.subrecords);
    RecordTextOfWindow(data, rec, window);
    assert RecordTextOf(data, rec) == RecordText(tag, rec.size, flags, inner);
    AppendAssoc(xml, head, inner);
    AppendAssoc(xml, head + inner, CloseTag(tag));
  }

  /** Every record lies in the buffer and holds its subrecords: what rendering needs. */
  ghost predicate Renderable(file: File) {
    |file.data| < U32_LIMIT &&
    forall i :: 0 <= i < |file.records| ==>
      file.records[i].start + RECORD_HEAD + file.records[i].size <= |file.data| && SubrecordsFit(file.records[i])
  }

  /** The first `n` records' text, in order. */
  function RecordsText(file: File, n: nat): string
    requires Renderable(file) && n <= |file.records|
  {
    if n == 0 then "" else RecordsText(file, n - 1) + RecordTextOf(file.data, file.records[n - 1])
  }

  const ROOT_OPEN: string := "<CHIM>\n"
  const ROOT_CLOSE: string := "</CHIM>\n"

  /** `File::to_xml`: every record in buffer order inside one `CHIM` root element. */
  method FileToXml(file: File) returns (xml: string)
    requires Renderable(file)
    ensures xml == ROOT_OPEN + RecordsText(file, |file.records|) + ROOT_CLOSE
  {
    hide RecordTextOf;
    xml := ROOT_OPEN;
    for i := 0 to |file.records|
      invariant xml == ROOT_OPEN + RecordsText(file, i)
    {
      ghost var piece := RecordTextOf(file.data, file.records[i]);
      assert RecordsText(file, i + 1) == RecordsText(file, i) + piece;
      xml := RecordToXml(file.records[i], file.data, xml);
      AppendAssoc(ROOT_OPEN, RecordsText(file, i), piece);
    }
    xml := xml + ROOT_CLOSE;
  }

  /** A binary file whose records' subrecords exactly fill their bodies can be rendered. */
  lemma ExactFileRenderable(data: seq<Byte>, recs: seq<Record>)
    requires |data| < U32_LIMIT && RecordIndex(data, 0, recs)
    requires forall i :: 0 <= i < |recs| ==> FramedLength(recs[i].subrecords) == recs[i].size
    ensures Renderable(File(data, recs))
  {
    forall i | 0 <= i < |recs|
      ensures recs[i].start + RECORD_HEAD + recs[i].size <= |data| && SubrecordsFit(recs[i])
    {
      var rec := recs[i];
      var window := data[rec.start..];
      ParseRecordIff(window, rec.start, rec);
      forall j | 0 <= j < |rec.subrecords|
        ensures rec.subrecords[j].start + SUBRECORD_HEAD + rec.subrecords[j].size <= RECORD_HEAD + rec.size
      {
        FramedPrefix(rec.subrecords, j);
      }
    }
  }

  /** A subrecord ends where the framed length of those up to it ends. */
  lemma FramedPrefix(subs: seq<Subrecord>, j: nat)
    requires j < |subs|
    ensures FramedLength(subs[..j]) + SUBRECORD_HEAD + subs[j].size <= FramedLength(subs)
  {
    assert subs == subs[..j] + ([subs[j]] + subs[j + 1..]);
    FramedLengthAppend(subs[..j], [subs[j]] + subs[j + 1..]);
    assert ([subs[j]] + subs[j + 1..])[1..] == subs[j + 1..];
  }
}
