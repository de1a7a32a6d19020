/** Corrected definitions for the places where the converter evidently does not do what it
    means to, each beside a lemma that exhibits the discrepancy in the definition as written. */
module Corrections {
  import opened Wire
  import opened Wrappers
  import TagCodec
  import opened Chunks

  /** A tag whose hex name the converter cannot read back: byte 10 is written as 'K', byte 9
      as '9', and the decoder refuses both characters. */
  lemma TagNameUnreadable()
    ensures TagCodec.DecodeTag(TagCodec.TagName([0, 0, 0, 10])) == None
    ensures TagCodec.DecodeTag(TagCodec.TagName([0, 0, 0, 9])) == None
  {
    var ten: seq<Byte> := [0, 0, 0, 10];
    var nine: seq<Byte> := [0, 0, 0, 9];
    assert !TagCodec.IsTagByte(ten[0]) && !TagCodec.IsTagByte(nine[0]);
    assert !TagCodec.LowHalves(ten) by { assert ten[3] % 16 == 10; }
    assert !TagCodec.LowHalves(nine) by { assert nine[3] % 16 == 9; }
    TagCodec.TagRoundTrip(ten);
    TagCodec.TagRoundTrip(nine);
  }

  /** A hexadecimal digit as intended: 'A' to 'F' for 10 to 15. */
  function HexChar(halfByte: nat): (c: char)
    requires halfByte < 16
    ensures halfByte < 10 ==> c as nat == '0' as nat + halfByte
    ensures 10 <= halfByte ==> c as nat == 'A' as nat + halfByte - 10
  {
    (halfByte + if halfByte < 10 then 0x30 else 0x37) as char
  }

  /** Two corrected hex digits per byte, high half first. */
  function HexDigits(data: seq<Byte>): (r: seq<Byte>)
    ensures |r| == 2 * |data|
    ensures forall k :: 0 <= k < |data| ==>
      r[2 * k] == HexChar(data[k] / 16) as nat && r[2 * k + 1] == HexChar(data[k] % 16) as nat
  {
    var r := seq(2 * |data|, i requires 0 <= i < 2 * |data| =>
      HexChar(if i % 2 == 0 then data[i / 2] / 16 else data[i / 2] % 16) as nat);
    assert forall k :: 0 <= k < |data| ==> (2 * k) / 2 == k && (2 * k + 1) / 2 == k;
    r
  }

  /** The element name of a tag with the corrected digits, as bytes. */
  function TagName(data: seq<Byte>): (r: seq<Byte>)
    ensures TagCodec.IsPlainTag(data) ==> r == data
    ensures !TagCodec.IsPlainTag(data) ==> r == HexDigits(data)
  {
    if TagCodec.IsPlainTag(data) then data else HexDigits(data)
  }

  /** The digits the decoder means to accept: 0-9, A-F and a-f, ends included. */
  predicate IsTagDigit(c: Byte) {
    ('0' as nat <= c <= '9' as nat) || ('A' as nat <= c <= 'F' as nat) || ('a' as nat <= c <= 'f' as nat)
  }

  function DigitValue(c: Byte): (v: nat)
    requires IsTagDigit(c)
    ensures v < 16
  {
    if c < 'A' as nat then c - '0' as nat
    else if c < 'a' as nat then c - 'A' as nat + 10
    else c - 'a' as nat + 10
  }

  /** `xml_tag_to_bytes` with inclusive digit ranges. */
  function DecodeTag(name: seq<Byte>): (r: Option<seq<Byte>>)
    ensures r.Some? ==> |r.value| == 4
  {
    if |name| == 4 then Some(name)
    else if |name| == 8 && forall k :: 0 <= k < 8 ==> IsTagDigit(name[k]) then
      Some(seq(4, j requires 0 <= j < 4 => 16 * DigitValue(name[2 * j]) + DigitValue(name[2 * j + 1])))
    else None
  }

  /** Each corrected digit is accepted and read back as its value. */
  lemma DigitOfHexChar(halfByte: nat)
    requires halfByte < 16
    ensures IsTagDigit(HexChar(halfByte) as nat) && DigitValue(HexChar(halfByte) as nat) == halfByte
  {
  }

  /** The corrected hex digits of every 4-byte tag decode back to it. */
  lemma HexDigitsRoundTrip(data: seq<Byte>)
    requires |data| == 4
    ensures DecodeTag(HexDigits(data)) == Some(data)
  {
    var name := HexDigits(data);
    forall k | 0 <= k < 4
      ensures IsTagDigit(name[2 * k]) && DigitValue(name[2 * k]) == data[k] / 16
      ensures IsTagDigit(name[2 * k + 1]) && DigitValue(name[2 * k + 1]) == data[k] % 16
    {
      DigitOfHexChar(data[k] / 16);
      DigitOfHexChar(data[k] % 16);
    }
    forall i | 0 <= i < 8 ensures IsTagDigit(name[i]) {
      var k := i / 2;
      assert i == 2 * k || i == 2 * k + 1;
    }
    var d := DecodeTag(name).value;
    forall j | 0 <= j < 4 ensures d[j] == data[j] {
      assert d[j] == 16 * DigitValue(name[2 * j]) + DigitValue(name[2 * j + 1]);
    }
    assert d == data;
  }

  /** With both corrections, every 4-byte tag reads back from its name. */
  lemma TagRoundTrip(data: seq<Byte>)
    requires |data| == 4
    ensures DecodeTag(TagName(data)) == Some(data)
  {
    if !TagCodec.IsPlainTag(data) {
      HexDigitsRoundTrip(data);
    }
  }

  const UNDERSCORE: Byte := 0x5F

  /** An element name for every tag: a plain tag that starts with a letter or '_' as it is,
      any other tag as '_' followed by its corrected hex digits. */
  function XmlName(data: seq<Byte>): (r: seq<Byte>)
    requires |data| == 4
    ensures |r| == 4 || (|r| == 9 && r[0] == UNDERSCORE)
  {
    if TagCodec.IsPlainTag(data) && TagCodec.IsNameStart(data[0]) then data
    else [UNDERSCORE] + HexDigits(data)
  }

  /** A 4-byte name is the tag; a 9-byte name after a leading '_' holds its hex digits. */
  function DecodeXmlName(name: seq<Byte>): (r: Option<seq<Byte>>)
    ensures r.Some? ==> |r.value| == 4
    ensures |name| == 4 ==> r == Some(name)
  {
    if |name| == 4 then Some(name)
    else if |name| == 9 && name[0] == UNDERSCORE then DecodeTag(name[1..])
    else None
  }

  /** Every 4-byte tag gets a name the markup parser accepts, and that name decodes back to it. */
  lemma XmlNameRoundTrip(data: seq<Byte>)
    requires |data| == 4
    ensures TagCodec.IsXmlName(XmlName(data))
    ensures DecodeXmlName(XmlName(data)) == Some(data)
  {
    var name := XmlName(data);
    if !(TagCodec.IsPlainTag(data) && TagCodec.IsNameStart(data[0])) {
      var hex := HexDigits(data);
      assert name[1..] == hex;
      HexDigitsRoundTrip(data);
      forall i | 0 <= i < 8 ensures TagCodec.IsNameByte(hex[i]) {
        var k := i / 2;
        assert i == 2 * k || i == 2 * k + 1;
      }
      forall i | 0 <= i < 9 ensures TagCodec.IsNameByte(name[i]) {
        if i > 0 { assert name[i] == hex[i - 1]; }
      }
    }
  }

  /** A record whose only subrecord runs past the record's body: a 4-byte body holding an
      8-byte subrecord header. `Record::new` accepts it, because it checks the subrecord
      against the rest of the buffer rather than the record. */
  const OVERRUN: seq<Byte> :=
    [0x54, 0x45, 0x53, 0x33, 4, 0, 0, 0, 0, 0, 0, 0, 0, 0, 0, 0,
     0x44, 0x41, 0x54, 0x41, 0, 0, 0, 0]

  lemma RecordOverrun()
    ensures ParseRecord(OVERRUN, 0) == Ok(Record(0, 4, [Subrecord(16, 0)]))
    ensures FramedLength([Subrecord(16, 0)]) > 4
    ensures ParseRecordBounded(OVERRUN, 0).Err?
  {
    var subs := [Subrecord(16, 0)];
    assert subs[..0] == [];
    assert OVERRUN[4..8] == [4, 0, 0, 0];
    assert OVERRUN[20..24] == [0, 0, 0, 0];
    assert FramedLength(subs) == 8 by { assert subs[1..] == []; }
    assert SubrecordIndex(OVERRUN, RECORD_HEAD, RECORD_HEAD + 4, subs);
    ParseRecordIff(OVERRUN, 0, Record(0, 4, subs));
    assert |OVERRUN[..20][16..]| == 4;
  }

  /** `Record::new` with each subrecord checked against the record's own body. */
  function ParseRecordBounded(window: seq<Byte>, start: U32): (r: Result<Record>)
    requires |window| < U32_LIMIT
    ensures r.Ok? ==> RECORD_HEAD + r.value.size <= |window| && r.value.start == start
                      && r.value.size == ParseU32(window[4..8])
  {
    match CheckHeader(window, RECORD_HEAD)
    case Err(e) => Err(e)
    case Ok(size) =>
      match WalkSubrecords(window[..RECORD_HEAD + size], RECORD_HEAD, RECORD_HEAD + size)
      case Err(e) => Err(e)
      case Ok(subs) => Ok(Record(start, size, subs))
  }

  /** A record the bounded parse accepts is filled exactly by its subrecords, and the parse as
      written finds the same record: the correction only refuses overruns. */
  lemma BoundedRecordExact(window: seq<Byte>, start: U32)
    requires |window| < U32_LIMIT && ParseRecordBounded(window, start).Ok?
    ensures FramedLength(ParseRecordBounded(window, start).value.subrecords) == ParseRecordBounded(window, start).value.size
    ensures ParseRecord(window, start) == ParseRecordBounded(window, start)
  {
    var rec := ParseRecordBounded(window, start).value;
    var end := RECORD_HEAD + rec.size;
    var body := window[..end];
    WalkIsIndex(body, RECORD_HEAD, end);
    IndexEnd(body, RECORD_HEAD, end, rec.subrecords);
    forall i | 0 <= i < |rec.subrecords| ensures HeldAt(window, rec.subrecords[i]) {
      var sub := rec.subrecords[i];
      assert HeldAt(body, sub);
      assert body[sub.start + 4 .. sub.start + 8] == window[sub.start + 4 .. sub.start + 8];
    }
    assert RecordAt(window, start, rec);
    ParseRecordIff(window, start, rec);
  }
}
