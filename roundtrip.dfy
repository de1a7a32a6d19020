/** The framing round trip: a binary buffer rendered as markup and rebuilt from the element
    tree comes back with every tag and size where it was, flags and payloads zeroed. The
    element tree stands for what the markup parser reads from the rendered text: each element
    carries the rendered name and the size written in its attribute. */
module RoundTrip {
  import opened Wire
  import opened Wrappers
  import opened TagCodec
  import opened Chunks
  import opened Rebuild
  import opened Container
  import opened Render

  /** A tag whose rendered name the markup parser accepts and the decoder reads back: a plain
      tag that starts with a letter or '_' (see `TagCodec.NameReadIff`). */
  predicate Readable(tag: seq<Byte>) {
    IsPlainTag(tag) && |tag| > 0 && IsNameStart(tag[0])
  }

  /** Every subrecord tag in the window is readable. */
  ghost predicate SubTagsReadable(window: seq<Byte>, subs: seq<Subrecord>) {
    forall i :: 0 <= i < |subs| && subs[i].start + 4 <= |window| ==>
      Readable(window[subs[i].start .. subs[i].start + 4])
  }

  /** The element a rendered subrecord is read back as: its name, its size and, when the
      payload is not empty, the payload's text. */
  function SubElement(name: seq<Byte>, size: nat): (n: Node)
    ensures n.Element? && n.name == name && n.size == Some(size)
  {
    Element(name, Some(size), if size == 0 then [] else [Text])
  }

  /** The names the subrecords' tags are rendered as, in order. */
  function SubNames(window: seq<Byte>, subs: seq<Subrecord>): (r: seq<seq<Byte>>)
    requires FitIn(subs, |window|)
    ensures |r| == |subs|
  {
    seq(|subs|, i requires 0 <= i < |subs| => TagName(window[subs[i].start .. subs[i].start + 4]))
  }

  /** The elements of subrecords with the given names. */
  function SubElements(names: seq<seq<Byte>>, subs: seq<Subrecord>): (r: seq<Node>)
    requires |names| == |subs|
    ensures |r| == |subs|
  {
    if subs == [] then [] else [SubElement(names[0], subs[0].size)] + SubElements(names[1..], subs[1..])
  }

  /** Each name decodes to the tag in the window. */
  ghost predicate NamesDecode(window: seq<Byte>, subs: seq<Subrecord>, names: seq<seq<Byte>>)
    requires |names| == |subs|
  {
    forall i :: 0 <= i < |subs| && subs[i].start + 4 <= |window| ==>
      DecodeTag(names[i]) == Some(window[subs[i].start .. subs[i].start + 4])
  }

  /** The rendered names of readable tags decode to the tags. */
  lemma SubNamesDecode(window: seq<Byte>, subs: seq<Subrecord>)
    requires FitIn(subs, |window|) && SubTagsReadable(window, subs)
    ensures NamesDecode(window, subs, SubNames(window, subs))
  {
    forall i | 0 <= i < |subs|
      ensures DecodeTag(SubNames(window, subs)[i]) == Some(window[subs[i].start .. subs[i].start + 4])
    {
      TagRoundTrip(window[subs[i].start .. subs[i].start + 4]);
    }
  }

  /** What the rebuilder writes for a subrecord: its header as it was, then zeros. */
  function SubSkeleton(window: seq<Byte>, subs: seq<Subrecord>): seq<Byte>
    requires FitIn(subs, |window|)
  {
    if subs == [] then []
    else window[subs[0].start .. subs[0].start + SUBRECORD_HEAD] + Zeros(subs[0].size) + SubSkeleton(window, subs[1..])
  }

  /** Subrecord offsets moved by `delta` in 32 bits. */
  function Shift(subs: seq<Subrecord>, delta: nat): (r: seq<Subrecord>)
    ensures |r| == |subs|
  {
    if subs == [] then [] else [Subrecord(Wrap32(delta + subs[0].start), subs[0].size)] + Shift(subs[1..], delta)
  }

  /** The first step of a successful walk. */
  lemma WalkFront(window: seq<Byte>, offset: nat, end: nat, subs: seq<Subrecord>)
    requires |window| < U32_LIMIT && offset <= |window|
    requires WalkSubrecords(window, offset, end) == Ok(subs) && subs != []
    ensures offset < end && SubrecordNew(window[offset..], offset) == Ok(subs[0])
    ensures offset + SUBRECORD_HEAD + subs[0].size <= |window|
    ensures WalkSubrecords(window, offset + SUBRECORD_HEAD + subs[0].size, end) == Ok(subs[1..])
    ensures subs[0].start == offset && subs[0].size == ParseU32(window[offset + 4 .. offset + 8])
  {
    assert window[offset..][4..8] == window[offset + 4 .. offset + 8];
  }

  /** The first name decodes to the first tag, and the rest of the names to the rest. */
  lemma NamesDecodeFront(window: seq<Byte>, subs: seq<Subrecord>, names: seq<seq<Byte>>)
    requires subs != [] && |names| == |subs| && FitIn(subs, |window|) && NamesDecode(window, subs, names)
    ensures DecodeTag(names[0]) == Some(window[subs[0].start .. subs[0].start + 4])
    ensures FitIn(subs[1..], |window|) && NamesDecode(window, subs[1..], names[1..])
  {
    forall i | 0 <= i < |subs[1..]| ensures subs[1..][i] == subs[i + 1] && names[1..][i] == names[i + 1] { }
  }

  /** The rebuilder's step over an element that rebuilds, in front of children that rebuild. */
  lemma SubrecordsImageCons(node: Node, more: seq<Node>, base: nat, sub: Subrecord, img: seq<Byte>, next: nat,
                            subs: seq<Subrecord>, bytes: seq<Byte>)
    requires node.Element? && SubrecordImage(node, base) == Ok((sub, img))
    requires next == base + |img| && SubrecordsImage(more, next) == Ok((subs, bytes))
    ensures SubrecordsImage([node] + more, base) == Ok(([sub] + subs, img + bytes))
  {
    assert ([node] + more)[1..] == more;
  }

  /** The rebuilt image of one subrecord element whose name decodes to `tag`. */
  lemma SubrecordImageOf(name: seq<Byte>, tag: seq<Byte>, size: U32, base: nat)
    requires DecodeTag(name) == Some(tag)
    ensures SubrecordImage(SubElement(name, size), base) ==
            Ok((Subrecord(Wrap32(base), size), tag + LeBytes(size) + Zeros(size)))
  {
  }

  /** The header bytes of a subrecord the walk found are its tag and its size. */
  lemma HeaderBytes(window: seq<Byte>, offset: nat, size: U32)
    requires offset + SUBRECORD_HEAD <= |window|
    requires size == ParseU32(window[offset + 4 .. offset + 8])
    ensures window[offset .. offset + 4] + LeBytes(size) == window[offset .. offset + SUBRECORD_HEAD]
  {
    LeBytesOfParse(window[offset + 4 .. offset + 8]);
  }

  lemma ElementsFront(names: seq<seq<Byte>>, subs: seq<Subrecord>)
    requires subs != [] && |names| == |subs|
    ensures SubElements(names, subs) == [SubElement(names[0], subs[0].size)] + SubElements(names[1..], subs[1..])
  {
  }

  lemma SkeletonFront(window: seq<Byte>, subs: seq<Subrecord>, offset: nat)
    requires subs != [] && FitIn(subs, |window|) && subs[0].start == offset
    ensures SubSkeleton(window, subs) ==
            window[offset .. offset + SUBRECORD_HEAD] + Zeros(subs[0].size) + SubSkeleton(window, subs[1..])
  {
  }

  lemma ShiftFront(subs: seq<Subrecord>, delta: nat, base: nat)
    requires subs != [] && base == delta + subs[0].start
    ensures Shift(subs, delta) == [Subrecord(Wrap32(base), subs[0].size)] + Shift(subs[1..], delta)
  {
  }

  /** The first subrecord, at `offset`, in front of others that rebuild: its image comes first. */
  lemma SubrecordStep(window: seq<Byte>, subs: seq<Subrecord>, names: seq<seq<Byte>>, delta: nat, offset: nat,
                      base: nat, next: nat)
    requires subs != [] && |names| == |subs| && FitIn(subs, |window|) && subs[0].start == offset
    requires base == delta + offset && next == base + SUBRECORD_HEAD + subs[0].size
    requires subs[0].size == ParseU32(window[offset + 4 .. offset + 8])
    requires DecodeTag(names[0]) == Some(window[offset .. offset + 4])
    requires SubrecordsImage(SubElements(names[1..], subs[1..]), next) ==
             Ok((Shift(subs[1..], delta), SubSkeleton(window, subs[1..])))
    ensures SubrecordsImage(SubElements(names, subs), base) == Ok((Shift(subs, delta), SubSkeleton(window, subs)))
  {
    hide SubrecordsImage, SubrecordImage, DecodeTag, SubElements, SubElement, SubSkeleton, Shift, ParseU32, LeBytes;
    var size := subs[0].size;
    var tag := window[offset .. offset + 4];
    var img := window[offset .. offset + SUBRECORD_HEAD] + Zeros(size);
    SubrecordImageOf(names[0], tag, size, base);
    HeaderBytes(window, offset, size);
    ElementsFront(names, subs);
    SkeletonFront(window, subs, offset);
    ShiftFront(subs, delta, base);
    SubrecordsImageCons(SubElement(names[0], size), SubElements(names[1..], subs[1..]), base,
                        Subrecord(Wrap32(base), size), img, next, Shift(subs[1..], delta), SubSkeleton(window, subs[1..]));
  }

  /** Rebuilding the elements of subrecords the walk found from `offset`, named so that each name
      decodes to its tag, writes their headers back with zero payloads at `base`; each rebuilt
      subrecord sits `delta` further on than it did. */
  lemma {:induction false} SubrecordsRoundTrip(window: seq<Byte>, offset: nat, end: nat, subs: seq<Subrecord>,
                                               names: seq<seq<Byte>>, delta: nat, base: nat)
    requires FitIn(subs, |window|) && |window| < U32_LIMIT && offset <= |window| && base == delta + offset
    requires WalkSubrecords(window, offset, end) == Ok(subs)
    requires |names| == |subs| && NamesDecode(window, subs, names)
    ensures SubrecordsImage(SubElements(names, subs), base) == Ok((Shift(subs, delta), SubSkeleton(window, subs)))
    decreases |subs|
  {
    if subs != [] {
      hide SubrecordsImage, DecodeTag, ParseU32, SubElements, SubSkeleton, Shift, FitIn, NamesDecode,
           WalkSubrecords, SubrecordNew;
      WalkFront(window, offset, end, subs);
      NamesDecodeFront(window, subs, names);
      var next := offset + SUBRECORD_HEAD + subs[0].size;
      var nextBase := base + SUBRECORD_HEAD + subs[0].size;
      SubrecordsRoundTrip(window, next, end, subs[1..], names[1..], delta, nextBase);
      SubrecordStep(window, subs, names, delta, offset, base, nextBase);
    }
  }

  /** A record whose subrecords fill its body exactly, as a well-formed plugin's do. */
  predicate Exact(rec: Record) {
    FramedLength(rec.subrecords) == rec.size
  }

  /** The record's header and its subrecords lie in the buffer from the record's start. */
  ghost predicate InBuffer(data: seq<Byte>, rec: Record) {
    rec.start + RECORD_HEAD <= |data| && FitIn(rec.subrecords, |data| - rec.start)
  }

  ghost predicate AllInBuffer(data: seq<Byte>, recs: seq<Record>) {
    forall i :: 0 <= i < |recs| ==> InBuffer(data, recs[i])
  }

  /** The record's tag and all its subrecords' tags are readable, and it is exact. */
  ghost predicate Convertible(data: seq<Byte>, rec: Record) {
    rec.start + 4 <= |data| && Exact(rec) &&
    Readable(data[rec.start .. rec.start + 4]) && SubTagsReadable(data[rec.start..], rec.subrecords)
  }

  ghost predicate AllConvertible(data: seq<Byte>, recs: seq<Record>) {
    forall i :: 0 <= i < |recs| ==> Convertible(data, recs[i])
  }

  /** The element a rendered record is read back as: its name, its size and its subrecords'
      elements (the text between them is skipped by the rebuilder and left out). */
  function RecordElement(data: seq<Byte>, rec: Record): (n: Node)
    requires InBuffer(data, rec)
    ensures n.Element? && n.size == Some(rec.size) && |n.children| == |rec.subrecords|
  {
    var window := data[rec.start..];
    Element(TagName(window[..4]), Some(rec.size), SubElements(SubNames(window, rec.subrecords), rec.subrecords))
  }

  function RecordElements(data: seq<Byte>, recs: seq<Record>): (r: seq<Node>)
    requires AllInBuffer(data, recs)
    ensures |r| == |recs|
  {
    if recs == [] then [] else [RecordElement(data, recs[0])] + RecordElements(data, recs[1..])
  }

  /** What the rebuilder writes for a record: its tag and size as they were, zero flags, then
      its subrecords' headers with zero payloads. */
  function RecordSkeleton(data: seq<Byte>, rec: Record): seq<Byte>
    requires InBuffer(data, rec)
  {
    var window := data[rec.start..];
    window[..8] + Zeros(8) + SubSkeleton(window, rec.subrecords)
  }

  function Skeleton(data: seq<Byte>, recs: seq<Record>): seq<Byte>
    requires AllInBuffer(data, recs)
  {
    if recs == [] then [] else RecordSkeleton(data, recs[0]) + Skeleton(data, recs[1..])
  }

  /** A record as rebuilt: same start and size, subrecord offsets counted from the start of the
      buffer rather than of the record. */
  function Rebased(rec: Record): (r: Record)
    ensures r.start == rec.start && r.size == rec.size && |r.subrecords| == |rec.subrecords|
  {
    Record(rec.start, rec.size, Shift(rec.subrecords, rec.start))
  }

  function AllRebased(recs: seq<Record>): (r: seq<Record>)
    ensures |r| == |recs|
  {
    if recs == [] then [] else [Rebased(recs[0])] + AllRebased(recs[1..])
  }

  /** The subrecord skeleton is as long as the subrecords' framing. */
  lemma {:induction false} SubSkeletonLength(window: seq<Byte>, subs: seq<Subrecord>)
    requires FitIn(subs, |window|)
    ensures |SubSkeleton(window, subs)| == FramedLength(subs)
    decreases |subs|
  {
    if subs != [] {
      assert FitIn(subs[1..], |window|) by {
        forall i | 0 <= i < |subs[1..]| ensures subs[1..][i] == subs[i + 1] { }
      }
      SubSkeletonLength(window, subs[1..]);
    }
  }

  /** A record read from the buffer lies in it. */
  lemma ParsedInBuffer(data: seq<Byte>, rec: Record)
    requires |data| < U32_LIMIT && rec.start <= |data|
    requires ParseRecord(data[rec.start..], rec.start) == Ok(rec)
    ensures InBuffer(data, rec)
    ensures WalkSubrecords(data[rec.start..], RECORD_HEAD, RECORD_HEAD + rec.size) == Ok(rec.subrecords)
  {
    var window := data[rec.start..];
    ParseRecordIff(window, rec.start, rec);
    forall i | 0 <= i < |rec.subrecords|
      ensures rec.subrecords[i].start + SUBRECORD_HEAD + rec.subrecords[i].size <= |window|
    {
      assert HeldAt(window, rec.subrecords[i]);
    }
  }

  /** Rebuilding the element of a convertible record read at its start writes its skeleton and
      records it rebased. */
  lemma RecordImageOf(data: seq<Byte>, rec: Record)
    requires |data| < U32_LIMIT && rec.start <= |data|
    requires ParseRecord(data[rec.start..], rec.start) == Ok(rec) && Convertible(data, rec)
    ensures InBuffer(data, rec)
    ensures RecordImage(RecordElement(data, rec), rec.start) == Ok((Rebased(rec), RecordSkeleton(data, rec)))
    ensures |RecordSkeleton(data, rec)| == RECORD_HEAD + rec.size
  {
    hide SubrecordsImage, SubElements, SubSkeleton, Shift, DecodeTag, TagName, LeBytes, ParseU32, SubNames,
         ParseRecord, WalkSubrecords, RecordImage, FramedLength, NamesDecode, SubTagsReadable;
    ParsedInBuffer(data, rec);
    var window := data[rec.start..];
    var subs := rec.subrecords;
    var size := rec.size;
    assert window[..4] == data[rec.start .. rec.start + 4];
    var names := SubNames(window, subs);
    SubNamesDecode(window, subs);
    SubrecordsRoundTrip(window, RECORD_HEAD, RECORD_HEAD + size, subs, names, rec.start, rec.start + RECORD_HEAD);
    SubSkeletonLength(window, subs);
    TagRoundTrip(window[..4]);
    HeaderBytes(window, 0, size);
    var node := RecordElement(data, rec);
    assert node == Element(TagName(window[..4]), Some(size), SubElements(names, subs));
    RecordImageParts(node, rec.start, window[..4], size, Shift(subs, rec.start), SubSkeleton(window, subs));
    AppendAssoc(window[..4], LeBytes(size), Zeros(8));
  }

  /** The rebuilt image of a record element from its parts. */
  lemma RecordImageParts(node: Node, base: nat, tag: seq<Byte>, size: U32, subs: seq<Subrecord>, body: seq<Byte>)
    requires node.Element? && node.size == Some(size) && DecodeTag(node.name) == Some(tag)
    requires SubrecordsImage(node.children, base + RECORD_HEAD) == Ok((subs, body))
    ensures RecordImage(node, base) == Ok((Record(Wrap32(base), size, subs), tag + LeBytes(size) + Zeros(8) + body))
  {
    hide SubrecordsImage, DecodeTag, LeBytes, ParseU32;
  }

  /** The rebuilder's step over a record element that rebuilds, in front of others that do. */
  lemma RecordsImageCons(node: Node, more: seq<Node>, base: nat, rec: Record, img: seq<Byte>, next: nat,
                         recs: seq<Record>, bytes: seq<Byte>)
    requires node.Element? && RecordImage(node, base) == Ok((rec, img))
    requires next == base + |img| && RecordsImage(more, next) == Ok((recs, bytes))
    ensures RecordsImage([node] + more, base) == Ok(([rec] + recs, img + bytes))
  {
    hide RecordImage;
    assert ([node] + more)[1..] == more;
  }

  /** Rebuilding the elements of convertible records that cover the buffer from `offset` writes
      their skeletons back to back at `offset`: every record keeps its start and its size, and
      the rebuilt buffer is exactly as long as the original. */
  lemma {:induction false} RecordsRoundTrip(data: seq<Byte>, offset: nat, recs: seq<Record>)
    requires |data| < U32_LIMIT && offset <= |data| && RecordIndex(data, offset, recs)
    requires AllConvertible(data, recs)
    ensures AllInBuffer(data, recs)
    ensures RecordsImage(RecordElements(data, recs), offset) == Ok((AllRebased(recs), Skeleton(data, recs)))
    ensures |Skeleton(data, recs)| == |data| - offset
    decreases |recs|
  {
    if recs != [] {
      hide RecordsImage, RecordImage, RecordElement, RecordSkeleton, Rebased, ParseRecord, Convertible, InBuffer,
           AllConvertible, AllInBuffer, Placed;
      var rec := recs[0];
      var next := offset + RECORD_HEAD + rec.size;
      PlacedFront(data, offset, recs, next);
      ConvertibleFront(data, recs);
      RecordImageOf(data, rec);
      RecordsRoundTrip(data, next, recs[1..]);
      InBufferCons(data, recs);
      RecordsImageCons(RecordElement(data, rec), RecordElements(data, recs[1..]), offset, Rebased(rec),
                       RecordSkeleton(data, rec), next, AllRebased(recs[1..]), Skeleton(data, recs[1..]));
    } else {
      assert offset == |data|;
    }
  }

  lemma ConvertibleFront(data: seq<Byte>, recs: seq<Record>)
    requires recs != [] && AllConvertible(data, recs)
    ensures Convertible(data, recs[0]) && AllConvertible(data, recs[1..])
  {
    hide Convertible;
    forall i | 0 <= i < |recs[1..]| ensures recs[1..][i] == recs[i + 1] { }
  }

  lemma InBufferCons(data: seq<Byte>, recs: seq<Record>)
    requires recs != [] && InBuffer(data, recs[0]) && AllInBuffer(data, recs[1..])
    ensures AllInBuffer(data, recs)
    ensures RecordElements(data, recs) == [RecordElement(data, recs[0])] + RecordElements(data, recs[1..])
    ensures Skeleton(data, recs) == RecordSkeleton(data, recs[0]) + Skeleton(data, recs[1..])
  {
    hide InBuffer, RecordElement, RecordSkeleton;
    forall i | 0 <= i < |recs| ensures InBuffer(data, recs[i]) {
      if i > 0 { assert recs[i] == recs[1..][i - 1]; }
    }
  }

  /** The root element `File::to_xml` writes. */
  const ROOT_NAME: seq<Byte> := [0x43, 0x48, 0x49, 0x4D]

  /** A binary file whose records are all convertible, rendered and read back as markup,
      rebuilds to a buffer of the same length holding every record's and subrecord's header
      where it was, with zero flags and payloads; every record keeps its start and size. */
  lemma FileRoundTrip(data: seq<Byte>, recs: seq<Record>)
    requires |data| < U32_LIMIT && BinaryFile(data) == Ok(File(data, recs)) && AllConvertible(data, recs)
    ensures AllInBuffer(data, recs)
    ensures MarkupFile(Element(ROOT_NAME, None, RecordElements(data, recs))) ==
            Ok(File(Skeleton(data, recs), AllRebased(recs)))
    ensures |Skeleton(data, recs)| == |data|
  {
    WalkRecordsIff(data, 0, recs);
    RecordsRoundTrip(data, 0, recs);
  }
}
