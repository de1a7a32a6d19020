/** The rebuilder: from a parsed markup tree back to chunk framing bytes. Payloads are not
    read back from their hex text; each payload is `size` zero bytes. */
module Rebuild {
  import opened Wire
  import opened Wrappers
  import opened TagCodec
  import opened Chunks

  /** A node of the parsed markup tree: an element with its name (the UTF-8 bytes of its tag
      name), its `size` attribute when present (already read as a number) and its children;
      or any other node, such as text. */
  datatype Node =
    | Element(name: seq<Byte>, size: Option<nat>, children: seq<Node>)
    | Text

  /** The size attribute as a u32: missing, or too large for 32 bits, is an error. */
  function SizeOf(node: Node): (r: Result<U32>)
    requires node.Element?
    ensures r.Ok? <==> node.size.Some? && node.size.value < U32_LIMIT
    ensures r.Ok? ==> r.value == node.size.value
    ensures node.size.None? ==> r == Err(MissingSize)
  {
    match node.size
    case None => Err(MissingSize)
    case Some(n) => if n < U32_LIMIT then Ok(n) else Err(InvalidSize)
  }

  /** What `Subrecord::from_xml` records and appends when the buffer holds `base` bytes: the
      decoded tag, the size, then `size` zero bytes. */
  function SubrecordImage(node: Node, base: nat): (r: Result<(Subrecord, seq<Byte>)>)
    requires node.Element?
    ensures r.Ok? <==> SizeOf(node).Ok? && DecodeTag(node.name).Some?
    ensures r.Ok? ==>
      var (sub, img) := r.value;
      sub.start == Wrap32(base) && sub.size == node.size.value &&
      |img| == SUBRECORD_HEAD + sub.size && Some(img[..4]) == DecodeTag(node.name) &&
      ParseU32(img[4..8]) == sub.size && img[8..] == Zeros(sub.size)
  {
    match SizeOf(node)
    case Err(e) => Err(e)
    case Ok(size) =>
      match DecodeTag(node.name)
      case None => Err(UnknownTag)
      case Some(tag) =>
        var img := tag + LeBytes(size) + Zeros(size);
        assert img[..4] == tag && img[4..8] == LeBytes(size) && img[8..] == Zeros(size);
        ParseLeBytes(size);
        Ok((Subrecord(Wrap32(base), size), img))
  }

  /** The subrecords of a record element: every element child in order, other children
      skipped; the first failing child fails them all. */
  function SubrecordsImage(children: seq<Node>, base: nat): (r: Result<(seq<Subrecord>, seq<Byte>)>)
    ensures r.Ok? ==> |r.value.1| == FramedLength(r.value.0)
  {
    if children == [] then Ok(([], []))
    else if !children[0].Element? then SubrecordsImage(children[1..], base)
    else
      match SubrecordImage(children[0], base)
      case Err(e) => Err(e)
      case Ok((sub, img)) =>
        match SubrecordsImage(children[1..], base + |img|)
        case Err(e) => Err(e)
        case Ok((subs, rest)) =>
          assert ([sub] + subs)[1..] == subs;
          Ok(([sub] + subs, img + rest))
  }

  /** What `Record::from_xml` records and appends: the decoded tag, the declared size and eight
      zero flag bytes, then its subrecords, whatever the declared size says. */
  function RecordImage(node: Node, base: nat): (r: Result<(Record, seq<Byte>)>)
    requires node.Element?
    ensures r.Ok? ==>
      var (rec, img) := r.value;
      node.size.Some? && rec.start == Wrap32(base) && rec.size == node.size.value &&
      |img| == RECORD_HEAD + FramedLength(rec.subrecords) && Some(img[..4]) == DecodeTag(node.name) &&
      ParseU32(img[4..8]) == rec.size && img[8..16] == Zeros(8) &&
      SubrecordsImage(node.children, base + RECORD_HEAD) == Ok((rec.subrecords, img[16..]))
  {
    match SizeOf(node)
    case Err(e) => Err(e)
    case Ok(size) =>
      match DecodeTag(node.name)
      case None => Err(UnknownTag)
      case Some(tag) =>
        var header := tag + LeBytes(size) + Zeros(8);
        match SubrecordsImage(node.children, base + RECORD_HEAD)
        case Err(e) => Err(e)
        case Ok((subs, body)) =>
          var img := header + body;
          assert img[..4] == tag && img[4..8] == LeBytes(size) && img[8..16] == Zeros(8) && img[16..] == body;
          ParseLeBytes(size);
          Ok((Record(Wrap32(base), size, subs), img))
  }

  /** The records of the root element: every element child in order. */
  function RecordsImage(children: seq<Node>, base: nat): (r: Result<(seq<Record>, seq<Byte>)>)
  {
    if children == [] then Ok(([], []))
    else if !children[0].Element? then RecordsImage(children[1..], base)
    else
      match RecordImage(children[0], base)
      case Err(e) => Err(e)
      case Ok((rec, img)) =>
        match RecordsImage(children[1..], base + |img|)
        case Err(e) => Err(e)
        case Ok((recs, rest)) => Ok(([rec] + recs, img + rest))
  }

  /** `Subrecord::from_xml`: reads the size, decodes the name, then appends to `data`. On any
      failure nothing has been appended. */
  method SubrecordFromXml(node: Node, data: seq<Byte>) returns (r: Result<Subrecord>, out: seq<Byte>)
    requires node.Element?
    ensures var image := SubrecordImage(node, |data|);
      (image.Ok? ==> r == Ok(image.value.0) && out == data + image.value.1) &&
      (image.Err? ==> r == Err(image.error) && out == data)
  {
    var size: U32;
    match node.size {
      case None =>
        return Err(MissingSize), data;
      case Some(n) =>
        if n >= U32_LIMIT {
          return Err(InvalidSize), data;
        }
        size := n;
    }
    var start: U32 := Wrap32(|data|);
    var tag := XmlTagToBytes(node.name);
    if tag.None? {
      return Err(UnknownTag), data;
    }
    out := data + tag.value;
    out := out + LeBytes(size);
    out := out + Zeros(size);
    r := Ok(Subrecord(start, size));
  }

  function JoinSubrecords(subs: seq<Subrecord>, bytes: seq<Byte>, r: Result<(seq<Subrecord>, seq<Byte>)>)
    : Result<(seq<Subrecord>, seq<Byte>)>
  {
    match r
    case Err(e) => Err(e)
    case Ok((more, moreBytes)) => Ok((subs + more, bytes + moreBytes))
  }

  /** `Record::from_xml`: reads the size, decodes the name, appends the 16-byte header, then
      each element child as a subrecord. A failing child leaves what was appended so far. */
  method RecordFromXml(node: Node, data: seq<Byte>) returns (r: Result<Record>, out: seq<Byte>)
    requires node.Element?
    ensures data <= out
    ensures var image := RecordImage(node, |data|);
      (image.Ok? ==> r == Ok(image.value.0) && out == data + image.value.1) &&
      (image.Err? ==> r == Err(image.error))
  {
    var size: U32;
    match node.size {
      case None =>
        return Err(MissingSize), data;
      case Some(n) =>
        if n >= U32_LIMIT {
          return Err(InvalidSize), data;
        }
        size := n;
    }
    var start: U32 := Wrap32(|data|);
    var tag := XmlTagToBytes(node.name);
    if tag.None? {
      return Err(UnknownTag), data;
    }
    out := data + tag.value;
    out := out + LeBytes(size);
    out := out + Zeros(8);
    ghost var header := data + tag.value + LeBytes(size) + Zeros(8);
    AppendAssoc(data + tag.value, LeBytes(size), Zeros(8));
    AppendAssoc(data, tag.value, LeBytes(size) + Zeros(8));
    assert header == data + (tag.value + LeBytes(size) + Zeros(8));
    ghost var body: seq<Byte> := [];
    var subrecords: seq<Subrecord> := [];
    ghost var whole := SubrecordsImage(node.children, |data| + RECORD_HEAD);
    JoinEmpty(whole);
    assert |out| == |data| + RECORD_HEAD;
    for i := 0 to |node.children|
      invariant out == header + body
      invariant whole == JoinSubrecords(subrecords, body, SubrecordsImage(node.children[i..], |out|))
    {
      hide SubrecordsImage, SubrecordImage, DecodeTag, LeBytes, Zeros, JoinSubrecords;
      var child := node.children[i];
      assert node.children[i..][0] == child && node.children[i..][1..] == node.children[i + 1..];
      if child.Element? {
        var sub;
        ghost var before := out;
        sub, out := SubrecordFromXml(child, out);
        if sub.Err? {
          ImageFail(node.children[i..], |before|);
          PrefixAppend(data, data + (tag.value + LeBytes(size) + Zeros(8)), body);
          return Err(sub.error), out;
        }
        ghost var img := SubrecordImage(child, |before|).value.1;
        AppendAssoc(header, body, img);
        ImageTake(node.children[i..], |before|, sub.value, img, |out|);
        JoinStep(subrecords, body, sub.value, img, SubrecordsImage(node.children[i + 1..], |out|));
        subrecords := subrecords + [sub.value];
        body := body + img;
      } else {
        ImageSkip(node.children[i..], |out|);
      }
    }
    assert node.children[|node.children|..] == [];
    assert subrecords + [] == subrecords && body + [] == body;
    assert whole == Ok((subrecords, body));
    AppendAssoc(data, tag.value + LeBytes(size) + Zeros(8), body);
    assert out == data + (tag.value + LeBytes(size) + Zeros(8) + body);
    r := Ok(Record(start, size, subrecords));
  }

  /** A child that is not an element is skipped. */
  lemma ImageSkip(children: seq<Node>, base: nat)
    requires children != [] && !children[0].Element?
    ensures SubrecordsImage(children, base) == SubrecordsImage(children[1..], base)
  {
  }

  /** An element child that does not rebuild fails the whole list. */
  lemma ImageFail(children: seq<Node>, base: nat)
    requires children != [] && children[0].Element? && SubrecordImage(children[0], base).Err?
    ensures SubrecordsImage(children, base) == Err(SubrecordImage(children[0], base).error)
  {
  }

  /** An element child that rebuilds comes first, and the rest is rebuilt after its image. */
  lemma ImageTake(children: seq<Node>, base: nat, sub: Subrecord, img: seq<Byte>, next: nat)
    requires children != [] && children[0].Element? && SubrecordImage(children[0], base) == Ok((sub, img))
    requires next == base + |img|
    ensures SubrecordsImage(children, base) == JoinSubrecords([sub], img, SubrecordsImage(children[1..], next))
  {
    hide SubrecordImage;
  }

  lemma JoinEmpty(r: Result<(seq<Subrecord>, seq<Byte>)>)
    ensures r == JoinSubrecords([], [], r)
  {
    if r.Ok? {
      assert [] + r.value.0 == r.value.0 && [] + r.value.1 == r.value.1;
    }
  }

  lemma JoinStep(subs: seq<Subrecord>, body: seq<Byte>, sub: Subrecord, img: seq<Byte>,
                 rest: Result<(seq<Subrecord>, seq<Byte>)>)
    ensures JoinSubrecords(subs, body, JoinSubrecords([sub], img, rest)) == JoinSubrecords(subs + [sub], body + img, rest)
  {
    if rest.Ok? {
      assert (subs + [sub]) + rest.value.0 == subs + ([sub] + rest.value.0);
      assert (body + img) + rest.value.1 == body + (img + rest.value.1);
    }
  }
}
