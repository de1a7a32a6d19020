/** The container: format detection, the binary record loop and the markup branch of
    `File::new`. The buffer is a parameter; reading it from a file is not modelled. */
module Container {
  import opened Wire
  import opened Wrappers
  import opened Chunks
  import opened Rebuild

  /** The whole buffer and its top-level records. */
  datatype File = File(data: seq<Byte>, records: seq<Record>)

  /** The four bytes "TES3" that mark the binary form. */
  const MAGIC: seq<Byte> := [0x54, 0x45, 0x53, 0x33]

  predicate StartsWithMagic(data: seq<Byte>) {
    |data| >= 4 && data[..4] == MAGIC
  }

  /** Space, tab, carriage return or line feed. */
  predicate IsBlank(b: Byte) {
    b == 0x20 || b == 0x09 || b == 0x0D || b == 0x0A
  }

  const OPEN_ANGLE: Byte := 0x3C

  /** `is_xml_initial_bytes`: the first byte that is not blank decides; there must be one. */
  function IsXmlInitialBytes(data: seq<Byte>): bool {
    if data == [] then false
    else if IsBlank(data[0]) then IsXmlInitialBytes(data[1..])
    else data[0] == OPEN_ANGLE
  }

  /** The buffer is markup exactly when some '<' is preceded only by blanks. */
  lemma {:induction false} XmlInitialIff(data: seq<Byte>)
    ensures IsXmlInitialBytes(data) <==>
      exists k :: 0 <= k < |data| && data[k] == OPEN_ANGLE && forall j :: 0 <= j < k ==> IsBlank(data[j])
  {
    if data != [] {
      XmlInitialIff(data[1..]);
      if IsBlank(data[0]) {
        if IsXmlInitialBytes(data) {
          var k :| 0 <= k < |data[1..]| && data[1..][k] == OPEN_ANGLE && forall j :: 0 <= j < k ==> IsBlank(data[1..][j]);
          assert data[k + 1] == OPEN_ANGLE;
          forall j | 0 <= j < k + 1 ensures IsBlank(data[j]) {
            if j > 0 { assert data[j] == data[1..][j - 1]; }
          }
        } else if exists k :: 0 <= k < |data| && data[k] == OPEN_ANGLE && forall j :: 0 <= j < k ==> IsBlank(data[j]) {
          var k :| 0 <= k < |data| && data[k] == OPEN_ANGLE && forall j :: 0 <= j < k ==> IsBlank(data[j]);
          assert k > 0;
          assert data[1..][k - 1] == OPEN_ANGLE;
          forall j | 0 <= j < k - 1 ensures IsBlank(data[1..][j]) {
            assert data[1..][j] == data[j + 1];
          }
        }
      } else if IsXmlInitialBytes(data) {
        assert data[0] == OPEN_ANGLE;
      }
    }
  }

  datatype Format = Binary | Markup | Unrecognized

  /** The choice `File::new` makes on the leading bytes: the magic is checked first. */
  function Detect(data: seq<Byte>): (f: Format)
    ensures StartsWithMagic(data) ==> f == Binary
    ensures !StartsWithMagic(data) ==>
      (f == Markup <==> exists k :: 0 <= k < |data| && data[k] == OPEN_ANGLE && forall j :: 0 <= j < k ==> IsBlank(data[j]))
    ensures (forall j :: 0 <= j < |data| ==> IsBlank(data[j])) ==> f == Unrecognized
    ensures f == Binary <==> StartsWithMagic(data)
    ensures f == Unrecognized <==> !StartsWithMagic(data) && !IsXmlInitialBytes(data)
  {
    XmlInitialIff(data);
    if StartsWithMagic(data) then Binary
    else if IsXmlInitialBytes(data) then Markup
    else Unrecognized
  }

  /** Header plus body of every record. */
  function RecordsLength(recs: seq<Record>): nat {
    if recs == [] then 0 else RECORD_HEAD + recs[0].size + RecordsLength(recs[1..])
  }

  /** The binary loop of `File::new` from `offset` to the end of the buffer: each record is
      read from the rest of the buffer, and the offset moves past its header and body. */
  function WalkRecords(data: seq<Byte>, offset: nat): Result<seq<Record>>
    requires |data| < U32_LIMIT && offset <= |data|
    decreases |data| - offset
  {
    if offset >= |data| then Ok([])
    else
      match ParseRecord(data[offset..], offset)
      case Err(e) => Err(e)
      case Ok(rec) =>
        match WalkRecords(data, offset + RECORD_HEAD + rec.size)
        case Err(e) => Err(e)
        case Ok(rest) => Ok([rec] + rest)
  }

  /** Records back to back from `offset`, each the record read at its own start. */
  ghost predicate Placed(data: seq<Byte>, offset: nat, recs: seq<Record>)
    requires |data| < U32_LIMIT
  {
    forall i :: 0 <= i < |recs| ==>
      recs[i].start == offset + RecordsLength(recs[..i]) && recs[i].start <= |data| &&
      ParseRecord(data[recs[i].start..], recs[i].start) == Ok(recs[i])
  }

  /** What the loop finds, stated without it: records back to back from `offset`, each the
      record read at its own start, covering the rest of the buffer exactly. */
  ghost predicate RecordIndex(data: seq<Byte>, offset: nat, recs: seq<Record>)
    requires |data| < U32_LIMIT
  {
    Placed(data, offset, recs) && offset + RecordsLength(recs) == |data|
  }

  /** The loop succeeds with exactly the record indexes: record starts are `offset` followed by
      the running sums of header plus body, and the framed lengths add up to the buffer. */
  lemma WalkRecordsIff(data: seq<Byte>, offset: nat, recs: seq<Record>)
    requires |data| < U32_LIMIT && offset <= |data|
    ensures WalkRecords(data, offset) == Ok(recs) <==> RecordIndex(data, offset, recs)
  {
    if WalkRecords(data, offset) == Ok(recs) {
      WalkIsRecordIndex(data, offset);
    }
    if RecordIndex(data, offset, recs) {
      RecordIndexIsWalk(data, offset, recs);
    }
  }

  /** The first of placed records sits at `offset`; the others are placed from `next`. */
  lemma PlacedFront(data: seq<Byte>, offset: nat, recs: seq<Record>, next: nat)
    requires |data| < U32_LIMIT && recs != [] && Placed(data, offset, recs)
    requires next == offset + RECORD_HEAD + recs[0].size
    ensures recs[0].start == offset && offset <= |data| && ParseRecord(data[offset..], offset) == Ok(recs[0])
    ensures RecordsLength(recs) == RECORD_HEAD + recs[0].size + RecordsLength(recs[1..])
    ensures Placed(data, next, recs[1..])
  {
    hide ParseRecord;
    var rest := recs[1..];
    assert recs[..0] == [];
    forall i | 0 <= i < |rest|
      ensures rest[i].start == next + RecordsLength(rest[..i]) && rest[i].start <= |data| &&
              ParseRecord(data[rest[i].start..], rest[i].start) == Ok(rest[i])
    {
      assert recs[..i + 1][1..] == rest[..i];
      assert recs[i + 1] == rest[i];
    }
  }

  /** A record at `offset` in front of records placed from `next` makes records placed from
      `offset`. */
  lemma PlacedCons(data: seq<Byte>, offset: nat, rec: Record, rest: seq<Record>, next: nat)
    requires |data| < U32_LIMIT && offset <= |data| && rec.start == offset
    requires ParseRecord(data[offset..], offset) == Ok(rec)
    requires next == offset + RECORD_HEAD + rec.size && Placed(data, next, rest)
    ensures Placed(data, offset, [rec] + rest)
    ensures RecordsLength([rec] + rest) == RECORD_HEAD + rec.size + RecordsLength(rest)
  {
    hide ParseRecord;
    var recs := [rec] + rest;
    assert recs[1..] == rest;
    forall i | 0 <= i < |recs|
      ensures recs[i].start == offset + RecordsLength(recs[..i]) && recs[i].start <= |data| &&
              ParseRecord(data[recs[i].start..], recs[i].start) == Ok(recs[i])
    {
      if i > 0 {
        assert recs[..i][1..] == rest[..i - 1];
        assert recs[i] == rest[i - 1];
      }
    }
  }

  lemma {:induction false} WalkIsRecordIndex(data: seq<Byte>, offset: nat)
    requires |data| < U32_LIMIT && offset <= |data| && WalkRecords(data, offset).Ok?
    ensures RecordIndex(data, offset, WalkRecords(data, offset).value)
    decreases |data| - offset
  {
    if offset < |data| {
      hide ParseRecord, Placed;
      var rec := ParseRecord(data[offset..], offset).value;
      var next := offset + RECORD_HEAD + rec.size;
      WalkIsRecordIndex(data, next);
      PlacedCons(data, offset, rec, WalkRecords(data, next).value, next);
    }
  }

  /** The loop's step: a record read at `offset` in front of the records read from `next`. */
  lemma WalkCons(data: seq<Byte>, offset: nat, rec: Record, rest: seq<Record>, next: nat)
    requires |data| < U32_LIMIT && offset < |data| && ParseRecord(data[offset..], offset) == Ok(rec)
    requires next == offset + RECORD_HEAD + rec.size && next <= |data| && WalkRecords(data, next) == Ok(rest)
    ensures WalkRecords(data, offset) == Ok([rec] + rest)
  {
    hide ParseRecord;
  }

  lemma {:induction false} RecordIndexIsWalk(data: seq<Byte>, offset: nat, recs: seq<Record>)
    requires |data| < U32_LIMIT && offset <= |data| && RecordIndex(data, offset, recs)
    ensures WalkRecords(data, offset) == Ok(recs)
    decreases |recs|
  {
    if recs != [] {
      hide ParseRecord, Placed;
      var next := offset + RECORD_HEAD + recs[0].size;
      PlacedFront(data, offset, recs, next);
      RecordIndexIsWalk(data, next, recs[1..]);
      WalkCons(data, offset, recs[0], recs[1..], next);
      assert [recs[0]] + recs[1..] == recs;
    }
  }

  /** A record that fails to parse at `at`, the next offset after placed records, aborts the
      whole loop with that record's error. */
  lemma {:induction false} FailureAborts(data: seq<Byte>, offset: nat, recs: seq<Record>, at: nat, e: Error)
    requires |data| < U32_LIMIT && offset <= |data| && Placed(data, offset, recs)
    requires at == offset + RecordsLength(recs) && at < |data|
    requires ParseRecord(data[at..], at) == Err(e)
    ensures WalkRecords(data, offset) == Err(e)
    decreases |recs|
  {
    if recs == [] {
      assert at == offset;
    } else {
      hide ParseRecord, Placed;
      var next := offset + RECORD_HEAD + recs[0].size;
      PlacedFront(data, offset, recs, next);
      FailureAborts(data, next, recs[1..], at, e);
    }
  }

  /** The file the binary branch of `File::new` builds. */
  function BinaryFile(data: seq<Byte>): Result<File>
    requires |data| < U32_LIMIT
  {
    match WalkRecords(data, 0)
    case Err(e) => Err(e)
    case Ok(recs) => Ok(File(data, recs))
  }

  /** The file the markup branch builds from the root element. */
  function MarkupFile(root: Node): Result<File>
    requires root.Element?
  {
    match RecordsImage(root.children, 0)
    case Err(e) => Err(e)
    case Ok((recs, bytes)) => Ok(File(bytes, recs))
  }

  function PrependRecords(recs: seq<Record>, r: Result<seq<Record>>): Result<seq<Record>> {
    match r
    case Err(e) => Err(e)
    case Ok(rest) => Ok(recs + rest)
  }

  function JoinRecords(recs: seq<Record>, bytes: seq<Byte>, r: Result<(seq<Record>, seq<Byte>)>)
    : Result<(seq<Record>, seq<Byte>)>
  {
    match r
    case Err(e) => Err(e)
    case Ok((more, moreBytes)) => Ok((recs + more, bytes + moreBytes))
  }

  lemma JoinRecordsStep(recs: seq<Record>, bytes: seq<Byte>, rec: Record, img: seq<Byte>,
                        rest: Result<(seq<Record>, seq<Byte>)>)
    ensures JoinRecords(recs, bytes, JoinRecords([rec], img, rest)) == JoinRecords(recs + [rec], bytes + img, rest)
  {
    if rest.Ok? {
      assert (recs + [rec]) + rest.value.0 == recs + ([rec] + rest.value.0);
      assert (bytes + img) + rest.value.1 == bytes + (img + rest.value.1);
    }
  }

  /** One turn of the binary loop: the record read at `offset` comes first. */
  lemma WalkStep(data: seq<Byte>, offset: nat, rec: Record, next: nat)
    requires |data| < U32_LIMIT && offset < |data| && ParseRecord(data[offset..], offset) == Ok(rec)
    requires next == offset + RECORD_HEAD + rec.size
    ensures next <= |data| && WalkRecords(data, offset) == PrependRecords([rec], WalkRecords(data, next))
  {
    hide ParseRecord;
  }

  lemma PrependStep(recs: seq<Record>, rec: Record, rest: Result<seq<Record>>)
    ensures PrependRecords(recs, PrependRecords([rec], rest)) == PrependRecords(recs + [rec], rest)
  {
    if rest.Ok? {
      assert (recs + [rec]) + rest.value == recs + ([rec] + rest.value);
    }
  }

  /** The binary branch of `File::new`: records read back to back from offset 0, the first
      failure aborting the whole parse. */
  method ReadBinary(data: seq<Byte>) returns (r: Result<File>)
    requires |data| < U32_LIMIT
    ensures r == BinaryFile(data)
    ensures r.Ok? ==> r.value.data == data && RecordIndex(data, 0, r.value.records)
  {
    var records: seq<Record> := [];
    var offset: U32 := 0;
    ghost var whole := WalkRecords(data, 0);
    assert whole.Ok? ==> [] + whole.value == whole.value;
    while offset < |data|
      invariant offset <= |data|
      invariant whole == PrependRecords(records, WalkRecords(data, offset))
      decreases |data| - offset
    {
      var record := RecordNew(data[offset..], offset);
      if record.Err? {
        return Err(record.error);
      }
      ghost var next := offset + RECORD_HEAD + record.value.size;
      WalkStep(data, offset, record.value, next);
      PrependStep(records, record.value, WalkRecords(data, next));
      offset := offset + RECORD_HEAD + record.value.size;
      records := records + [record.value];
    }
    assert records + [] == records;
    r := Ok(File(data, records));
    WalkRecordsIff(data, 0, records);
  }

  /** The markup branch of `File::new`: each element child of the root rebuilt in turn into
      one growing buffer, the first failure aborting the whole conversion. */
  method ReadMarkup(root: Node) returns (r: Result<File>)
    requires root.Element?
    ensures r == MarkupFile(root)
  {
    var bytes: seq<Byte> := [];
    var records: seq<Record> := [];
    ghost var whole := RecordsImage(root.children, 0);
    if whole.Ok? {
      assert [] + whole.value.0 == whole.value.0 && [] + whole.value.1 == whole.value.1;
    }
    assert root.children[0..] == root.children;
    for i := 0 to |root.children|
      invariant whole == JoinRecords(records, bytes, RecordsImage(root.children[i..], |bytes|))
    {
      var child := root.children[i];
      assert root.children[i..][1..] == root.children[i + 1..];
      if child.Element? {
        var record;
        ghost var before := bytes;
        record, bytes := RecordFromXml(child, bytes);
        if record.Err? {
          return Err(record.error);
        }
        ghost var img := RecordImage(child, |before|).value.1;
        JoinRecordsStep(records, before, record.value, img, RecordsImage(root.children[i + 1..], |bytes|));
        records := records + [record.value];
      }
    }
    assert root.children[|root.children|..] == [];
    assert records + [] == records && bytes + [] == bytes;
    r := Ok(File(bytes, records));
  }

  /** `File::new` on a buffer already read (shorter than 2^32 bytes). `markup` stands for the
      markup parser's result on the buffer: the root element, or nothing when the buffer is
      not UTF-8 or not well-formed markup. */
  method FileNew(data: seq<Byte>, markup: Option<Node>) returns (r: Result<File>)
    requires |data| < U32_LIMIT
    requires markup.Some? ==> markup.value.Element?
    ensures Detect(data) == Binary ==> r == BinaryFile(data)
    ensures Detect(data) == Binary && r.Ok? ==> r.value.data == data && RecordIndex(data, 0, r.value.records)
    ensures Detect(data) == Markup ==> r == if markup.Some? then MarkupFile(markup.value) else Err(MalformedMarkup)
    ensures Detect(data) == Unrecognized ==>
      r == Err(UnexpectedInitialBytes(data[..if |data| < 4 then |data| else 4]))
  {
    if StartsWithMagic(data) {
      r := ReadBinary(data);
    } else if IsXmlInitialBytes(data) {
      if markup.None? {
        return Err(MalformedMarkup);
      }
      r := ReadMarkup(markup.value);
    } else {
      r := Err(UnexpectedInitialBytes(data[..if |data| < 4 then |data| else 4]));
    }
  }
}
