/** Chunk headers, subrecords and records of the binary form: validation and the walk over a
    record body. Every chunk holds only offsets; the bytes stay in the window it was read from. */
module Chunks {
  import opened Wire
  import opened Wrappers

  const SUBRECORD_HEAD: nat := 8
  const RECORD_HEAD: nat := 16

  /** A subrecord: its offset in the window it was read from and its declared payload size. */
  datatype Subrecord = Subrecord(start: U32, size: U32)

  /** A record: its offset in the buffer, its declared body size and its subrecords, whose
      offsets are relative to the record's own start. */
  datatype Record = Record(start: U32, size: U32, subrecords: seq<Subrecord>)

  /** The header check of both chunk kinds: the window must hold the header, and the size read
      from bytes 4..8 must fit in what follows the header. Windows are shorter than 2^32 bytes,
      so the source's `len as u32` is exact. */
  function CheckHeader(window: seq<Byte>, head: nat): (r: Result<U32>)
    requires 8 <= head && |window| < U32_LIMIT
    ensures r.Ok? <==> |window| >= head && ParseU32(window[4..8]) <= |window| - head
    ensures r.Ok? ==> r.value == ParseU32(window[4..8]) && head + r.value <= |window|
    ensures |window| < head ==> r == Err(TooShort(head))
    ensures |window| >= head && r.Err? ==> r == Err(SizeOverflow(ParseU32(window[4..8]), |window| - head))
  {
    if |window| < head then Err(TooShort(head))
    else
      var size := ParseU32(window[4..8]);
      if size > |window| - head then Err(SizeOverflow(size, |window| - head)) else Ok(size)
  }

  /** `Subrecord::new`: validates an 8-byte header at the front of `window`; the subrecord
      keeps the offset it was given. */
  function SubrecordNew(window: seq<Byte>, start: U32): (r: Result<Subrecord>)
    requires |window| < U32_LIMIT
    ensures r.Ok? <==> |window| >= SUBRECORD_HEAD && ParseU32(window[4..8]) <= |window| - SUBRECORD_HEAD
    ensures r.Ok? ==> r.value.start == start && r.value.size == ParseU32(window[4..8])
                      && SUBRECORD_HEAD + r.value.size <= |window|
    ensures r.Err? ==> r.error == CheckHeader(window, SUBRECORD_HEAD).error
  {
    match CheckHeader(window, SUBRECORD_HEAD)
    case Err(e) => Err(e)
    case Ok(size) => Ok(Subrecord(start, size))
  }

  /** Header plus payload. */
  function FramedLength(subs: seq<Subrecord>): nat {
    if subs == [] then 0 else SUBRECORD_HEAD + subs[0].size + FramedLength(subs[1..])
  }

  lemma {:induction false} FramedLengthAppend(a: seq<Subrecord>, b: seq<Subrecord>)
    ensures FramedLength(a + b) == FramedLength(a) + FramedLength(b)
  {
    if a != [] {
      assert (a + b)[1..] == a[1..] + b;
      FramedLengthAppend(a[1..], b);
    } else {
      assert a + b == b;
    }
  }

  /** The subrecord loop of `Record::new` from `offset` while `offset < end`: each subrecord is
      validated against the whole rest of the window, and the offset then moves past it. */
  function WalkSubrecords(window: seq<Byte>, offset: nat, end: nat): Result<seq<Subrecord>>
    requires |window| < U32_LIMIT && offset <= |window|
    decreases |window| - offset
  {
    if offset >= end then Ok([])
    else
      match SubrecordNew(window[offset..], offset)
      case Err(e) => Err(e)
      case Ok(sub) =>
        match WalkSubrecords(window, offset + SUBRECORD_HEAD + sub.size, end)
        case Err(e) => Err(e)
        case Ok(rest) => Ok([sub] + rest)
  }

  /** The subrecord's header lies in the window, its size is the one written there, and its
      payload ends inside the window. */
  ghost predicate HeldAt(window: seq<Byte>, sub: Subrecord) {
    sub.start + SUBRECORD_HEAD + sub.size <= |window| &&
    sub.size == ParseU32(window[sub.start + 4 .. sub.start + 8])
  }

  /** The subrecords sit back to back from `offset`, each starts before `end` and each is held
      in the window. */
  ghost predicate SubsPlaced(window: seq<Byte>, offset: nat, end: nat, subs: seq<Subrecord>) {
    forall i :: 0 <= i < |subs| ==>
      subs[i].start == offset + FramedLength(subs[..i]) && subs[i].start < end && HeldAt(window, subs[i])
  }

  /** What the walk from `offset` to `end` finds, stated without the loop: the subrecords are
      placed as above, and together they reach `end` or beyond. */
  ghost predicate SubrecordIndex(window: seq<Byte>, offset: nat, end: nat, subs: seq<Subrecord>) {
    SubsPlaced(window, offset, end, subs) && offset + FramedLength(subs) >= end
  }

  /** The front of placed subrecords is at `offset`, and the others are placed after it. */
  lemma SubsPlacedFront(window: seq<Byte>, offset: nat, end: nat, subs: seq<Subrecord>, next: nat)
    requires subs != [] && SubsPlaced(window, offset, end, subs)
    requires next == offset + SUBRECORD_HEAD + subs[0].size
    ensures subs[0].start == offset && offset < end && HeldAt(window, subs[0])
    ensures FramedLength(subs) == SUBRECORD_HEAD + subs[0].size + FramedLength(subs[1..])
    ensures SubsPlaced(window, next, end, subs[1..])
  {
    hide HeldAt;
    assert subs[..0] == [];
    var rest := subs[1..];
    forall i | 0 <= i < |rest|
      ensures rest[i].start == next + FramedLength(rest[..i]) && rest[i].start < end && HeldAt(window, rest[i])
    {
      assert subs[..i + 1][1..] == rest[..i];
      assert subs[i + 1] == rest[i];
    }
  }

  /** A subrecord at `offset` in front of subrecords placed after it. */
  lemma SubsPlacedCons(window: seq<Byte>, offset: nat, end: nat, sub: Subrecord, rest: seq<Subrecord>, next: nat)
    requires sub.start == offset && offset < end && HeldAt(window, sub)
    requires next == offset + SUBRECORD_HEAD + sub.size && SubsPlaced(window, next, end, rest)
    ensures FramedLength([sub] + rest) == SUBRECORD_HEAD + sub.size + FramedLength(rest)
    ensures SubsPlaced(window, offset, end, [sub] + rest)
  {
    hide HeldAt;
    var subs := [sub] + rest;
    assert subs[1..] == rest;
    forall i | 0 <= i < |subs|
      ensures subs[i].start == offset + FramedLength(subs[..i]) && subs[i].start < end && HeldAt(window, subs[i])
    {
      if i > 0 {
        assert subs[..i][1..] == rest[..i - 1];
      }
    }
  }

  /** `Subrecord::new` at `offset` accepts exactly the subrecords held there. */
  lemma NewIsHeld(window: seq<Byte>, offset: nat, sub: Subrecord)
    requires |window| < U32_LIMIT && offset <= |window|
    ensures SubrecordNew(window[offset..], offset) == Ok(sub) <==> sub.start == offset && HeldAt(window, sub)
  {
    if offset + SUBRECORD_HEAD <= |window| {
      assert window[offset..][4..8] == window[offset + 4 .. offset + 8];
    }
  }

  /** One turn of the subrecord loop: a subrecord accepted at `offset` is prepended to what the
      walk finds after it. */
  lemma WalkSubrecordStep(window: seq<Byte>, offset: nat, end: nat, sub: Subrecord, next: nat)
    requires |window| < U32_LIMIT && offset <= |window| && offset < end
    requires SubrecordNew(window[offset..], offset) == Ok(sub) && next == offset + SUBRECORD_HEAD + sub.size
    ensures next <= |window| && WalkSubrecords(window, offset, end) == Prepend([sub], WalkSubrecords(window, next, end))
  {
  }

  /** A subrecord refused at `offset` before `end` ends the walk with its error. */
  lemma WalkSubrecordFail(window: seq<Byte>, offset: nat, end: nat, e: Error)
    requires |window| < U32_LIMIT && offset <= |window| && offset < end
    requires SubrecordNew(window[offset..], offset) == Err(e)
    ensures WalkSubrecords(window, offset, end) == Err(e)
  {
  }

  /** Whatever the walk returns is an index in the sense above. */
  lemma {:induction false} WalkIsIndex(window: seq<Byte>, offset: nat, end: nat)
    requires |window| < U32_LIMIT && offset <= |window|
    requires WalkSubrecords(window, offset, end).Ok?
    ensures SubrecordIndex(window, offset, end, WalkSubrecords(window, offset, end).value)
    decreases |window| - offset
  {
    if offset < end {
      var sub := SubrecordNew(window[offset..], offset).value;
      var next := offset + SUBRECORD_HEAD + sub.size;
      hide SubsPlaced, HeldAt, SubrecordNew, WalkSubrecords, FramedLength;
      WalkSubrecordStep(window, offset, end, sub, next);
      WalkIsIndex(window, next, end);
      var rest := WalkSubrecords(window, next, end).value;
      NewIsHeld(window, offset, sub);
      SubsPlacedCons(window, offset, end, sub, rest, next);
    }
  }

  /** Any index in the sense above is what the walk returns: the two descriptions agree. */
  lemma {:induction false} IndexIsWalk(window: seq<Byte>, offset: nat, end: nat, subs: seq<Subrecord>)
    requires |window| < U32_LIMIT && offset <= |window|
    requires SubrecordIndex(window, offset, end, subs)
    ensures WalkSubrecords(window, offset, end) == Ok(subs)
    decreases |subs|
  {
    if subs != [] {
      hide SubsPlaced, HeldAt, SubrecordNew, WalkSubrecords, FramedLength;
      var next := offset + SUBRECORD_HEAD + subs[0].size;
      SubsPlacedFront(window, offset, end, subs, next);
      NewIsHeld(window, offset, subs[0]);
      WalkSubrecordStep(window, offset, end, subs[0], next);
      IndexIsWalk(window, next, end, subs[1..]);
      assert [subs[0]] + subs[1..] == subs;
    } else {
      assert offset >= end;
    }
  }

  /** The walk ends inside the window: the last subrecord's payload ends at `offset` plus the
      framed length of all of them. */
  lemma {:induction false} IndexEnd(window: seq<Byte>, offset: nat, end: nat, subs: seq<Subrecord>)
    requires SubrecordIndex(window, offset, end, subs) && offset <= |window|
    ensures offset + FramedLength(subs) <= |window|
  {
    if subs != [] {
      var n := |subs| - 1;
      FramedLengthAppend(subs[..n], [subs[n]]);
      assert subs[..n] + [subs[n]] == subs;
      assert [subs[n]][1..] == [];
      assert HeldAt(window, subs[n]);
    }
  }

  /** The record that `Record::new` builds from a window, as a function. */
  function ParseRecord(window: seq<Byte>, start: U32): (r: Result<Record>)
    requires |window| < U32_LIMIT
    ensures r.Ok? ==> RECORD_HEAD + r.value.size <= |window| && r.value.start == start
                      && r.value.size == ParseU32(window[4..8])
  {
    match CheckHeader(window, RECORD_HEAD)
    case Err(e) => Err(e)
    case Ok(size) =>
      match WalkSubrecords(window, RECORD_HEAD, RECORD_HEAD + size)
      case Err(e) => Err(e)
      case Ok(subs) => Ok(Record(start, size, subs))
  }

  /** A record read at `start` from `window`, stated without the loop. */
  ghost predicate RecordAt(window: seq<Byte>, start: U32, rec: Record) {
    |window| >= RECORD_HEAD && rec.start == start && rec.size == ParseU32(window[4..8]) &&
    RECORD_HEAD + rec.size <= |window| &&
    SubrecordIndex(window, RECORD_HEAD, RECORD_HEAD + rec.size, rec.subrecords)
  }

  /** `Record::new` succeeds with exactly the records `RecordAt` describes. */
  lemma ParseRecordIff(window: seq<Byte>, start: U32, rec: Record)
    requires |window| < U32_LIMIT
    ensures ParseRecord(window, start) == Ok(rec) <==> RecordAt(window, start, rec)
  {
    if ParseRecord(window, start) == Ok(rec) {
      WalkIsIndex(window, RECORD_HEAD, RECORD_HEAD + rec.size);
    }
    if RecordAt(window, start, rec) {
      IndexIsWalk(window, RECORD_HEAD, RECORD_HEAD + rec.size, rec.subrecords);
    }
  }

  /** Every subrecord of a parsed record starts inside the record body, and the subrecords
      reach at least to the body's end; they may run past it (the walk does not stop them). */
  lemma ParsedRecordSpans(window: seq<Byte>, start: U32)
    requires |window| < U32_LIMIT && ParseRecord(window, start).Ok?
    ensures var rec := ParseRecord(window, start).value;
      FramedLength(rec.subrecords) >= rec.size &&
      RECORD_HEAD + FramedLength(rec.subrecords) <= |window| &&
      forall i :: 0 <= i < |rec.subrecords| ==>
        RECORD_HEAD <= rec.subrecords[i].start < RECORD_HEAD + rec.size
  {
    var rec := ParseRecord(window, start).value;
    ParseRecordIff(window, start, rec);
    IndexEnd(window, RECORD_HEAD, RECORD_HEAD + rec.size, rec.subrecords);
  }

  function Prepend(subs: seq<Subrecord>, r: Result<seq<Subrecord>>): Result<seq<Subrecord>> {
    match r
    case Err(e) => Err(e)
    case Ok(rest) => Ok(subs + rest)
  }

  /** `Record::new`: the record header check, then the subrecord loop. */
  method RecordNew(window: seq<Byte>, start: U32) returns (r: Result<Record>)
    requires |window| < U32_LIMIT
    ensures r == ParseRecord(window, start)
    ensures r.Ok? ==> RecordAt(window, start, r.value)
  {
    hide RecordAt, SubrecordIndex;
    var header := CheckHeader(window, RECORD_HEAD);
    if header.Err? {
      return Err(header.error);
    }
    var size := header.value;
    var subrecords: seq<Subrecord> := [];
    var offset: U32 := RECORD_HEAD;
    var end: U32 := size + RECORD_HEAD;
    ghost var whole := WalkSubrecords(window, RECORD_HEAD, end);
    assert whole.Ok? ==> [] + whole.value == whole.value;
    while offset < end
      invariant RECORD_HEAD <= offset <= |window|
      invariant WalkSubrecords(window, RECORD_HEAD, end) == Prepend(subrecords, WalkSubrecords(window, offset, end))
      decreases |window| - offset
    {
      hide WalkSubrecords, SubrecordNew, CheckHeader, ParseU32, ParseRecord;
      var sub := SubrecordNew(window[offset..], offset);
      if sub.Err? {
        WalkSubrecordFail(window, offset, end, sub.error);
        return Err(sub.error);
      }
      ghost var next := offset + SUBRECORD_HEAD + sub.value.size;
      WalkSubrecordStep(window, offset, end, sub.value, next);
      ghost var rest := WalkSubrecords(window, next, end);
      assert rest.Ok? ==> (subrecords + [sub.value]) + rest.value == subrecords + ([sub.value] + rest.value);
      offset := offset + SUBRECORD_HEAD + sub.value.size;
      subrecords := subrecords + [sub.value];
    }
    assert subrecords + [] == subrecords;
    r := Ok(Record(start, size, subrecords));
    ParseRecordIff(window, start, r.value);
  }

  /** `Subrecord::range`: offsets from the start to the end of the payload, the end computed
      in 32 bits (wrapping as a release build does). */
  function SubrecordRange(sub: Subrecord): (r: (nat, nat))
    ensures r.0 == sub.start
    ensures sub.start + SUBRECORD_HEAD + sub.size < U32_LIMIT ==> r.1 - r.0 == SUBRECORD_HEAD + sub.size
  {
    (sub.start, Wrap32(sub.start + SUBRECORD_HEAD + sub.size))
  }

  /** `Record::range`: the same for a record's 16-byte header and body. */
  function RecordRange(rec: Record): (r: (nat, nat))
    ensures r.0 == rec.start
    ensures rec.start + RECORD_HEAD + rec.size < U32_LIMIT ==> r.1 - r.0 == RECORD_HEAD + rec.size
  {
    (rec.start, Wrap32(rec.start + RECORD_HEAD + rec.size))
  }
}
