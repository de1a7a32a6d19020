/** The older framing draft: `as_u32`, `parse_subrecords` and `parse_records`. It trusts every
    declared size; where the source's slicing would panic, the model states a precondition. */
module Draft {
  import opened Wire

  /** `as_u32`: shift-and-add of four little-endian bytes in a 32-bit accumulator. A shift
      discards the bits it pushes out; an add is proved not to overflow. */
  method AsU32(data: seq<Byte>) returns (x: U32)
    requires |data| >= 4
    ensures x == ParseU32(data)
  {
    x := 0;
    x := x + data[3];
    x := Wrap32(x * 0x100);
    assert x == 0x100 * (data[3] as nat);
    x := x + data[2];
    x := Wrap32(x * 0x100);
    assert x == 0x1_0000 * (data[3] as nat) + 0x100 * (data[2] as nat);
    x := x + data[1];
    x := Wrap32(x * 0x100);
    assert x == 0x100_0000 * (data[3] as nat) + 0x1_0000 * (data[2] as nat) + 0x100 * (data[1] as nat);
    x := x + data[0];
  }

  /** Header lengths the draft hard-codes. */
  const SUB_HEAD: nat := 8
  const REC_HEAD: nat := 16

  /** The pieces joined end to end. */
  function Concat(pieces: seq<seq<Byte>>): (r: seq<Byte>)
  {
    if pieces == [] then [] else Concat(pieces[..|pieces| - 1]) + pieces[|pieces| - 1]
  }

  /** The length a piece with a `head`-byte header declares for itself. */
  function DeclaredLength(piece: seq<Byte>, head: nat): nat
    requires |piece| >= 8
  {
    head + ParseU32(piece[4..8])
  }

  /** `data` splits into pieces each at least 8 bytes long and as long as it declares: the
      condition under which the draft's loops do not panic. */
  predicate Framed(data: seq<Byte>, head: nat)
    requires head >= 8
    decreases |data|
  {
    data == [] ||
    (|data| >= 8 && DeclaredLength(data, head) <= |data| && Framed(data[DeclaredLength(data, head)..], head))
  }

  /** Each piece is at least 8 bytes long and exactly as long as it declares. */
  predicate Frames(pieces: seq<seq<Byte>>, head: nat)
    requires head >= 8
  {
    forall i :: 0 <= i < |pieces| ==> |pieces[i]| >= 8 && |pieces[i]| == DeclaredLength(pieces[i], head)
  }

  /** Appending a piece appends its bytes. */
  lemma ConcatAppend(pieces: seq<seq<Byte>>, piece: seq<Byte>)
    ensures Concat(pieces + [piece]) == Concat(pieces) + piece
  {
    assert (pieces + [piece])[..|pieces|] == pieces;
  }

  /** Appending a frame keeps a sequence of frames. */
  lemma FramesAppend(pieces: seq<seq<Byte>>, piece: seq<Byte>, head: nat)
    requires head >= 8 && Frames(pieces, head)
    requires |piece| >= 8 && |piece| == DeclaredLength(piece, head)
    ensures Frames(pieces + [piece], head)
  {
  }

  /** One step of a framing loop: the front piece of a framed buffer is a frame, and the rest
      is framed. */
  lemma CutFrame(rest: seq<Byte>, head: nat, size: nat)
    requires head >= 8 && rest != [] && Framed(rest, head)
    requires |rest| >= 8 && size == ParseU32(rest[4..8])
    ensures head + size <= |rest| && Framed(rest[head + size..], head)
    ensures rest[..head + size][4..8] == rest[4..8]
    ensures DeclaredLength(rest[..head + size], head) == head + size
    ensures rest == rest[..head + size] + rest[head + size..]
  {
    assert rest[..head + size][4..8] == rest[4..8];
  }

  /** `parse_subrecords`: split a record body into its subrecords, cutting
      `8 + as_u32(data[4..8])` bytes off the front until nothing is left. */
  method ParseSubrecords(data: seq<Byte>) returns (records: seq<seq<Byte>>)
    requires Framed(data, SUB_HEAD)
    ensures Concat(records) == data
    ensures Frames(records, SUB_HEAD)
  {
    records := [];
    var rest := data;
    while rest != []
      invariant Framed(rest, SUB_HEAD)
      invariant Concat(records) + rest == data
      invariant Frames(records, SUB_HEAD)
      decreases |rest|
    {
      hide Framed, Concat, ParseU32, DeclaredLength, Frames;
      var size := AsU32(rest[4..8]);
      CutFrame(rest, SUB_HEAD, size);
      var piece, tail := rest[..SUB_HEAD + size], rest[SUB_HEAD + size..];
      ConcatAppend(records, piece);
      AppendAssoc(Concat(records), piece, tail);
      FramesAppend(records, piece, SUB_HEAD);
      records := records + [piece];
      rest := tail;
    }
  }

  /** `data` splits into records each as long as it declares, each of whose bodies splits into
      subrecords the same way: the condition under which `parse_records` does not panic. */
  predicate RecordsFramed(data: seq<Byte>)
    decreases |data|
  {
    data == [] ||
    (|data| >= 8 && DeclaredLength(data, REC_HEAD) <= |data| &&
     Framed(data[REC_HEAD .. DeclaredLength(data, REC_HEAD)], SUB_HEAD) &&
     RecordsFramed(data[DeclaredLength(data, REC_HEAD)..]))
  }

  /** The record slices of a `parse_records` result. */
  function Heads(records: seq<(seq<Byte>, seq<seq<Byte>>)>): (r: seq<seq<Byte>>)
    ensures |r| == |records| && forall i :: 0 <= i < |r| ==> r[i] == records[i].0
  {
    if records == [] then [] else Heads(records[..|records| - 1]) + [records[|records| - 1].0]
  }

  /** A record slice whose subrecord slices join up to its body. */
  predicate BodySplit(record: (seq<Byte>, seq<seq<Byte>>)) {
    |record.0| >= REC_HEAD && Concat(record.1) == record.0[REC_HEAD..] && Frames(record.1, SUB_HEAD)
  }

  /** Every record slice splits into its subrecord slices. */
  predicate AllSplit(records: seq<(seq<Byte>, seq<seq<Byte>>)>) {
    forall i :: 0 <= i < |records| ==> BodySplit(records[i])
  }

  lemma AllSplitAppend(records: seq<(seq<Byte>, seq<seq<Byte>>)>, record: (seq<Byte>, seq<seq<Byte>>))
    requires AllSplit(records) && BodySplit(record)
    ensures AllSplit(records + [record])
  {
    hide BodySplit;
  }

  /** One step of the record loop: the front record is a frame with a framed body, and the
      rest is framed. */
  lemma CutRecord(rest: seq<Byte>, size: nat)
    requires rest != [] && RecordsFramed(rest)
    requires |rest| >= 8 && size == ParseU32(rest[4..8])
    ensures REC_HEAD + size <= |rest| && RecordsFramed(rest[REC_HEAD + size..])
    ensures Framed(rest[..REC_HEAD + size][REC_HEAD..], SUB_HEAD)
    ensures DeclaredLength(rest[..REC_HEAD + size], REC_HEAD) == REC_HEAD + size
    ensures rest == rest[..REC_HEAD + size] + rest[REC_HEAD + size..]
  {
    assert rest[..REC_HEAD + size][4..8] == rest[4..8];
    assert rest[..REC_HEAD + size][REC_HEAD..] == rest[REC_HEAD .. REC_HEAD + size];
  }

  /** `parse_records`: split a buffer into records, cutting `16 + as_u32(data[4..8])` bytes off
      the front until nothing is left, and split each record's body into subrecords. */
  method ParseRecords(data: seq<Byte>) returns (records: seq<(seq<Byte>, seq<seq<Byte>>)>)
    requires RecordsFramed(data)
    ensures Concat(Heads(records)) == data
    ensures Frames(Heads(records), REC_HEAD)
    ensures AllSplit(records)
  {
    records := [];
    ghost var heads: seq<seq<Byte>> := [];
    var rest := data;
    while rest != []
      invariant RecordsFramed(rest)
      invariant heads == Heads(records)
      invariant Concat(heads) + rest == data
      invariant Frames(heads, REC_HEAD)
      invariant AllSplit(records)
      decreases |rest|
    {
      hide Framed, RecordsFramed, Concat, ParseU32, DeclaredLength, Frames, AllSplit;
      var size := AsU32(rest[4..8]);
      CutRecord(rest, size);
      var head, tail := rest[..REC_HEAD + size], rest[REC_HEAD + size..];
      var subrecords := ParseSubrecords(head[REC_HEAD..]);
      AllSplitAppend(records, (head, subrecords));
      ConcatAppend(heads, head);
      AppendAssoc(Concat(heads), head, tail);
      FramesAppend(heads, head, REC_HEAD);
      assert Heads(records + [(head, subrecords)]) == heads + [head];
      records := records + [(head, subrecords)];
      heads := heads + [head];
      rest := tail;
    }
  }

  /** Joining the pieces front first. */
  lemma {:induction false} ConcatFront(pieces: seq<seq<Byte>>)
    requires pieces != []
    ensures Concat(pieces) == pieces[0] + Concat(pieces[1..])
    decreases |pieces|
  {
    if |pieces| > 1 {
      var init := pieces[..|pieces| - 1];
      ConcatFront(init);
      assert Concat(pieces) == Concat(init) + pieces[|pieces| - 1];
      assert init[1..] == pieces[1..][..|pieces[1..]| - 1];
    } else {
      assert pieces[1..] == [];
    }
  }

  /** The first frame of a framing is decided by the size the buffer declares at its front. */
  lemma FirstFrame(pieces: seq<seq<Byte>>, head: nat)
    requires head >= 8 && pieces != [] && Frames(pieces, head)
    ensures |Concat(pieces)| >= 8 && DeclaredLength(Concat(pieces), head) <= |Concat(pieces)|
    ensures pieces[0] == Concat(pieces)[..DeclaredLength(Concat(pieces), head)]
    ensures Concat(pieces[1..]) == Concat(pieces)[DeclaredLength(Concat(pieces), head)..]
  {
    ConcatFront(pieces);
    var data := Concat(pieces);
    hide Concat;
    assert pieces[0][4..8] == data[4..8];
  }

  /** A buffer splits into frames in at most one way: the declared sizes decide every cut. */
  lemma {:induction false} FramesUnique(p: seq<seq<Byte>>, q: seq<seq<Byte>>, head: nat)
    requires head >= 8 && Frames(p, head) && Frames(q, head) && Concat(p) == Concat(q)
    ensures p == q
    decreases |p|
  {
    if p == [] || q == [] {
      if p != [] { ConcatFront(p); }
      if q != [] { ConcatFront(q); }
    } else {
      hide Concat, DeclaredLength;
      FirstFrame(p, head);
      FirstFrame(q, head);
      FramesUnique(p[1..], q[1..], head);
      assert p == [p[0]] + p[1..];
      assert q == [q[0]] + q[1..];
    }
  }

  /** Conversely, frames joined end to end form a framed buffer: the draft's precondition is
      exactly that a framing exists. */
  lemma {:induction false} FramesAreFramed(pieces: seq<seq<Byte>>, head: nat)
    requires head >= 8 && Frames(pieces, head)
    ensures Framed(Concat(pieces), head)
    decreases |pieces|
  {
    if pieces != [] {
      ConcatFront(pieces);
      var data := Concat(pieces);
      FramesAreFramed(pieces[1..], head);
      assert pieces[0][4..8] == data[4..8];
      assert data[|pieces[0]|..] == Concat(pieces[1..]);
    }
  }
}
