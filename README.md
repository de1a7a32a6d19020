# Chunk framing of the TES3 plugin converter

This project models the framing core of a converter for Morrowind (TES3) plugin files, and
proves properties of that model.

A plugin is a buffer of length-prefixed chunks:

- A **record** has a 16-byte header: a 4-byte tag, a little-endian `u32` body size and 8 flag
  bytes. Its body follows.
- The body holds **subrecords**. Each has an 8-byte header (tag and size) followed by its payload.

The converter reads a buffer in one of two forms:

- **Binary**, which starts with `TES3`. `File::new` validates every record and subrecord header
  and records their offsets.
- **Markup**. The first byte that is not blank is `<`. The converter rebuilds a buffer from the
  element tree: each record element and each subrecord element appends its header. Payloads are
  written as zeros.

The converter also renders a binary file as markup:

- Every tag becomes an element name. It is written verbatim when the tag is plain; otherwise it
  is written as two hexadecimal characters per byte. Only the names of plain tags that start with
  a letter or '_' are XML element names that also decode back.
- Every payload becomes rows of uppercase hex digits.

An older draft in `main.rs` splits a buffer into record and subrecord slices without
validating anything.

Modules:

- `Wire`: bytes, the `u32` size field, wrap-around.
- `Wrappers`: `Option`, `Result` and the error kinds.
- `TagCodec`: `xml_tag` and `xml_tag_to_bytes`.
- `HexText`: `Bytes::fmt`.
- `Numerals`: the decimal size attribute.
- `Chunks`: `Subrecord::new`, `Record::new` and `range`.
- `Container`: the format choice and the record loop of `File::new`.
- `Rebuild`: the `from_xml` functions.
- `Render`: the `to_xml` functions.
- `RoundTrip`: binary to markup to binary.
- `Draft`: `main.rs`.
- `Corrections`: the intended definitions behind the findings below.

The code that loops or appends is modelled as methods with loop invariants. Each method is proved
equal to a specification function, and properties are proved about those functions.

The model follows the code as written, including its quirks:

- `hex_char` yields 'K' to 'P' for the half bytes 10 to 15.
- The decoder's character ranges exclude their upper ends.
- `Record::new` checks each subrecord against the rest of the buffer rather than against the
  record's body.
- The nibble shift of `xml_tag_to_bytes` is taken as a release build computes it: 4 for even
  positions, 0 for odd ones.
- `to_ne_bytes` is taken as little-endian.
- Buffers are shorter than 2^32 bytes.

## Model

| member | source | states |
|---|---|---|
| Wire.ParseLeBytes | src/lib.rs:7-17 | reading back the four bytes a size is written as gives the size |
| Wire.LeBytesOfParse | src/lib.rs:176 | writing a size read from four bytes reproduces those four bytes |
| Wire.Zeros | src/lib.rs:179 | the padding appended for a payload is exactly `n` bytes, all zero |
| Chunks.CheckHeader | src/lib.rs:139-151 | success exactly when the window holds the header and the size at bytes 4..8 fits after it; a short window fails with TooShort, an oversized size with SizeOverflow |
| Chunks.SubrecordNew | src/lib.rs:139-157 | succeeds exactly under the header condition; the subrecord keeps the given start and the size read, and its payload ends inside the window |
| Chunks.NewIsHeld | src/lib.rs:236 | a subrecord read at `offset` of the rest of the buffer is exactly one whose header lies there with its own size and whose payload ends in the buffer |
| Chunks.WalkSubrecordFail | src/lib.rs:236-238 | a subrecord refused before the end of the body aborts the walk with its error |
| Chunks.WalkIsIndex | src/lib.rs:232-241 | the subrecords the loop collects start at 16 and then at running sums of 8 + size, each starts before 16 + size and lies in the window, and together they reach 16 + size or beyond |
| Chunks.IndexIsWalk | src/lib.rs:232-241 | conversely, any such sequence of subrecords is exactly what the loop returns |
| Chunks.IndexEnd | src/lib.rs:235-239 | the walk stops inside the window: the last payload ends at most at its end |
| Chunks.ParseRecord | src/lib.rs:218-248 | an accepted record keeps its start, has the size read from its header, and its body lies in the window |
| Chunks.ParseRecordIff | src/lib.rs:218-248 | `Record::new` accepts exactly the records whose header is valid and whose subrecords form the index above |
| Chunks.ParsedRecordSpans | src/lib.rs:232-241 | every subrecord of an accepted record starts inside the body; together they cover at least the body and may run past it |
| Chunks.RecordNew | src/lib.rs:218-248 | the loop returns the record `ParseRecord` describes, with the subrecord index as above |
| Chunks.SubrecordRange | src/lib.rs:187-189 | the range starts at the subrecord and, without 32-bit wrap-around, spans header plus payload |
| Chunks.RecordRange | src/lib.rs:283-285 | the same for a record's 16-byte header and body |
| Container.XmlInitialIff | src/lib.rs:77-84 | the buffer counts as markup exactly when a '<' is preceded only by space, tab, CR and LF |
| Container.Detect | src/lib.rs:332-374 | a buffer is binary exactly when it starts with TES3, whatever follows; otherwise it is markup exactly under the condition above; it is unrecognised exactly when it has neither the magic nor a markup start, so an empty or all-blank buffer is unrecognised |
| Container.WalkRecordsIff | src/lib.rs:335-350 | the record loop succeeds with exactly the record sequences starting at 0 and then at running sums of 16 + size, each record the one read at its start, whose framed lengths add up to the buffer length |
| Container.WalkIsRecordIndex | src/lib.rs:335-350 | what the loop returns is such a sequence |
| Container.RecordIndexIsWalk | src/lib.rs:335-350 | any such sequence is what the loop returns |
| Container.FailureAborts | src/lib.rs:337-339 | a record that fails after records read back to back makes the whole loop fail with its error |
| Container.ReadBinary | src/lib.rs:332-352 | the binary branch keeps the buffer and returns the record index, or the first record error |
| Container.ReadMarkup | src/lib.rs:360-367 | the markup branch rebuilds every element child of the root in turn into one buffer; the first failure aborts |
| Container.FileNew | src/lib.rs:319-375 | the result of binary, markup or unrecognised input, as the format choice directs; markup that does not parse fails |
| TagCodec.HexChar | src/lib.rs:41-43 | half bytes 0 to 9 give '0' to '9'; 10 to 15 give 'K' to 'P' |
| TagCodec.HexTagAt | src/lib.rs:45-48 | each byte is written as its high half then its low half |
| TagCodec.EncodeTag | src/lib.rs:86-104 | a plain tag's name is its bytes; any other tag's name is two characters per byte, high half first |
| TagCodec.XmlTag | src/lib.rs:86-104 | the push-and-clear loop yields exactly that name |
| TagCodec.EncodeTagIsAscii | src/lib.rs:86-104 | every character of a name is ASCII, so its bytes are its characters |
| TagCodec.DigitValue | src/lib.rs:116-121 | an accepted character's value is at most 14 |
| TagCodec.DecodeTag | src/lib.rs:106-128 | a name that decodes gives a 4-byte tag |
| TagCodec.NibbleShift | src/lib.rs:122 | the shift is 4 for even positions and 0 for odd ones |
| TagCodec.PartialStep | src/lib.rs:122 | adding character `i` changes only byte `i / 2`: its high half for even `i`, its low half for odd `i` |
| TagCodec.XmlTagToBytes | src/lib.rs:106-128 | the array loop returns the decoded tag: a 4-character name as it is, 8 accepted characters packed pairwise high half first, None otherwise |
| TagCodec.HexCharDigit | src/lib.rs:41-43 | the decoder accepts the character written for a half byte exactly when the half byte is at most 8, and then reads back its value |
| TagCodec.DecodeHexName | src/lib.rs:113-124 | eight characters written for the halves of a tag decode to the tag exactly when every half is at most 8 |
| TagCodec.TagRoundTrip | src/lib.rs:86-128 | a tag's name decodes to the tag exactly when the tag is plain or all its halves are at most 8; otherwise it does not decode |
| TagCodec.NameReadIff | src/lib.rs:86-128 | a tag's name is a legal XML element name that decodes back to the tag exactly when the tag is plain and starts with a letter or '_'; no hex name is both |
| HexText.UpperHexDigit | src/lib.rs:70 | a digit of `{:02X}` is '0' to '9' or 'A' to 'F' |
| HexText.FormatBytes | src/lib.rs:53-75 | the text is the layout of the bytes, and with its whitespace deleted it is exactly the bytes' two-digit hex, in order |
| HexText.LayoutDigits | src/lib.rs:59-71 | deleting the whitespace from any layout leaves exactly the hex digits of the bytes |
| HexText.SeparatorIsWhitespace | src/lib.rs:60-67 | what precedes a byte is whitespace only |
| HexText.LayoutUnseparated | src/lib.rs:56-57 | with width and precision unset, the text has no separators |
| HexText.DecodeHexDigits | src/lib.rs:70 | the hex digits of the bytes read back as the bytes |
| HexText.HexRoundTrip | src/lib.rs:59-71 | for every width and precision, the rendered payload read back with its whitespace deleted is the payload |
| Numerals.Decimal | src/lib.rs:195 | the size attribute is all digits, without a leading zero unless the size is 0 |
| Numerals.DecimalRoundTrip | src/lib.rs:195 | the size attribute reads back as the size |
| Render.SubrecordToXml | src/lib.rs:191-206 | appends the subrecord's element: name, size, payload rows of 32 bytes in groups of 4, set on their own lines when longer than a row |
| Render.PayloadTextDecodes | src/lib.rs:195-201 | the payload text is the payload's hex digits with whitespace and reads back as the payload; the size reads back as the size |
| Render.FlagsXml | src/lib.rs:293-296 | the flags attribute is written exactly when a flag byte is set |
| Render.FlagsTextDecodes | src/lib.rs:293-296 | the flags attribute holds the flags' hex digits with no separators and reads back as the flags |
| Render.RecordToXml | src/lib.rs:287-309 | appends the record's element: opening tag with size and flags, each subrecord's element in order, closing tag |
| Render.FileToXml | src/lib.rs:377-388 | every record's element in order inside one CHIM root element |
| Render.ExactFileRenderable | src/lib.rs:288-301 | every slice `to_xml` takes is in bounds for a binary file whose records are filled exactly by their subrecords |
| Rebuild.SizeOf | src/lib.rs:161-164 | the size attribute is accepted exactly when present and below 2^32; a missing one fails with MissingSize |
| Rebuild.SubrecordImage | src/lib.rs:159-185 | succeeds exactly when the size is valid and the name decodes; it then appends the decoded tag, the size and `size` zero bytes, and starts at the buffer's length |
| Rebuild.SubrecordsImage | src/lib.rs:270-274 | the bytes appended for the subrecords are as long as their framing |
| Rebuild.ImageSkip | src/lib.rs:271 | a child that is not an element is skipped |
| Rebuild.ImageFail | src/lib.rs:272 | a failing element child fails the whole record |
| Rebuild.RecordImage | src/lib.rs:250-281 | appends the decoded tag, the declared size and 8 zero bytes, then the children's subrecords whatever the declared size |
| Rebuild.SubrecordFromXml | src/lib.rs:159-185 | appends exactly the subrecord's image after the earlier bytes; on failure nothing is appended |
| Rebuild.RecordFromXml | src/lib.rs:250-281 | only appends: the earlier bytes are kept, and on success exactly the record's image follows them |
| RoundTrip.SubNamesDecode | src/lib.rs:86-128 | the names of readable subrecord tags (plain, starting with a letter or '_') decode to those tags |
| RoundTrip.SubrecordImageOf | src/lib.rs:171-184 | a subrecord element whose name decodes to a tag rebuilds as tag, size and zeros at the buffer's length |
| RoundTrip.HeaderBytes | src/lib.rs:176 | a subrecord's tag followed by its written size is its header as it was |
| RoundTrip.SubrecordsRoundTrip | src/lib.rs:268-274 | the elements of the subrecords the walk found rebuild to their headers with zero payloads; each sits as far on as the record's start |
| RoundTrip.RecordImageOf | src/lib.rs:250-281 | a readable, exactly filled record rebuilds at its own start to its header with zero flags and its subrecords' skeleton; it keeps its size |
| RoundTrip.RecordsRoundTrip | src/lib.rs:362-366 | the records of a binary buffer rebuild back to back, each at its own start and as long as it was |
| RoundTrip.FileRoundTrip | src/lib.rs:319-375 | a binary file of exactly filled records whose tags are all readable (plain, starting with a letter or '_') rebuilds from its markup to a buffer of the same length, with every header in place and flags and payloads zeroed |
| Draft.AsU32 | src/main.rs:8-15 | the shift-and-add is the little-endian value of the four bytes, with no overflow |
| Draft.CutFrame | src/main.rs:26 | under the no-panic condition, the front piece is 8 (or 16) plus its declared size and the rest is framed |
| Draft.ParseSubrecords | src/main.rs:23-31 | the pieces joined reproduce the input, and each piece is as long as it declares (at least 8) |
| Draft.ParseRecords | src/main.rs:33-41 | the record slices joined reproduce the input, each is 16 plus its declared size, and each body splits into subrecord slices that join up to it |
| Draft.FramesUnique | src/main.rs:23-31 | a buffer splits into self-declared pieces in at most one way |
| Draft.FramesAreFramed | src/main.rs:23-31 | any such pieces joined meet the no-panic condition |
| Corrections.TagNameUnreadable | src/lib.rs:41-43 | the names written for the tags 00 00 00 0A and 00 00 00 09 do not decode |
| Corrections.HexChar | src/lib.rs:41-43 | the intended digit: 'A' to 'F' for 10 to 15 |
| Corrections.HexDigits | src/lib.rs:45-48 | two intended digits per byte, high half first |
| Corrections.TagName | src/lib.rs:86-104 | the name with the intended digits: a plain tag as it is, any other tag as its hex digits |
| Corrections.DigitValue | src/lib.rs:116-121 | the intended value of a digit is below 16 |
| Corrections.DecodeTag | src/lib.rs:106-128 | the decoder with inclusive ranges yields 4-byte tags |
| Corrections.DigitOfHexChar | src/lib.rs:116-121 | every intended digit is accepted and read back |
| Corrections.HexDigitsRoundTrip | src/lib.rs:106-128 | the intended hex digits of every 4-byte tag decode back to it |
| Corrections.TagRoundTrip | src/lib.rs:86-128 | with both corrections, every 4-byte tag reads back from its name |
| Corrections.XmlName | src/lib.rs:86-104 | a name for every tag: either the 4-byte plain tag or '_' followed by its 8 hex digits |
| Corrections.DecodeXmlName | src/lib.rs:106-128 | a 4-byte name decodes to itself; any decoded tag has 4 bytes |
| Corrections.XmlNameRoundTrip | src/lib.rs:86-128 | every 4-byte tag gets a legal XML element name that decodes back to the tag |
| Corrections.RecordOverrun | src/lib.rs:232-241 | a record with a 4-byte body holding an 8-byte subrecord is accepted as written and refused by the bounded parse |
| Corrections.ParseRecordBounded | src/lib.rs:218-248 | the parse with subrecords checked against the body keeps start and size |
| Corrections.BoundedRecordExact | src/lib.rs:232-241 | a record the bounded parse accepts is filled exactly by its subrecords, and the parse as written finds the same record |

## Left out

- Reading the file is not modelled: open, metadata, `read_to_end` and the size cross-check
  (src/lib.rs:320-330). The buffer is a parameter, and the loop bound `size` is its length.
- Markup parsing is not modelled: UTF-8 conversion, roxmltree and reading the size attribute as
  a number. `Container.FileNew` takes the parser's result as a parameter: the root element, or
  nothing for text that does not parse. An element carries the bytes of its name and its size
  attribute as an optional number.
- The element tree in `RoundTrip` stands for what the parser reads from the rendered text. It
  omits the text nodes between elements, which the rebuilder skips anyway. The parser itself is
  not proved to produce that tree. Its names are legal XML element names because every tag in
  the round trip is readable.
- RoundTrip.FileRoundTrip: covers only files whose tags are all plain and start with a letter or
  '_'. For any other tag the rendered name is either refused by the markup parser or refused by
  the decoder (`TagCodec.NameReadIff`), so such a file does not come back.
- `print!` and `println!` diagnostics are not modelled.
- The `anyhow` context messages and the debug rendering of unexpected leading bytes are not
  modelled. Errors are plain values; `UnexpectedInitialBytes` keeps up to four leading bytes.
- The `Formatter` plumbing is not modelled. Width and precision are explicit parameters, 0 when
  unset. Writing to a `String` cannot fail, so the `Result` of the `to_xml` functions is not
  modelled.
- Capacity hints (`with_capacity`, `reserve`, `reserve_exact`) have no effect on the contents
  and are not modelled.
- Commented-out code (`ascii_or_hex`, `convert`, `File::from_xml`) is not modelled.
- Host byte order is taken as little-endian for `to_ne_bytes`.
- Debug-build panics are not modelled:
  - The shift at src/lib.rs:122 is taken with release-build masking.
  - The additions in `range` wrap in 32 bits, as in a release build.
  - Slices out of bounds in the `to_xml` functions and in the draft become preconditions.
- Subrecord offsets that `from_xml` records are counted from the start of the whole buffer,
  not of the record, as the code does. `RoundTrip.Rebased` states the difference.
- Payload hex text and record flags are not read back by the rebuilder, as in the code.
  Rebuilt payloads and flags are zero bytes.
- `read_file`, `parse_tes3` and `main` in src/main.rs are not modelled: they only read, print
  and dispatch.
- Chunks.ParseRecord: its own contract states only the bounds of an accepted record. The full
  characterisation is `Chunks.ParseRecordIff`.
- TagCodec.DecodeTag: its own contract states only the length of a decoded tag. The behaviour
  of the decoder loop is stated by `TagCodec.XmlTagToBytes`, and the inverse property by
  `TagCodec.TagRoundTrip`.
- Rebuild.SubrecordsImage: its own contract states only the length of the bytes. The order and
  failure behaviour are stated by `Rebuild.ImageSkip`, `Rebuild.ImageFail` and
  `Rebuild.RecordFromXml`.

## Findings

The main model follows the code as written. The corrected definitions live in `Corrections`,
beside lemmas that exhibit each discrepancy.

| source | as written | input that shows it | evidently intended | confidence | as-written member | corrected member |
|---|---|---|---|---|---|---|
| src/lib.rs:42 | `hex_char` adds 0x41 to half bytes 10 to 15, writing 'K' to 'P' | the tag 00 00 00 0A is written as `0000000K`, which `xml_tag_to_bytes` refuses | add 0x37 to write 'A' to 'F', so that hex names read back | not executed | Corrections.TagNameUnreadable | Corrections.TagRoundTrip |
| src/lib.rs:117-119 | the exclusive range patterns `b'0'..b'9'`, `b'A'..b'F'` and `b'a'..b'f'` refuse '9', 'F' and 'f' | the tag 00 00 00 09 is written as `00000009`, which `xml_tag_to_bytes` refuses | inclusive ranges `..=` | not executed | Corrections.TagNameUnreadable | Corrections.TagRoundTrip |
| src/lib.rs:86-104 | `xml_tag` writes a plain tag that starts with a digit, '-' or '.' verbatim, and writes every other tag as hex, whose first character is a digit or 'K' to 'P' | the tag `1AAA` is written as `1AAA`, and 00 00 00 00 as `00000000`; no XML element name starts with a digit, so the rendered text does not parse; A0 00 00 00 is written as `K0000000`, which parses but does not decode | a name that the parser accepts and the decoder reads back, for every tag: for example '_' followed by the hex digits | not executed | TagCodec.NameReadIff | Corrections.XmlNameRoundTrip |
| src/lib.rs:236 | each subrecord is checked against the rest of the buffer rather than against the record's body | `Corrections.OVERRUN`: a record declaring a 4-byte body, followed by an 8-byte subrecord header, is accepted with that subrecord | subrecords confined to the record's body | not executed | Corrections.RecordOverrun | Corrections.BoundedRecordExact |
