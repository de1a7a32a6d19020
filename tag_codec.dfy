/** The tag codec: a 4-byte chunk tag to and from the element name it is rendered as. */
module TagCodec {
  import opened Wire
  import opened Wrappers

  /** The bytes that may appear in a tag rendered verbatim: A-Z, a-z, 0-9, '_', '-' and '.'. */
  predicate IsTagByte(b: Byte) {
    ('A' as nat <= b <= 'Z' as nat) || ('a' as nat <= b <= 'z' as nat) ||
    ('0' as nat <= b <= '9' as nat) || b == '_' as nat || b == '-' as nat || b == '.' as nat
  }

  predicate IsPlainTag(data: seq<Byte>) {
    forall k :: 0 <= k < |data| ==> IsTagByte(data[k])
  }

  /** One hexadecimal character of a half byte, as the converter writes tags: the offset
      0x41 for values from 10 puts them at 'K' to 'P' rather than 'A' to 'F'. */
  function HexChar(halfByte: nat): (c: char)
    requires halfByte < 16
    ensures halfByte < 10 ==> '0' <= c <= '9' && c as nat - '0' as nat == halfByte
    ensures 10 <= halfByte ==> 'K' <= c <= 'P' && c as nat - 'K' as nat == halfByte - 10
  {
    (halfByte + if halfByte < 10 then 0x30 else 0x41) as char
  }

  /** The two characters `append_hex_byte` pushes: high half first, then low half. */
  function HexPair(b: Byte): string {
    [HexChar(b / 16), HexChar(b % 16)]
  }

  /** Every byte as a `HexPair`, in order. */
  function HexTag(data: seq<Byte>): (r: string)
    ensures |r| == 2 * |data|
  {
    if data == [] then [] else HexTag(data[..|data| - 1]) + HexPair(data[|data| - 1])
  }

  /** Each byte of a plain tag as the character of the same code. */
  function Chars(data: seq<Byte>): (r: string)
    ensures |r| == |data|
  {
    seq(|data|, k requires 0 <= k < |data| => data[k] as char)
  }

  /** The characters at positions 2k and 2k+1 of a hex tag are byte k's high and low halves. */
  lemma {:induction false} HexTagAt(data: seq<Byte>, k: nat)
    requires k < |data|
    ensures HexTag(data)[2 * k] == HexChar(data[k] / 16)
    ensures HexTag(data)[2 * k + 1] == HexChar(data[k] % 16)
  {
    var n := |data| - 1;
    if k < n {
      HexTagAt(data[..n], k);
      assert data[..n][k] == data[k];
    }
  }

  /** The name the converter gives a tag: the bytes themselves when every one is a tag byte,
      otherwise two characters per byte, high half first. */
  function EncodeTag(data: seq<Byte>): (r: string)
    ensures IsPlainTag(data) ==> |r| == |data| && forall k :: 0 <= k < |data| ==> r[k] as nat == data[k]
    ensures !IsPlainTag(data) ==>
      (|r| == 2 * |data| &&
       forall k :: 0 <= k < |data| ==> r[2 * k] == HexChar(data[k] / 16) && r[2 * k + 1] == HexChar(data[k] % 16))
  {
    if IsPlainTag(data) then Chars(data)
    else
      assert forall k :: 0 <= k < |data| ==>
        HexTag(data)[2 * k] == HexChar(data[k] / 16) && HexTag(data)[2 * k + 1] == HexChar(data[k] % 16) by {
        forall k | 0 <= k < |data| { HexTagAt(data, k); }
      }
      HexTag(data)
  }

  /** `xml_tag`: pushes the bytes as characters while they are tag bytes; at the first other
      byte it clears the text and pushes the hex pair of every byte instead. */
  method XmlTag(data: seq<Byte>) returns (tag: string)
    ensures tag == EncodeTag(data)
  {
    tag := [];
    var i := 0;
    while i < |data|
      invariant 0 <= i <= |data|
      invariant IsPlainTag(data[..i])
      invariant tag == Chars(data[..i])
    {
      if IsTagByte(data[i]) {
        tag := tag + [data[i] as char];
        i := i + 1;
      } else {
        tag := [];
        var j := 0;
        while j < |data|
          invariant 0 <= j <= |data|
          invariant tag == HexTag(data[..j])
        {
          tag := tag + HexPair(data[j]);
          j := j + 1;
          assert data[..j][..j - 1] == data[..j - 1];
        }
        assert data[..j] == data;
        return;
      }
    }
    assert data[..i] == data;
  }

  /** The characters the decoder accepts. Its range patterns are exclusive, so '9', 'F' and
      'f' are refused along with everything outside 0-9, A-F and a-f. */
  predicate IsTagDigit(c: Byte) {
    ('0' as nat <= c < '9' as nat) || ('A' as nat <= c < 'F' as nat) || ('a' as nat <= c < 'f' as nat)
  }

  function DigitValue(c: Byte): (v: nat)
    requires IsTagDigit(c)
    ensures v <= 14
  {
    if c < 'A' as nat then c - '0' as nat
    else if c < 'a' as nat then c - 'A' as nat + 10
    else c - 'a' as nat + 10
  }

  /** What a name decodes to: four bytes are the tag itself; eight accepted digits are packed
      pairwise, high half first; any other name has no tag. */
  function DecodeTag(name: seq<Byte>): (r: Option<seq<Byte>>)
    ensures r.Some? ==> |r.value| == 4
  {
    if |name| == 4 then Some(name)
    else if |name| == 8 && forall k :: 0 <= k < 8 ==> IsTagDigit(name[k]) then
      Some(seq(4, j requires 0 <= j < 4 => 16 * DigitValue(name[2 * j]) + DigitValue(name[2 * j + 1])))
    else None
  }

  const USIZE_LIMIT: nat := 0x1_0000_0000_0000_0000

  /** The shift applied to digit `i`: bitwise not of `i % 2` as a usize, shifted left by two,
      then masked to 0..7 as a left shift of a u8 is in a release build. It is 4 for even
      `i` and 0 for odd `i`; a debug build panics on this shift instead. */
  function NibbleShift(i: nat): (s: nat)
    ensures s == if i % 2 == 0 then 4 else 0
  {
    (USIZE_LIMIT - 1 - i % 2) * 4 % USIZE_LIMIT % 8
  }

  /** Byte `j` of the array after `i` digits have been added in. */
  ghost function Partial(name: seq<Byte>, i: nat, j: nat): (p: nat)
    requires |name| == 8 && i <= 8 && j < 4
    requires forall k :: 0 <= k < i ==> IsTagDigit(name[k])
    ensures p < 0x100
  {
    (if 2 * j < i then 16 * DigitValue(name[2 * j]) else 0) +
    (if 2 * j + 1 < i then DigitValue(name[2 * j + 1]) else 0)
  }

  /** Adding digit `i` in changes only byte `i / 2`: the high half for even `i`, the low half
      for odd `i`. */
  lemma PartialStep(name: seq<Byte>, i: nat, j: nat)
    requires |name| == 8 && i < 8 && j < 4
    requires forall k :: 0 <= k <= i ==> IsTagDigit(name[k])
    ensures Partial(name, i + 1, j) ==
            Partial(name, i, j) + (if j == i / 2 then DigitValue(name[i]) * (if i % 2 == 0 then 16 else 1) else 0)
  {
  }

  /** Once all eight digits are in, byte `j` is the decoded byte `j`. */
  lemma PartialComplete(name: seq<Byte>)
    requires |name| == 8 && forall k :: 0 <= k < 8 ==> IsTagDigit(name[k])
    ensures DecodeTag(name).Some? && forall j :: 0 <= j < 4 ==> DecodeTag(name).value[j] == Partial(name, 8, j)
  {
  }

  /** `xml_tag_to_bytes`: a 4-byte name is returned as it is; an 8-byte name is decoded digit
      by digit into a zeroed 4-byte array, failing at the first digit it does not accept. */
  method XmlTagToBytes(name: seq<Byte>) returns (r: Option<seq<Byte>>)
    ensures r == DecodeTag(name)
  {
    if |name| == 4 {
      return Some(name);
    } else if |name| == 8 {
      var bytes := new Byte[4](_ => 0);
      var i := 0;
      while i < 8
        invariant 0 <= i <= 8
        invariant forall k :: 0 <= k < i ==> IsTagDigit(name[k])
        invariant forall j :: 0 <= j < 4 ==> bytes[j] == Partial(name, i, j)
      {
        hide Partial, IsTagDigit;
        var c := name[i];
        if !IsTagDigit(c) {
          return None;
        }
        var digit := DigitValue(c);
        var shifted := digit * (if NibbleShift(i) == 4 then 16 else 1) % 0x100;
        assert shifted == digit * (if i % 2 == 0 then 16 else 1);
        forall j | 0 <= j < 4
          ensures Partial(name, i + 1, j) == Partial(name, i, j) + (if j == i / 2 then shifted else 0)
        {
          PartialStep(name, i, j);
        }
        bytes[i / 2] := bytes[i / 2] + shifted;
        i := i + 1;
      }
      PartialComplete(name);
      assert bytes[..] == DecodeTag(name).value;
      return Some(bytes[..]);
    } else {
      return None;
    }
  }

  /** The byte codes of a name made only of ASCII characters (what `as_bytes` returns). */
  function AsciiBytes(s: string): (r: seq<Byte>)
    requires forall k :: 0 <= k < |s| ==> s[k] as nat < 0x80
    ensures |r| == |s|
  {
    seq(|s|, k requires 0 <= k < |s| => s[k] as nat)
  }

  /** Every half byte of the tag is at most 8, so its hex pair uses only digits the decoder accepts. */
  predicate LowHalves(data: seq<Byte>) {
    forall k :: 0 <= k < |data| ==> data[k] / 16 <= 8 && data[k] % 16 <= 8
  }

  lemma EncodeTagIsAscii(data: seq<Byte>)
    ensures forall k :: 0 <= k < |EncodeTag(data)| ==> EncodeTag(data)[k] as nat < 0x80
  {
    var r := EncodeTag(data);
    if !IsPlainTag(data) {
      forall i | 0 <= i < |r| ensures r[i] as nat < 0x80 {
        var k := i / 2;
        assert r[2 * k] == HexChar(data[k] / 16) && r[2 * k + 1] == HexChar(data[k] % 16);
        assert i == 2 * k || i == 2 * k + 1;
      }
    }
  }

  /** The element name of a tag, as bytes. */
  function TagName(data: seq<Byte>): (r: seq<Byte>)
    ensures |r| == |EncodeTag(data)|
  {
    EncodeTagIsAscii(data);
    AsciiBytes(EncodeTag(data))
  }

  /** The name of a tag that is not plain holds the hex characters of its half bytes. */
  lemma HexName(data: seq<Byte>)
    requires !IsPlainTag(data)
    ensures |TagName(data)| == 2 * |data|
    ensures forall k :: 0 <= k < |data| ==>
      TagName(data)[2 * k] == HexChar(data[k] / 16) as nat && TagName(data)[2 * k + 1] == HexChar(data[k] % 16) as nat
  {
  }

  /** The decoder accepts the character of a half byte exactly when the half byte is at most 8,
      and then reads its value back. */
  lemma HexCharDigit(h: nat)
    requires h < 16
    ensures IsTagDigit(HexChar(h) as nat) <==> h <= 8
    ensures h <= 8 ==> DigitValue(HexChar(h) as nat) == h
  {
  }

  /** Eight hex characters of the half bytes of `data` decode to `data` exactly when every half
      byte is at most 8. */
  lemma DecodeHexName(name: seq<Byte>, data: seq<Byte>)
    requires |data| == 4 && |name| == 8
    requires forall k :: 0 <= k < 4 ==>
      name[2 * k] == HexChar(data[k] / 16) as nat && name[2 * k + 1] == HexChar(data[k] % 16) as nat
    ensures DecodeTag(name) == if LowHalves(data) then Some(data) else None
  {
    hide HexChar;
    forall k | 0 <= k < 4
      ensures IsTagDigit(name[2 * k]) <==> data[k] / 16 <= 8
      ensures IsTagDigit(name[2 * k + 1]) <==> data[k] % 16 <= 8
      ensures data[k] / 16 <= 8 ==> DigitValue(name[2 * k]) == data[k] / 16
      ensures data[k] % 16 <= 8 ==> DigitValue(name[2 * k + 1]) == data[k] % 16
    {
      HexCharDigit(data[k] / 16);
      HexCharDigit(data[k] % 16);
    }
    if LowHalves(data) {
      forall i | 0 <= i < 8 ensures IsTagDigit(name[i]) {
        var k := i / 2;
        assert data[k] / 16 <= 8 && data[k] % 16 <= 8;
        if i % 2 == 0 {
          assert i == 2 * k;
        } else {
          assert i == 2 * k + 1;
        }
      }
      var d := DecodeTag(name).value;
      forall j | 0 <= j < 4 ensures d[j] == data[j] {
        assert d[j] == 16 * (data[j] / 16) + data[j] % 16;
      }
      assert d == data;
    } else {
      var k :| 0 <= k < 4 && !(data[k] / 16 <= 8 && data[k] % 16 <= 8);
      if data[k] / 16 > 8 {
        assert !IsTagDigit(name[2 * k]);
      } else {
        assert !IsTagDigit(name[2 * k + 1]);
      }
    }
  }

  /** Decoding the name of a 4-byte tag gives the tag back exactly when the tag is plain or all
      its half bytes are at most 8; otherwise the decoder refuses the name. */
  lemma TagRoundTrip(data: seq<Byte>)
    requires |data| == 4
    ensures DecodeTag(TagName(data)) == if IsPlainTag(data) || LowHalves(data) then Some(data) else None
  {
    if IsPlainTag(data) {
      assert TagName(data) == data;
    } else {
      HexName(data);
      hide TagName, EncodeTag, HexChar, DecodeTag;
      DecodeHexName(TagName(data), data);
    }
  }

  /** An ASCII byte that may start an XML element name: a letter, '_' or ':' (section 2.3 of
      the XML 1.0 recommendation, "Common Syntactic Constructs"). */
  predicate IsNameStart(b: Byte) {
    ('A' as nat <= b <= 'Z' as nat) || ('a' as nat <= b <= 'z' as nat) || b == '_' as nat || b == ':' as nat
  }

  /** An ASCII byte that may follow it: one of those, a digit, '-' or '.'. */
  predicate IsNameByte(b: Byte) {
    IsNameStart(b) || ('0' as nat <= b <= '9' as nat) || b == '-' as nat || b == '.' as nat
  }

  /** An ASCII element name the markup parser accepts. */
  predicate IsXmlName(name: seq<Byte>) {
    |name| > 0 && IsNameStart(name[0]) && forall k :: 0 <= k < |name| ==> IsNameByte(name[k])
  }

  /** The name of a 4-byte tag is one the markup parser accepts and that decodes back to the tag
      exactly when the tag is plain and starts with a letter or '_'. A hex name starts with the
      character of the first byte's high half: a digit, which no element name may start with, or
      'K' to 'P', which the decoder refuses. */
  lemma NameReadIff(data: seq<Byte>)
    requires |data| == 4
    ensures IsXmlName(TagName(data)) && DecodeTag(TagName(data)) == Some(data) <==>
            IsPlainTag(data) && IsNameStart(data[0])
  {
    if IsPlainTag(data) {
      assert TagName(data) == data;
    } else {
      HexName(data);
      var name := TagName(data);
      hide TagName, EncodeTag;
      if data[0] / 16 < 10 {
        assert !IsNameStart(name[0]);
      } else {
        assert !IsTagDigit(name[0]);
        assert DecodeTag(name) == None;
      }
    }
  }
}
