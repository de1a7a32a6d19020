/** The hex payload renderer (`Bytes` and its `Display`): two upper-case hexadecimal digits
    per byte, with a newline every `width` bytes and a space every `precision` bytes. */
module HexText {
  import opened Wire
  import opened Wrappers

  /** One upper-case hexadecimal digit, as `{:02X}` writes it. */
  function UpperHexDigit(h: nat): (c: char)
    requires h < 16
    ensures ('0' <= c <= '9' || 'A' <= c <= 'F')
  {
    if h < 10 then ('0' as nat + h) as char else ('A' as nat + h - 10) as char
  }

  /** A byte as two digits, high half first. */
  function Hex2(b: Byte): string {
    [UpperHexDigit(b / 16), UpperHexDigit(b % 16)]
  }

  /** Every byte as two digits, in order, with nothing between them. */
  function HexDigits(data: seq<Byte>): (r: string)
    ensures |r| == 2 * |data|
  {
    if data == [] then [] else HexDigits(data[..|data| - 1]) + Hex2(data[|data| - 1])
  }

  /** What is written before byte `i`: nothing before the first byte; a newline when a row of
      `width` bytes (if `width` is set) has just ended; otherwise a space when a group of
      `precision` bytes (if `precision` is set) has just ended within the row. */
  function Separator(i: nat, width: nat, precision: nat): string {
    if i == 0 then ""
    else if width > 0 && i % width == 0 then "\n"
    else if precision > 0 && (if width > 0 then i % width else i) % precision == 0 then " "
    else ""
  }

  /** The rendered text: for each byte its separator, then its two digits. */
  function Layout(data: seq<Byte>, width: nat, precision: nat): string {
    if data == [] then ""
    else Layout(data[..|data| - 1], width, precision) + Separator(|data| - 1, width, precision) + Hex2(data[|data| - 1])
  }

  predicate IsWhitespace(c: char) {
    c == ' ' || c == '\t' || c == '\r' || c == '\n'
  }

  /** The text with its whitespace deleted. */
  function RemoveWhitespace(s: string): (r: string)
    ensures |r| <= |s|
  {
    if s == [] then ""
    else RemoveWhitespace(s[..|s| - 1]) + if IsWhitespace(s[|s| - 1]) then "" else [s[|s| - 1]]
  }

  lemma {:induction false} RemoveWhitespaceAppend(a: string, b: string)
    ensures RemoveWhitespace(a + b) == RemoveWhitespace(a) + RemoveWhitespace(b)
  {
    if b != [] {
      var b' := b[..|b| - 1];
      assert (a + b)[..|a + b| - 1] == a + b';
      RemoveWhitespaceAppend(a, b');
    } else {
      assert a + b == a;
    }
  }

  /** `Bytes::fmt` with the formatter's width and precision (0 when unset): the row position
      `w` is the index modulo the width, or the index itself without one. */
  method FormatBytes(data: seq<Byte>, width: nat, precision: nat) returns (s: string)
    ensures s == Layout(data, width, precision)
    ensures RemoveWhitespace(s) == HexDigits(data)
  {
    s := "";
    for i := 0 to |data|
      invariant s == Layout(data[..i], width, precision)
    {
      LayoutSnoc(data, i, width, precision);
      hide Hex2, RemoveWhitespace, HexDigits, Layout;
      ghost var before := s;
      if i > 0 {
        var w := if width > 0 then i % width else i;
        if w == 0 {
          s := s + "\n";
        } else if precision > 0 && w % precision == 0 {
          s := s + " ";
        }
      }
      assert s == before + Separator(i, width, precision);
      s := s + Hex2(data[i]);
    }
    assert data[..|data|] == data;
    LayoutDigits(data, width, precision);
  }

  /** The layout of one more byte appends its separator and its digits. */
  lemma LayoutSnoc(data: seq<Byte>, i: nat, width: nat, precision: nat)
    requires i < |data|
    ensures Layout(data[..i + 1], width, precision) ==
            Layout(data[..i], width, precision) + Separator(i, width, precision) + Hex2(data[i])
  {
    assert data[..i + 1][..i] == data[..i];
  }

  /** Deleting the whitespace from the rendered text leaves exactly the digits of the bytes. */
  lemma {:induction false} LayoutDigits(data: seq<Byte>, width: nat, precision: nat)
    ensures RemoveWhitespace(Layout(data, width, precision)) == HexDigits(data)
  {
    if data != [] {
      hide Separator, Hex2;
      var n := |data| - 1;
      var head := Layout(data[..n], width, precision);
      var sep := Separator(n, width, precision);
      var h := Hex2(data[n]);
      assert Layout(data, width, precision) == (head + sep) + h;
      assert HexDigits(data) == HexDigits(data[..n]) + h;
      hide Layout, HexDigits, RemoveWhitespace;
      LayoutDigits(data[..n], width, precision);
      RemoveWhitespaceAppend(head + sep, h);
      RemoveWhitespaceAppend(head, sep);
      SeparatorIsWhitespace(n, width, precision);
      DigitsKeep(data[n]);
    }
  }

  lemma SeparatorIsWhitespace(i: nat, width: nat, precision: nat)
    ensures RemoveWhitespace(Separator(i, width, precision)) == ""
  {
    var sep := Separator(i, width, precision);
    if sep != "" {
      assert sep[..0] == "";
    }
  }

  lemma DigitsKeep(b: Byte)
    ensures RemoveWhitespace(Hex2(b)) == Hex2(b)
  {
    var h := Hex2(b);
    assert h[..1][..0] == "";
    assert h[..2][..1] == h[..1];
    assert h == h[..2];
  }

  /** With neither width nor precision the rendering has no separators at all. */
  lemma {:induction false} LayoutUnseparated(data: seq<Byte>)
    ensures Layout(data, 0, 0) == HexDigits(data)
  {
    if data != [] {
      LayoutUnseparated(data[..|data| - 1]);
    }
  }

  /** The value of one hexadecimal digit, either case. */
  function HexValue(c: char): (v: Option<nat>)
    ensures v.Some? ==> v.value < 16
  {
    if '0' <= c <= '9' then Some(c as nat - '0' as nat)
    else if 'A' <= c <= 'F' then Some(c as nat - 'A' as nat + 10)
    else if 'a' <= c <= 'f' then Some(c as nat - 'a' as nat + 10)
    else None
  }

  /** Reads whitespace-free hex text back: consecutive digit pairs, none when the length is odd
      or a character is not a digit. */
  function DecodeHex(s: string): (r: Option<seq<Byte>>)
    ensures r.Some? ==> 2 * |r.value| == |s|
  {
    if s == [] then Some([])
    else if |s| == 1 then None
    else
      match (DecodeHex(s[..|s| - 2]), HexValue(s[|s| - 2]), HexValue(s[|s| - 1]))
      case (Some(init), Some(high), Some(low)) => Some(init + [16 * high + low])
      case _ => None
  }

  /** The rendered payload, whitespace deleted, decodes to the payload for every width and precision. */
  lemma {:induction false} HexRoundTrip(data: seq<Byte>, width: nat, precision: nat)
    ensures DecodeHex(RemoveWhitespace(Layout(data, width, precision))) == Some(data)
  {
    LayoutDigits(data, width, precision);
    DecodeHexDigits(data);
  }

  /** The digits of a byte read back as its two halves. */
  lemma Hex2Values(b: Byte)
    ensures HexValue(Hex2(b)[0]) == Some(b / 16) && HexValue(Hex2(b)[1]) == Some(b % 16)
  {
  }

  /** Two digits appended to decodable text append the byte they stand for. */
  lemma DecodeHexSnoc(t: string, h: string, init: seq<Byte>, b: Byte)
    requires |h| == 2 && DecodeHex(t) == Some(init)
    requires HexValue(h[0]) == Some(b / 16) && HexValue(h[1]) == Some(b % 16)
    ensures DecodeHex(t + h) == Some(init + [b])
  {
    var s := t + h;
    assert s[..|s| - 2] == t && s[|s| - 2] == h[0] && s[|s| - 1] == h[1];
  }

  lemma {:induction false} DecodeHexDigits(data: seq<Byte>)
    ensures DecodeHex(HexDigits(data)) == Some(data)
  {
    if data != [] {
      var init, b := data[..|data| - 1], data[|data| - 1];
      assert data == init + [b];
      var t, h := HexDigits(init), Hex2(b);
      assert HexDigits(data) == t + h;
      hide HexValue, Hex2, HexDigits, DecodeHex;
      DecodeHexDigits(init);
      Hex2Values(b);
      DecodeHexSnoc(t, h, init, b);
    }
  }
}
