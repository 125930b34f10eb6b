/** `encodeURIComponent`, which the export applies to the workbook's file
    name (src/utils/excel/excelUtils.ts:263-265): every character outside
    the unreserved set becomes the `%XY` escapes of its UTF-8 bytes. The
    inverse here is percent-decoding to bytes. */
module Uri {
  import opened Text

  type Byte = b: int | 0 <= b < 256

  /** `A-Z a-z 0-9 - _ . ! ~ * ' ( )`: left as they are. */
  predicate IsUnreserved(c: char) {
    IsAlnum(c) || c == '-' || c == '_' || c == '.' || c == '!' || c == '~' || c == '*'
    || c == '\'' || c == '(' || c == ')'
  }

  /** The UTF-8 encoding of one Unicode scalar value. */
  function Utf8(c: char): (bs: seq<Byte>)
    ensures 1 <= |bs| <= 4
    ensures (|bs| == 1) <==> (c as int < 0x80)
  {
    var cp := c as int;
    if cp < 0x80 then [cp]
    else if cp < 0x800 then [0xC0 + cp / 64, 0x80 + cp % 64]
    else if cp < 0x10000 then [0xE0 + cp / 4096, 0x80 + (cp / 64) % 64, 0x80 + cp % 64]
    else [0xF0 + cp / 262144, 0x80 + (cp / 4096) % 64, 0x80 + (cp / 64) % 64, 0x80 + cp % 64]
  }

  /** The UTF-8 encoding of a text. */
  function Utf8Bytes(s: string): seq<Byte> {
    if s == [] then [] else Utf8(s[0]) + Utf8Bytes(s[1..])
  }

  predicate IsHexDigit(c: char) { IsDigit(c) || 'A' <= c <= 'F' }

  function HexDigit(d: nat): (c: char)
    requires d < 16
    ensures IsHexDigit(c)
  {
    if d < 10 then ('0' as int + d) as char else ('A' as int + d - 10) as char
  }

  function HexValue(c: char): (d: nat)
    requires IsHexDigit(c)
    ensures d < 16 && HexDigit(d) == c
  {
    if IsDigit(c) then c as int - '0' as int else c as int - 'A' as int + 10
  }

  /** `%XY` for every byte, upper-case hexadecimal. */
  function Escape(bs: seq<Byte>): (e: string)
    ensures |e| == 3 * |bs|
  {
    if bs == [] then [] else ['%', HexDigit(bs[0] / 16), HexDigit(bs[0] % 16)] + Escape(bs[1..])
  }

  function EncodeChar(c: char): string {
    if IsUnreserved(c) then [c] else Escape(Utf8(c))
  }

  /** `encodeURIComponent(s)`. */
  function EncodeUriComponent(s: string): (e: string)
    ensures All(e, c => IsUnreserved(c) || c == '%' || IsHexDigit(c))
  {
    if s == [] then []
    else
      var head := EncodeChar(s[0]);
      assert All(head, c => IsUnreserved(c) || c == '%' || IsHexDigit(c)) by {
        if !IsUnreserved(s[0]) {
          EscapeAlphabet(Utf8(s[0]));
        }
      }
      head + EncodeUriComponent(s[1..])
  }

  lemma {:induction false} EscapeAlphabet(bs: seq<Byte>)
    ensures All(Escape(bs), c => c == '%' || IsHexDigit(c))
  {
    if bs != [] {
      EscapeAlphabet(bs[1..]);
    }
  }

  /** Percent-decoding to bytes: `%XY` is the byte `XY`, any other
      character stands for its UTF-8 bytes. */
  function Decode(e: string): seq<Byte> {
    if e == [] then []
    else if |e| >= 3 && e[0] == '%' && IsHexDigit(e[1]) && IsHexDigit(e[2]) then
      [16 * HexValue(e[1]) + HexValue(e[2])] + Decode(e[3..])
    else Utf8(e[0]) + Decode(e[1..])
  }

  /** One escape decodes to its byte. */
  lemma DecodeOneEscape(b: Byte, tail: string)
    ensures Decode(['%', HexDigit(b / 16), HexDigit(b % 16)] + tail) == [b] + Decode(tail)
  {
    var e := ['%', HexDigit(b / 16), HexDigit(b % 16)] + tail;
    assert e[0] == '%' && e[1] == HexDigit(b / 16) && e[2] == HexDigit(b % 16);
    assert HexValue(e[1]) == b / 16 && HexValue(e[2]) == b % 16;
    assert e[3..] == tail;
  }

  lemma {:induction false} DecodeEscape(bs: seq<Byte>, rest: string)
    ensures Decode(Escape(bs) + rest) == bs + Decode(rest)
  {
    if bs == [] {
      assert Escape(bs) + rest == rest;
    } else {
      var b := bs[0];
      var tail := Escape(bs[1..]) + rest;
      assert Escape(bs) + rest == ['%', HexDigit(b / 16), HexDigit(b % 16)] + tail;
      DecodeOneEscape(b, tail);
      DecodeEscape(bs[1..], rest);
      assert bs == [b] + bs[1..];
    }
  }

  /** Decoding the encoding of a text gives the text's UTF-8 bytes. */
  lemma {:induction false} DecodeEncode(s: string)
    ensures Decode(EncodeUriComponent(s)) == Utf8Bytes(s)
  {
    if s != [] {
      var rest := EncodeUriComponent(s[1..]);
      DecodeEncode(s[1..]);
      if IsUnreserved(s[0]) {
        assert EncodeUriComponent(s) == [s[0]] + rest;
        assert ([s[0]] + rest)[1..] == rest;
      } else {
        DecodeEscape(Utf8(s[0]), rest);
      }
    }
  }

  /** Encoding works character by character. */
  lemma {:induction false} EncodeAppend(a: string, b: string)
    ensures EncodeUriComponent(a + b) == EncodeUriComponent(a) + EncodeUriComponent(b)
  {
    if a == [] {
      assert a + b == b;
    } else {
      assert (a + b)[0] == a[0] && (a + b)[1..] == a[1..] + b;
      EncodeAppend(a[1..], b);
    }
  }

  /** A text of unreserved characters is its own encoding. */
  lemma {:induction false} EncodeUnreserved(s: string)
    requires All(s, IsUnreserved)
    ensures EncodeUriComponent(s) == s
  {
    if s != [] {
      EncodeUnreserved(s[1..]);
      assert s == [s[0]] + s[1..];
    }
  }
}
