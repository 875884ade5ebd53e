/** Labels as the classifier and the test archive hand them over, and their
    conversion to display text (`decode_label`, app.py:51-58). */
module Labels {
  import opened Options
  import opened Utf8

  /** A predicted or ground-truth label value: a `bytes` or `bytearray`
      object, a `str`, or any other object, which is known here only by the
      text `str()` makes of it. */
  datatype Label =
    | Bytes(data: seq<byte>)
    | ByteArray(data: seq<byte>)
    | Text(text: string)
    | Other(str: string)
  {
    predicate IsByteString() {
      Bytes? || ByteArray?
    }
  }

  /** The printable ASCII range `' '..'~'`. */
  predicate IsPrintableAscii(c: char) {
    ' ' <= c <= '~'
  }

  predicate AllPrintableAscii(s: string) {
    forall i | 0 <= i < |s| :: IsPrintableAscii(s[i])
  }

  /** The lower-case hexadecimal digit of `d`, and its inverse. */
  function HexDigit(d: int): (c: char)
    requires 0 <= d < 16
    ensures IsPrintableAscii(c)
    ensures HexValue(c) == Some(d)
  {
    if d < 10 then ('0' as int + d) as char else ('a' as int + d - 10) as char
  }

  function HexValue(c: char): (r: Option<int>)
    ensures r.Some? ==> 0 <= r.value < 16
  {
    if '0' <= c <= '9' then Some(c as int - '0' as int)
    else if 'a' <= c <= 'f' then Some(c as int - 'a' as int + 10)
    else None
  }

  /** The quote character `repr` puts around a byte string: a double quote
      when the bytes contain a single quote and no double quote, a single
      quote otherwise. */
  function QuoteFor(data: seq<byte>): (q: char)
    ensures q == '\'' || q == '"'
    ensures q == '"' <==> 39 in data && 34 !in data
  {
    if 39 in data && 34 !in data then '"' else '\''
  }

  /** How one byte appears inside the quotes of a `bytes` repr: the quote
      and the backslash are escaped, tab, newline and carriage return get
      their letter escapes, other non-printable bytes a `\xhh` escape, and
      printable bytes stand for themselves. */
  function EscapeByte(b: byte, quote: char): (r: string)
    requires quote == '\'' || quote == '"'
    ensures 1 <= |r| <= 4
    ensures AllPrintableAscii(r)
    ensures 0x20 <= b < 0x7F && b as int != quote as int && b != 0x5C ==> r == [b as int as char]
  {
    if b as int == quote as int || b == 0x5C then ['\\', b as int as char]
    else if b == 0x09 then "\\t"
    else if b == 0x0A then "\\n"
    else if b == 0x0D then "\\r"
    else if b < 0x20 || b >= 0x7F then
      var hi, lo := b as int / 16, b as int % 16;
      ['\\', 'x', HexDigit(hi), HexDigit(lo)]
    else [b as int as char]
  }

  /** Reading one escape back gives the byte it was made from. */
  lemma EscapeByteReadsBack(b: byte, quote: char, rest: string)
    requires quote == '\'' || quote == '"'
    ensures ReadEscapes(EscapeByte(b, quote) + rest) == Prepend(b, ReadEscapes(rest))
  {
    var e := EscapeByte(b, quote);
    var s := e + rest;
    assert forall i | 0 <= i < |e| :: s[i] == e[i];
    assert s[|e|..] == rest;
    if b < 0x20 || b >= 0x7F {
      if b as int != quote as int && b != 0x5C && b != 0x09 && b != 0x0A && b != 0x0D {
        var hi, lo := b as int / 16, b as int % 16;
        assert b as int == hi * 16 + lo;
        assert s[2] == HexDigit(hi) && s[3] == HexDigit(lo);
      }
    }
  }

  function EscapeAll(data: seq<byte>, quote: char): (r: string)
    requires quote == '\'' || quote == '"'
  {
    if |data| == 0 then [] else EscapeByte(data[0], quote) + EscapeAll(data[1..], quote)
  }

  function Prepend(b: byte, rest: Option<seq<byte>>): Option<seq<byte>> {
    match rest
    case None => None
    case Some(t) => Some([b] + t)
  }

  /** Reads the body of a byte-string literal back into bytes: printable
      characters stand for themselves, and `\xhh`, `\t`, `\n`, `\r`,
      `\\`, `\'` and `\"` are the escapes. */
  function ReadEscapes(s: string): Option<seq<byte>>
    decreases |s|
  {
    if |s| == 0 then Some([])
    else if s[0] != '\\' then
      if IsPrintableAscii(s[0]) then Prepend(s[0] as int as byte, ReadEscapes(s[1..])) else None
    else if |s| < 2 then None
    else if s[1] == 'x' then
      if |s| >= 4 && HexValue(s[2]).Some? && HexValue(s[3]).Some? then
        Prepend((HexValue(s[2]).value * 16 + HexValue(s[3]).value) as byte, ReadEscapes(s[4..]))
      else None
    else if s[1] == 't' then Prepend(0x09, ReadEscapes(s[2..]))
    else if s[1] == 'n' then Prepend(0x0A, ReadEscapes(s[2..]))
    else if s[1] == 'r' then Prepend(0x0D, ReadEscapes(s[2..]))
    else if s[1] == '\\' || s[1] == '\'' || s[1] == '"' then Prepend(s[1] as int as byte, ReadEscapes(s[2..]))
    else None
  }

  /** Every escaped form is printable ASCII, 1 to 4 characters per byte. */
  lemma {:induction false} EscapeAllPrintable(data: seq<byte>, quote: char)
    requires quote == '\'' || quote == '"'
    ensures AllPrintableAscii(EscapeAll(data, quote))
    ensures |data| <= |EscapeAll(data, quote)| <= 4 * |data|
  {
    if |data| > 0 {
      EscapeAllPrintable(data[1..], quote);
      var h := EscapeByte(data[0], quote);
      var t := EscapeAll(data[1..], quote);
      assert forall i | 0 <= i < |h + t| :: (h + t)[i] == if i < |h| then h[i] else t[i - |h|];
    }
  }

  /** The escaped body reads back as the original bytes: escaping loses
      nothing. */
  lemma {:induction false} EscapeAllReadsBack(data: seq<byte>, quote: char)
    requires quote == '\'' || quote == '"'
    ensures ReadEscapes(EscapeAll(data, quote)) == Some(data)
  {
    if |data| > 0 {
      EscapeByteReadsBack(data[0], quote, EscapeAll(data[1..], quote));
      EscapeAllReadsBack(data[1..], quote);
      assert [data[0]] + data[1..] == data;
    }
  }

  /** Reads a `b'...'` or `b"..."` literal back into bytes. */
  function ReadBytesRepr(r: string): Option<seq<byte>> {
    if |r| >= 3 && r[0] == 'b' && (r[1] == '\'' || r[1] == '"') && r[|r| - 1] == r[1]
    then ReadEscapes(r[2..|r| - 1])
    else None
  }

  /** Python's `repr` of a `bytes` object, which is also its `str()`: `b`, a
      quote, the escaped bytes and the same quote, all printable ASCII, and
      it reads back as exactly the bytes it was made from. */
  function BytesRepr(data: seq<byte>): (r: string)
    ensures |r| >= 3 && r[0] == 'b' && r[1] == QuoteFor(data) && r[|r| - 1] == r[1]
    ensures AllPrintableAscii(r)
    ensures ReadBytesRepr(r) == Some(data)
  {
    var q := QuoteFor(data);
    var e := EscapeAll(data, q);
    EscapeAllPrintable(data, q);
    EscapeAllReadsBack(data, q);
    var r := "b" + [q] + e + [q];
    assert r[2..|r| - 1] == e;
    assert forall i | 0 <= i < |r| :: r[i] == if i == 0 then 'b' else if i == 1 then q else if i < |r| - 1 then e[i - 2] else q;
    r
  }

  /** Python's `str()`: the text of a `str`, the readable literal of a byte
      string (wrapped in `bytearray(...)` for a `bytearray`), and whatever the
      object's own conversion gives otherwise. */
  function Str(x: Label): (r: string)
    ensures x.Text? ==> r == x.text
    ensures x.Other? ==> r == x.str
    ensures x.Bytes? ==> ReadBytesRepr(r) == Some(x.data)
    ensures x.ByteArray? ==> |r| > 11 && r[..10] == "bytearray(" && r[|r| - 1] == ')'
                             && ReadBytesRepr(r[10..|r| - 1]) == Some(x.data)
    ensures x.IsByteString() ==> AllPrintableAscii(r)
  {
    match x
    case Bytes(d) => BytesRepr(d)
    case ByteArray(d) =>
      var b := BytesRepr(d);
      var r := "bytearray(" + b + ")";
      assert r[10..|r| - 1] == b;
      assert forall i | 0 <= i < |r| :: r[i] == if i < 10 then "bytearray("[i] else if i < |r| - 1 then b[i - 10] else ')';
      r
    case Text(s) => s
    case Other(s) => s
  }

  /** `decode_label`: byte strings are decoded as UTF-8; when that fails,
      and for every other value, the result is `str(x)`. It never fails. */
  function DecodeLabel(x: Label): (r: string)
    ensures x.IsByteString() && Decode(x.data).Some? ==> Encode(r) == x.data
    ensures x.IsByteString() && Decode(x.data).None? ==> r == Str(x)
    ensures x.Text? ==> r == x.text
    ensures x.Other? ==> r == x.str
  {
    if x.IsByteString() then
      match Decode(x.data)
      case Some(s) => s
      case None => Str(x)
    else Str(x)
  }

  /** A byte string holding the UTF-8 encoding of some text is shown as that
      text. */
  lemma DecodeLabelOfEncoded(s: string)
    ensures DecodeLabel(Bytes(Encode(s))) == s
    ensures DecodeLabel(ByteArray(Encode(s))) == s
  {
    DecodeEncode(s);
  }

  /** An undecodable byte string falls back to its repr: printable ASCII,
      `b` and matching quotes around the escaped bytes, from which the bytes
      can be read back. */
  lemma UndecodableFallsBackToRepr(d: seq<byte>)
    requires Decode(d).None?
    ensures var r := DecodeLabel(Bytes(d));
      && |r| >= 3 && r[0] == 'b'
      && (r[1] == '\'' || r[1] == '"') && r[|r| - 1] == r[1]
      && AllPrintableAscii(r)
      && ReadBytesRepr(r) == Some(d)
  {
  }
}
