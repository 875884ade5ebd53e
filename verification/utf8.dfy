/** UTF-8 as defined by RFC 3629: the codec Python's `bytes.decode()` uses
    when no encoding is named. Decoding is strict: a byte string that is not
    a concatenation of well-formed sequences (section 4 of RFC 3629) has no
    decoding, which is where Python raises `UnicodeDecodeError`. */
module Utf8 {
  import opened Options

  newtype byte = x: int | 0 <= x < 256

  /** A continuation byte, `80..BF`. */
  predicate IsTail(b: byte) {
    0x80 <= b <= 0xBF
  }

  /** Lower and upper bound of the second byte of a multi-byte sequence whose
      lead byte is `lead` (the rows of the table in section 4 of RFC 3629:
      these bounds exclude overlong forms, surrogates and code points above
      U+10FFFF). */
  function SecondLow(lead: byte): byte {
    if lead == 0xE0 then 0xA0 else if lead == 0xF0 then 0x90 else 0x80
  }

  function SecondHigh(lead: byte): byte {
    if lead == 0xED then 0x9F else if lead == 0xF4 then 0x8F else 0xBF
  }

  /** Number of bytes of the sequence a lead byte announces; 0 when `lead`
      cannot start a well-formed sequence (`80..C1`, `F5..FF`). */
  function SequenceLength(lead: byte): (n: nat)
    ensures n <= 4
    ensures n == 1 <==> lead < 0x80
  {
    if lead < 0x80 then 1
    else if 0xC2 <= lead <= 0xDF then 2
    else if 0xE0 <= lead <= 0xEF then 3
    else if 0xF0 <= lead <= 0xF4 then 4
    else 0
  }

  predicate IsScalar(cp: int) {
    (0 <= cp < 0xD800) || (0xE000 <= cp < 0x11_0000)
  }

  /** True when `s` starts with a well-formed sequence of `n` bytes. */
  predicate WellFormedPrefix(s: seq<byte>, n: nat)
  {
    && |s| > 0
    && n == SequenceLength(s[0])
    && 1 <= n <= |s|
    && (n >= 2 ==> SecondLow(s[0]) <= s[1] <= SecondHigh(s[0]))
    && (n >= 3 ==> IsTail(s[2]))
    && (n == 4 ==> IsTail(s[3]))
  }

  /** The code point a well-formed leading sequence encodes. */
  function CodePoint(s: seq<byte>, n: nat): (cp: int)
    requires WellFormedPrefix(s, n)
    ensures IsScalar(cp)
    ensures n == 1 ==> 0 <= cp < 0x80
    ensures n == 2 ==> 0x80 <= cp < 0x800
    ensures n == 3 ==> 0x800 <= cp < 0x1_0000
    ensures n == 4 ==> 0x1_0000 <= cp < 0x11_0000
  {
    if n == 1 then s[0] as int
    else if n == 2 then (s[0] as int - 0xC0) * 64 + (s[1] as int - 0x80)
    else if n == 3 then
      (s[0] as int - 0xE0) * 4096 + (s[1] as int - 0x80) * 64 + (s[2] as int - 0x80)
    else
      (s[0] as int - 0xF0) * 262144 + (s[1] as int - 0x80) * 4096
        + (s[2] as int - 0x80) * 64 + (s[3] as int - 0x80)
  }

  /** The UTF-8 encoding of one character: the shortest form, 1 to 4 bytes. */
  function EncodeChar(c: char): (e: seq<byte>)
    ensures 1 <= |e| <= 4
  {
    var n := c as int;
    if n < 0x80 then [n as byte]
    else if n < 0x800 then [(0xC0 + n / 64) as byte, (0x80 + n % 64) as byte]
    else if n < 0x1_0000 then
      [(0xE0 + n / 4096) as byte, (0x80 + (n / 64) % 64) as byte, (0x80 + n % 64) as byte]
    else
      [(0xF0 + n / 262144) as byte, (0x80 + (n / 4096) % 64) as byte,
       (0x80 + (n / 64) % 64) as byte, (0x80 + n % 64) as byte]
  }

  function Encode(s: string): (e: seq<byte>)
    ensures |s| <= |e| <= 4 * |s|
  {
    if |s| == 0 then [] else EncodeChar(s[0]) + Encode(s[1..])
  }

  /** Encoding distributes over a leading character. */
  lemma EncodeCons(c: char, rest: string)
    ensures Encode([c] + rest) == EncodeChar(c) + Encode(rest)
  {
    assert ([c] + rest)[0] == c;
    assert ([c] + rest)[1..] == rest;
  }

  /** `s` starts with the encoding of `c`. */
  predicate StartsWithEncoding(s: seq<byte>, c: char) {
    |EncodeChar(c)| <= |s| && s[..|EncodeChar(c)|] == EncodeChar(c)
  }

  /** Division by a constant radix undoes the positional composition the
      decoder performs. */
  lemma Split(q: int, r: int, d: int)
    requires d == 64 || d == 4096 || d == 262144
    requires 0 <= q && 0 <= r < d
    ensures (q * d + r) / d == q && (q * d + r) % d == r
  {
  }

  /** Encoding side, one lemma per sequence length: the bytes `EncodeChar`
      produces form a well-formed sequence of the announced length that
      carries the character's code point. */
  lemma EncodedIsWellFormed2(c: char, s: seq<byte>)
    requires 0x80 <= c as int < 0x800 && StartsWithEncoding(s, c)
    ensures WellFormedPrefix(s, 2) && CodePoint(s, 2) == c as int
  {
    var n := c as int;
    assert s[0] == EncodeChar(c)[0] && s[1] == EncodeChar(c)[1];
    assert n == (n / 64) * 64 + n % 64;
  }

  lemma EncodedIsWellFormed3(c: char, s: seq<byte>)
    requires 0x800 <= c as int < 0x1_0000 && StartsWithEncoding(s, c)
    ensures WellFormedPrefix(s, 3) && CodePoint(s, 3) == c as int
  {
    var n := c as int;
    assert s[0] == EncodeChar(c)[0] && s[1] == EncodeChar(c)[1] && s[2] == EncodeChar(c)[2];
    assert n / 64 == (n / 4096) * 64 + (n / 64) % 64;
    assert n == (n / 64) * 64 + n % 64;
  }

  lemma EncodedIsWellFormed4(c: char, s: seq<byte>)
    requires 0x1_0000 <= c as int && StartsWithEncoding(s, c)
    ensures WellFormedPrefix(s, 4) && CodePoint(s, 4) == c as int
  {
    var n := c as int;
    var a, b, x, d := n / 262144, (n / 4096) % 64, (n / 64) % 64, n % 64;
    assert n / 4096 == a * 64 + b;
    assert n / 64 == (n / 4096) * 64 + x;
    assert n == (n / 64) * 64 + d;
    assert n == a * 262144 + b * 4096 + x * 64 + d;
    assert s[..4] == [(0xF0 + a) as byte, (0x80 + b) as byte, (0x80 + x) as byte, (0x80 + d) as byte];
    assert s[0] as int == 0xF0 + a && s[1] as int == 0x80 + b;
    assert s[2] as int == 0x80 + x && s[3] as int == 0x80 + d;
  }

  /** Every character whose encoding starts `s` makes `s` well-formed at the
      length its lead byte announces, with that character's code point. */
  lemma EncodingsAreWellFormed(s: seq<byte>)
    requires |s| > 0
    ensures forall c | StartsWithEncoding(s, c) ::
      && SequenceLength(s[0]) == |EncodeChar(c)|
      && WellFormedPrefix(s, |EncodeChar(c)|)
      && CodePoint(s, |EncodeChar(c)|) == c as int
  {
    forall c | StartsWithEncoding(s, c)
      ensures && SequenceLength(s[0]) == |EncodeChar(c)|
              && WellFormedPrefix(s, |EncodeChar(c)|)
              && CodePoint(s, |EncodeChar(c)|) == c as int
    {
      var n := c as int;
      if n < 0x80 {
        assert s[0] == EncodeChar(c)[0];
      } else if n < 0x800 {
        EncodedIsWellFormed2(c, s);
      } else if n < 0x1_0000 {
        EncodedIsWellFormed3(c, s);
      } else {
        EncodedIsWellFormed4(c, s);
      }
    }
  }

  /** Decoding side, one lemma per sequence length: a well-formed sequence is
      exactly the shortest encoding of its code point. */
  lemma ShortestForm2(s: seq<byte>)
    requires WellFormedPrefix(s, 2)
    ensures EncodeChar(CodePoint(s, 2) as char) == s[..2]
  {
    var a, b := s[0] as int - 0xC0, s[1] as int - 0x80;
    Split(a, b, 64);
  }

  lemma ShortestForm3(s: seq<byte>)
    requires WellFormedPrefix(s, 3)
    ensures EncodeChar(CodePoint(s, 3) as char) == s[..3]
  {
    var cp := CodePoint(s, 3);
    var a, b, c := s[0] as int - 0xE0, s[1] as int - 0x80, s[2] as int - 0x80;
    assert cp == (a * 64 + b) * 64 + c;
    Split(a * 64 + b, c, 64);
    Split(a, b, 64);
    assert cp == a * 4096 + (b * 64 + c);
    Split(a, b * 64 + c, 4096);
  }

  lemma ShortestForm4(s: seq<byte>)
    requires WellFormedPrefix(s, 4)
    ensures EncodeChar(CodePoint(s, 4) as char) == s[..4]
  {
    var cp := CodePoint(s, 4);
    var a, b, c, d := s[0] as int - 0xF0, s[1] as int - 0x80, s[2] as int - 0x80, s[3] as int - 0x80;
    assert cp == ((a * 64 + b) * 64 + c) * 64 + d;
    Split((a * 64 + b) * 64 + c, d, 64);
    Split(a * 64 + b, c, 64);
    assert cp == (a * 64 + b) * 4096 + (c * 64 + d);
    Split(a * 64 + b, c * 64 + d, 4096);
    Split(a, b, 64);
    assert cp == a * 262144 + (b * 4096 + c * 64 + d);
    Split(a, b * 4096 + c * 64 + d, 262144);
  }

  lemma WellFormedIsEncoding(s: seq<byte>)
    requires |s| > 0 && WellFormedPrefix(s, SequenceLength(s[0]))
    ensures StartsWithEncoding(s, CodePoint(s, SequenceLength(s[0])) as char)
    ensures |EncodeChar(CodePoint(s, SequenceLength(s[0])) as char)| == SequenceLength(s[0])
  {
    var n := SequenceLength(s[0]);
    if n == 1 {
      assert EncodeChar(CodePoint(s, 1) as char) == s[..1];
    } else if n == 2 {
      ShortestForm2(s);
    } else if n == 3 {
      ShortestForm3(s);
    } else {
      ShortestForm4(s);
    }
  }

  /** Decodes the first character of `s`: the character and the number of
      bytes it occupies, or `None` if `s` does not start with the encoding of
      any character. The decoder is the inverse of `EncodeChar`: what it
      accepts is a shortest encoding, and every encoding is accepted. */
  function DecodeFirst(s: seq<byte>): (r: Option<(char, nat)>)
    requires |s| > 0
    ensures r.Some? ==> r.value.1 == |EncodeChar(r.value.0)| && StartsWithEncoding(s, r.value.0)
    ensures forall c | StartsWithEncoding(s, c) :: r == Some((c, |EncodeChar(c)|))
  {
    var n := SequenceLength(s[0]);
    EncodingsAreWellFormed(s);
    if WellFormedPrefix(s, n) then
      WellFormedIsEncoding(s);
      Some((CodePoint(s, n) as char, n))
    else None
  }

  /** One step of decoding: the first character's encoding followed by the
      encoding of the rest is the whole input. */
  lemma DecodeStep(s: seq<byte>, c: char, n: nat, rest: string)
    requires n <= |s| && s[..n] == EncodeChar(c) && Encode(rest) == s[n..]
    ensures Encode([c] + rest) == s
  {
    EncodeCons(c, rest);
    assert s == s[..n] + s[n..];
  }

  /** Strict decoding of a whole byte string (Python's `bytes.decode()`).
      Whatever it returns encodes back to the input, so nothing is lost. */
  function Decode(s: seq<byte>): (r: Option<string>)
    ensures r.Some? ==> Encode(r.value) == s
    decreases |s|
  {
    if |s| == 0 then Some([])
    else
      match DecodeFirst(s)
      case None => None
      case Some((c, n)) =>
        match Decode(s[n..])
        case None => None
        case Some(rest) =>
          DecodeStep(s, c, n, rest);
          Some([c] + rest)
  }

  /** Round trip: every string decodes from its encoding. */
  lemma {:induction false} DecodeEncode(s: string)
    ensures Decode(Encode(s)) == Some(s)
  {
    if |s| > 0 {
      var e := EncodeChar(s[0]);
      var tail := Encode(s[1..]);
      assert (e + tail)[..|e|] == e;
      assert StartsWithEncoding(e + tail, s[0]);
      assert (e + tail)[|e|..] == tail;
      DecodeEncode(s[1..]);
      assert [s[0]] + s[1..] == s;
    }
  }

  /** Decoding succeeds exactly on the encodings of strings. */
  lemma DecodableIffEncoding(s: seq<byte>)
    ensures Decode(s).Some? <==> exists t: string :: Encode(t) == s
  {
    if exists t: string :: Encode(t) == s {
      var t: string :| Encode(t) == s;
      DecodeEncode(t);
    }
  }
}
