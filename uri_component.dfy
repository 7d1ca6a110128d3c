/**
 * `encodeURIComponent` and `decodeURIComponent`: percent-encoding of the UTF-8 bytes
 * of every character outside the unreserved set (section 2.1 of RFC 3986, with the
 * character set of ECMAScript's `encodeURIComponent`), and its inverse, which throws
 * `URIError` on a malformed escape or invalid UTF-8 (RFC 3629).
 */
module UriComponent {
  import opened Wrappers
  import opened Sequences

  datatype UriError = URIError

  /** The characters `encodeURIComponent` leaves alone. */
  predicate IsUnreserved(c: char) {
    ('A' <= c <= 'Z') || ('a' <= c <= 'z') || ('0' <= c <= '9') || c in "-_.!~*'()"
  }

  predicate IsByte(b: int) { 0 <= b < 256 }

  /** The UTF-8 encoding of one code point. */
  function Utf8(c: char): (bytes: seq<int>)
    ensures 1 <= |bytes| <= 4
    ensures forall k | 0 <= k < |bytes| :: IsByte(bytes[k])
  {
    var u := c as int;
    if u < 0x80 then [u]
    else if u < 0x800 then [0xC0 + u / 64, 0x80 + u % 64]
    else if u < 0x10000 then [0xE0 + u / 4096, 0x80 + (u / 64) % 64, 0x80 + u % 64]
    else [0xF0 + u / 262144, 0x80 + (u / 4096) % 64, 0x80 + (u / 64) % 64, 0x80 + u % 64]
  }

  /** Upper-case hexadecimal digit, as `encodeURIComponent` writes them. */
  function HexDigit(d: int): char
    requires 0 <= d < 16
  {
    "0123456789ABCDEF"[d]
  }

  /** The value of a hexadecimal digit of either case. */
  function HexValue(c: char): Option<int> {
    if '0' <= c <= '9' then Some(c as int - '0' as int)
    else if 'A' <= c <= 'F' then Some(c as int - 'A' as int + 10)
    else if 'a' <= c <= 'f' then Some(c as int - 'a' as int + 10)
    else None
  }

  /** The escape `%HH` of one byte. */
  function PercentByte(b: int): string
    requires IsByte(b)
  {
    ['%', HexDigit(b / 16), HexDigit(b % 16)]
  }

  function PercentEncoded(bytes: seq<int>): (r: string)
    requires forall k | 0 <= k < |bytes| :: IsByte(bytes[k])
    ensures |r| == 3 * |bytes|
  {
    if bytes == [] then ""
    else
      var b := bytes[0];
      assert IsByte(b);
      PercentByte(b) + PercentEncoded(bytes[1..])
  }

  function EncodeChar(c: char): string {
    if IsUnreserved(c) then [c] else PercentEncoded(Utf8(c))
  }

  /** `encodeURIComponent(s)`. */
  function Encode(s: string): string {
    if s == [] then "" else EncodeChar(s[0]) + Encode(s[1..])
  }

  /** The byte written by the escape `%HH` at the start of `s`, if there is one. */
  function Escape(s: string): Option<int> {
    if |s| >= 3 && s[0] == '%' && HexValue(s[1]).Some? && HexValue(s[2]).Some? then
      Some(16 * HexValue(s[1]).value + HexValue(s[2]).value)
    else None
  }

  /** Reads `count` continuation escapes (`%80` to `%BF`) from the start of `s`. */
  function Continuation(s: string, count: nat): (r: Option<seq<int>>)
    ensures r.Some? ==> |s| >= 3 * count && |r.value| == count
    decreases count
  {
    if count == 0 then Some([])
    else
      match Escape(s)
      case Some(b) =>
        if 0x80 <= b < 0xC0 then
          match Continuation(s[3..], count - 1)
          case Some(bs) => Some([b] + bs)
          case None => None
        else None
      case None => None
  }

  /** Length of the UTF-8 sequence a lead byte announces, or 0 when it announces none. */
  function SequenceLength(b: int): nat {
    if 0xC0 <= b < 0xE0 then 2
    else if 0xE0 <= b < 0xF0 then 3
    else if 0xF0 <= b < 0xF8 then 4
    else 0
  }

  /** The payload bits of a lead byte. */
  function LeadBits(b: int, n: nat): int {
    if n == 2 then b - 0xC0 else if n == 3 then b - 0xE0 else b - 0xF0
  }

  /** A code point that `n` UTF-8 bytes may encode: not overlong, no surrogate, at most U+10FFFF. */
  predicate ValidCodePoint(u: int, n: nat) {
    && (n == 2 ==> 0x80 <= u < 0x800)
    && (n == 3 ==> 0x800 <= u < 0x10000 && !(0xD800 <= u < 0xE000))
    && (n == 4 ==> 0x10000 <= u < 0x110000)
  }

  function Prepend(c: char, r: Result<string, UriError>): Result<string, UriError> {
    match r
    case Ok(t) => Ok([c] + t)
    case Err(e) => Err(e)
  }

  /** `decodeURIComponent(s)`: every escape sequence replaced by the character it encodes. */
  function Decode(s: string): Result<string, UriError>
    decreases |s|
  {
    if s == [] then Ok("")
    else if s[0] != '%' then Prepend(s[0], Decode(s[1..]))
    else
      match Escape(s)
      case None => Err(URIError)
      case Some(b) =>
        if b < 0x80 then Prepend(b as char, Decode(s[3..]))
        else
          var n := SequenceLength(b);
          if n == 0 then Err(URIError)
          else
            match Continuation(s[3..], n - 1)
            case None => Err(URIError)
            case Some(cs) =>
              var u := Payload(cs, LeadBits(b, n));
              if ValidCodePoint(u, n) then Prepend(u as char, Decode(s[3 * n..]))
              else Err(URIError)
  }

  lemma HexRoundTrip(d: int)
    requires 0 <= d < 16
    ensures HexValue(HexDigit(d)) == Some(d)
  {
  }

  /** An escape written by the encoder reads back as its byte. */
  lemma EscapeOfByte(b: int, rest: string)
    requires IsByte(b)
    ensures Escape(PercentByte(b) + rest) == Some(b)
  {
    var s := PercentByte(b) + rest;
    HexRoundTrip(b / 16);
    HexRoundTrip(b % 16);
    assert s[0] == '%' && s[1] == HexDigit(b / 16) && s[2] == HexDigit(b % 16);
  }

  /** Six payload bits of each continuation byte appended to `acc`. */
  function Payload(bytes: seq<int>, acc: int): int
    decreases |bytes|
  {
    if bytes == [] then acc else Payload(bytes[1..], acc * 64 + (bytes[0] - 0x80))
  }

  /** The escapes of some bytes start with the escape of the first byte. */
  lemma FirstEscape(bytes: seq<int>, rest: string)
    requires bytes != [] && forall k | 0 <= k < |bytes| :: IsByte(bytes[k])
    ensures var s := PercentEncoded(bytes) + rest;
      |s| >= 3 && Escape(s) == Some(bytes[0]) && s[3..] == PercentEncoded(bytes[1..]) + rest
  {
    var tail := PercentEncoded(bytes[1..]) + rest;
    assert PercentEncoded(bytes) == PercentByte(bytes[0]) + PercentEncoded(bytes[1..]);
    AppendAssoc(PercentByte(bytes[0]), PercentEncoded(bytes[1..]), rest);
    DropAppend(PercentByte(bytes[0]), tail);
    EscapeOfByte(bytes[0], tail);
  }

  /** A continuation escape followed by `count` more reads as that byte, then the rest. */
  lemma ContinuationStep(s: string, count: nat, b: int, bs: seq<int>)
    requires |s| >= 3 && Escape(s) == Some(b) && 0x80 <= b < 0xC0
    requires Continuation(s[3..], count) == Some(bs)
    ensures Continuation(s, count + 1) == Some([b] + bs)
  {
  }

  /** The escapes of continuation bytes read back as those bytes. */
  lemma {:induction false} ContinuationOfBytes(bytes: seq<int>, rest: string)
    requires forall k | 0 <= k < |bytes| :: 0x80 <= bytes[k] < 0xC0
    ensures Continuation(PercentEncoded(bytes) + rest, |bytes|) == Some(bytes)
    decreases |bytes|
  {
    if bytes != [] {
      var s := PercentEncoded(bytes) + rest;
      var tail := bytes[1..];
      assert forall k | 0 <= k < |bytes| :: IsByte(bytes[k]);
      FirstEscape(bytes, rest);
      assert forall k | 0 <= k < |tail| :: 0x80 <= tail[k] < 0xC0;
      ContinuationOfBytes(tail, rest);
      assert Continuation(s[3..], |tail|) == Some(tail);
      ContinuationStep(s, |tail|, bytes[0], tail);
      assert [bytes[0]] + tail == bytes;
    }
  }

  /** The first escape of an encoded character, and what follows it. */
  lemma SplitFirstEscape(c: char, rest: string)
    requires !IsUnreserved(c)
    ensures var bytes := Utf8(c);
      var s := EncodeChar(c) + rest;
      Escape(s) == Some(bytes[0]) && s[3..] == PercentEncoded(bytes[1..]) + rest
  {
    var bytes := Utf8(c);
    var tail := PercentEncoded(bytes[1..]) + rest;
    assert EncodeChar(c) + rest == PercentByte(bytes[0]) + tail;
    EscapeOfByte(bytes[0], tail);
  }

  /** The UTF-8 bytes of a character at or above U+0080: a lead byte, then continuations. */
  lemma Utf8Structure(c: char)
    requires c as int >= 0x80
    ensures var bytes := Utf8(c);
      && SequenceLength(bytes[0]) == |bytes|
      && (forall k | 1 <= k < |bytes| :: 0x80 <= bytes[k] < 0xC0)
      && Payload(bytes[1..], LeadBits(bytes[0], |bytes|)) == c as int
      && ValidCodePoint(c as int, |bytes|)
  {
    var u := c as int;
    var bytes := Utf8(c);
    if u < 0x800 {
      assert bytes[1..] == [0x80 + u % 64];
    } else if u < 0x10000 {
      var lead := u / 4096;
      assert bytes[1..] == [0x80 + (u / 64) % 64, 0x80 + u % 64];
      assert bytes[1..][1..] == [0x80 + u % 64];
      assert lead * 64 + (u / 64) % 64 == u / 64;
      assert Payload(bytes[1..], lead) == Payload([0x80 + u % 64], u / 64);
      assert Payload([0x80 + u % 64], u / 64) == (u / 64) * 64 + u % 64;
    } else {
      var lead := u / 262144;
      var tail := [0x80 + (u / 64) % 64, 0x80 + u % 64];
      assert bytes[1..] == [0x80 + (u / 4096) % 64] + tail;
      assert tail[1..] == [0x80 + u % 64];
      assert lead * 64 + (u / 4096) % 64 == u / 4096;
      assert (u / 4096) * 64 + (u / 64) % 64 == u / 64;
      assert Payload(bytes[1..], lead) == Payload(tail, u / 4096);
      assert Payload(tail, u / 4096) == Payload([0x80 + u % 64], u / 64);
      assert Payload([0x80 + u % 64], u / 64) == (u / 64) * 64 + u % 64;
    }
  }

  /** Decoding the encoding of one character yields that character, then decodes on. */
  lemma DecodeEncodedChar(c: char, rest: string)
    ensures Decode(EncodeChar(c) + rest) == Prepend(c, Decode(rest))
  {
    var s := EncodeChar(c) + rest;
    if IsUnreserved(c) {
      assert s[0] == c && s[1..] == rest;
    } else {
      var bytes := Utf8(c);
      var u := c as int;
      SplitFirstEscape(c, rest);
      if u < 0x80 {
        assert s[3..] == rest;
      } else {
        var n := |bytes|;
        Utf8Structure(c);
        ContinuationOfBytes(bytes[1..], rest);
        assert s[3 * n..] == rest;
      }
    }
  }

  /** `decodeURIComponent(encodeURIComponent(s)) == s`. */
  lemma {:induction false} DecodeEncode(s: string)
    ensures Decode(Encode(s)) == Ok(s)
  {
    if s != [] {
      DecodeEncodedChar(s[0], Encode(s[1..]));
      DecodeEncode(s[1..]);
      assert [s[0]] + s[1..] == s;
    }
  }

  /** The characters `encodeURIComponent` can write. */
  predicate IsEncodedChar(c: char) {
    IsUnreserved(c) || c == '%' || ('A' <= c <= 'F')
  }

  lemma PercentEncodedChars(bytes: seq<int>)
    requires forall k | 0 <= k < |bytes| :: IsByte(bytes[k])
    ensures forall k | 0 <= k < |PercentEncoded(bytes)| :: IsEncodedChar(PercentEncoded(bytes)[k])
  {
  }

  /** `encodeURIComponent` writes only unreserved characters, `%` and hex digits. */
  lemma {:induction false} EncodedChars(s: string)
    ensures forall k | 0 <= k < |Encode(s)| :: IsEncodedChar(Encode(s)[k])
  {
    if s != [] {
      EncodedChars(s[1..]);
      if !IsUnreserved(s[0]) { PercentEncodedChars(Utf8(s[0])); }
    }
  }

  /** In particular it never writes the query-string delimiters `&`, `=` and `?`. */
  lemma EncodeAvoidsDelimiters(s: string)
    ensures '&' !in Encode(s) && '=' !in Encode(s) && '?' !in Encode(s)
  {
    var e := Encode(s);
    EncodedChars(s);
    forall k | 0 <= k < |e| ensures e[k] != '&' && e[k] != '=' && e[k] != '?' {
      assert IsEncodedChar(e[k]);
    }
  }
}
