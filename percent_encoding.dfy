/**
 * Python's `urllib.parse.quote(s)` with its default `safe='/'`, as used by
 * `doi_to_url`: the string is encoded as UTF-8, and every byte that is not an
 * unreserved character of section 2.3 of RFC 3986 and not `/` is written as
 * `%XX` with upper-case hexadecimal digits (section 2.1 of RFC 3986).
 *
 * Decoders for both layers are given as well; they exist to prove that
 * quoting loses nothing, which is what makes URL equality a faithful stand-in
 * for DOI equality when links are matched.
 */
module PercentEncoding {
  import opened Wrappers

  type Byte = b: int | 0 <= b < 256

  /** ALPHA / DIGIT / "-" / "." / "_" / "~" (section 2.3 of RFC 3986). */
  predicate IsUnreserved(c: char)
  {
    ('A' <= c <= 'Z') || ('a' <= c <= 'z') || ('0' <= c <= '9') ||
    c == '-' || c == '.' || c == '_' || c == '~'
  }

  /** The characters `quote` leaves as they are: the unreserved ones and `/`. */
  predicate IsSafe(c: char)
  {
    IsUnreserved(c) || c == '/'
  }

  predicate IsContinuation(b: Byte)
  {
    0x80 <= b < 0xC0
  }

  /** The UTF-8 encoding of one Unicode scalar value. */
  function Utf8(c: char): (bs: seq<Byte>)
    ensures 1 <= |bs| <= 4
    ensures (c as int < 0x80) <==> |bs| == 1
    ensures |bs| == 1 ==> bs[0] == c as int
    ensures forall k :: 1 <= k < |bs| ==> IsContinuation(bs[k])
  {
    var cp := c as int;
    if cp < 0x80 then [cp]
    else if cp < 0x800 then [0xC0 + cp / 64, 0x80 + cp % 64]
    else if cp < 0x10000 then [0xE0 + cp / 4096, 0x80 + cp / 64 % 64, 0x80 + cp % 64]
    else [0xF0 + cp / 262144, 0x80 + cp / 4096 % 64, 0x80 + cp / 64 % 64, 0x80 + cp % 64]
  }

  /** The UTF-8 encoding of a string, character by character. */
  function Utf8Encode(s: string): seq<Byte>
  {
    if s == [] then [] else Utf8(s[0]) + Utf8Encode(s[1..])
  }

  const HEX_DIGITS: string := "0123456789ABCDEF"

  /** `%XX` for one byte, upper-case, as `'%{:02X}'.format(b)`. */
  function PercentByte(b: Byte): string
  {
    ['%', HEX_DIGITS[b / 16], HEX_DIGITS[b % 16]]
  }

  function PercentBytes(bs: seq<Byte>): string
  {
    if bs == [] then [] else PercentByte(bs[0]) + PercentBytes(bs[1..])
  }

  /**
   * One character of the output of `quote`. Every safe character is ASCII, and
   * every byte of a non-ASCII character is at least 0x80, so quoting byte by
   * byte and quoting character by character agree.
   */
  function QuoteChar(c: char): string
  {
    if IsSafe(c) then [c] else PercentBytes(Utf8(c))
  }

  /** `urllib.parse.quote(s)` with `safe='/'`. */
  function Quote(s: string): string
  {
    if s == [] then [] else QuoteChar(s[0]) + Quote(s[1..])
  }

  /**
   * A safe character stays one character and any other becomes one to four
   * `%XX` escapes, so quoting never shortens a string and keeps its length
   * exactly when every character is safe.
   */
  lemma {:induction false} QuoteLength(s: string)
    ensures |s| <= |Quote(s)| <= 12 * |s|
    ensures |Quote(s)| == |s| <==> forall k :: 0 <= k < |s| ==> IsSafe(s[k])
  {
    if s != [] {
      QuoteLength(s[1..]);
      if !IsSafe(s[0]) {
        PercentBytesLength(Utf8(s[0]));
      }
      assert forall k :: 1 <= k < |s| ==> s[1..][k - 1] == s[k];
    }
  }

  lemma {:induction false} PercentBytesLength(bs: seq<Byte>)
    ensures |PercentBytes(bs)| == 3 * |bs|
  {
    if bs != [] {
      PercentBytesLength(bs[1..]);
    }
  }

  // ---------------------------------------------------------------------
  // Decoding: percent-decoding to bytes, then UTF-8 decoding to characters.

  function HexValue(c: char): (v: Option<nat>)
    ensures v.Some? ==> v.value < 16
  {
    if '0' <= c <= '9' then Some(c as int - '0' as int)
    else if 'A' <= c <= 'F' then Some(c as int - 'A' as int + 10)
    else None
  }

  /** `p` in front of a decoded remainder; a failed remainder stays failed. */
  function Prepend<T>(p: seq<T>, o: Option<seq<T>>): Option<seq<T>>
  {
    match o
    case None => None
    case Some(rest) => Some(p + rest)
  }

  /** The bytes a quoted string stands for; None on text `quote` cannot produce. */
  function PercentDecode(u: string): Option<seq<Byte>>
  {
    if u == [] then Some([])
    else if u[0] == '%' then
      if |u| < 3 || HexValue(u[1]).None? || HexValue(u[2]).None? then None
      else Prepend([HexValue(u[1]).value * 16 + HexValue(u[2]).value], PercentDecode(u[3..]))
    else if IsSafe(u[0]) then Prepend([u[0] as int], PercentDecode(u[1..]))
    else None
  }

  predicate IsScalarValue(cp: int)
  {
    (0 <= cp < 0xD800) || (0xE000 <= cp < 0x11_0000)
  }

  /** The number of bytes of the UTF-8 sequence that the lead byte `b` starts, 0 if none. */
  function SequenceLength(b: Byte): nat
  {
    if b < 0x80 then 1
    else if 0xC0 <= b < 0xE0 then 2
    else if 0xE0 <= b < 0xF0 then 3
    else if 0xF0 <= b < 0xF8 then 4
    else 0
  }

  /** The code point held by one whole UTF-8 sequence. */
  function CodePoint(bs: seq<Byte>): int
    requires 1 <= |bs| <= 4
  {
    var b: seq<int> := bs;
    if |b| == 1 then b[0]
    else if |b| == 2 then (b[0] - 0xC0) * 64 + (b[1] - 0x80)
    else if |b| == 3 then (b[0] - 0xE0) * 4096 + (b[1] - 0x80) * 64 + (b[2] - 0x80)
    else (b[0] - 0xF0) * 262144 + (b[1] - 0x80) * 4096 + (b[2] - 0x80) * 64 + (b[3] - 0x80)
  }

  /**
   * A left inverse of Utf8Encode (see Utf8DecodeEncode), not a full UTF-8
   * validator: overlong forms are accepted, so `[0xC0, 0x80]` decodes to
   * `'\0'`. Injectivity of quoting needs only the left inverse.
   */
  function Utf8Decode(bs: seq<Byte>): Option<string>
    decreases |bs|
  {
    if bs == [] then Some([])
    else
      var n := SequenceLength(bs[0]);
      if n == 0 || |bs| < n then None
      else if exists k :: 1 <= k < n && !IsContinuation(bs[k]) then None
      else
        var cp := CodePoint(bs[..n]);
        if !IsScalarValue(cp) then None
        else Prepend([cp as char], Utf8Decode(bs[n..]))
  }

  // ---------------------------------------------------------------------
  // Properties.

  /** A string made only of safe characters comes out of `quote` unchanged. */
  lemma {:induction false} QuoteSafeIdentity(s: string)
    requires forall k :: 0 <= k < |s| ==> IsSafe(s[k])
    ensures Quote(s) == s
  {
    if s != [] {
      QuoteSafeIdentity(s[1..]);
      assert s == [s[0]] + s[1..];
    }
  }

  /** Quoting distributes over concatenation. */
  lemma {:induction false} QuoteAppend(a: string, b: string)
    ensures Quote(a + b) == Quote(a) + Quote(b)
  {
    if a == [] {
      assert a + b == b;
    } else {
      assert (a + b)[0] == a[0] && (a + b)[1..] == a[1..] + b;
      QuoteAppend(a[1..], b);
    }
  }

  /** Every character `quote` emits is safe, `%`, or an upper-case hex digit. */
  lemma {:induction false} QuoteOutputAlphabet(s: string)
    ensures forall k :: 0 <= k < |Quote(s)| ==>
      IsSafe(Quote(s)[k]) || Quote(s)[k] == '%' || Quote(s)[k] in HEX_DIGITS
  {
    if s != [] {
      QuoteOutputAlphabet(s[1..]);
      if !IsSafe(s[0]) {
        PercentBytesAlphabet(Utf8(s[0]));
      }
    }
  }

  lemma {:induction false} PercentBytesAlphabet(bs: seq<Byte>)
    ensures forall k :: 0 <= k < |PercentBytes(bs)| ==>
      PercentBytes(bs)[k] == '%' || PercentBytes(bs)[k] in HEX_DIGITS
  {
    if bs != [] {
      PercentBytesAlphabet(bs[1..]);
    }
  }

  lemma HexValueOfDigit(d: nat)
    requires d < 16
    ensures HexValue(HEX_DIGITS[d]) == Some(d)
  {
  }

  /** Percent-decoding one `%XX` gives back its byte, whatever follows. */
  lemma PercentDecodeByte(b: Byte, rest: string)
    ensures PercentDecode(PercentByte(b) + rest) == Prepend([b], PercentDecode(rest))
  {
    var u := PercentByte(b) + rest;
    HexValueOfDigit(b / 16);
    HexValueOfDigit(b % 16);
    assert u[0] == '%' && u[1] == HEX_DIGITS[b / 16] && u[2] == HEX_DIGITS[b % 16];
    assert u[3..] == rest;
  }

  lemma PrependPrepend<T>(p: seq<T>, q: seq<T>, o: Option<seq<T>>)
    ensures Prepend(p, Prepend(q, o)) == Prepend(p + q, o)
  {
    if o.Some? {
      assert p + (q + o.value) == (p + q) + o.value;
    }
  }

  /** Percent-decoding `%XX...` gives back the bytes, whatever follows. */
  lemma {:induction false} PercentDecodeBytes(bs: seq<Byte>, rest: string)
    ensures PercentDecode(PercentBytes(bs) + rest) == Prepend(bs, PercentDecode(rest))
  {
    if bs == [] {
      assert PercentBytes(bs) + rest == rest;
      if PercentDecode(rest).Some? {
        assert bs + PercentDecode(rest).value == PercentDecode(rest).value;
      }
    } else {
      var b := bs[0];
      var v := PercentBytes(bs[1..]) + rest;
      calc {
        PercentDecode(PercentBytes(bs) + rest);
        { assert PercentBytes(bs) + rest == PercentByte(b) + v; }
        PercentDecode(PercentByte(b) + v);
        { PercentDecodeByte(b, v); }
        Prepend([b], PercentDecode(v));
        { PercentDecodeBytes(bs[1..], rest); }
        Prepend([b], Prepend(bs[1..], PercentDecode(rest)));
        { PrependPrepend([b], bs[1..], PercentDecode(rest)); assert [b] + bs[1..] == bs; }
        Prepend(bs, PercentDecode(rest));
      }
    }
  }

  /** Percent-decoding inverts quoting down to the UTF-8 bytes. */
  lemma {:induction false} PercentDecodeQuote(s: string)
    ensures PercentDecode(Quote(s)) == Some(Utf8Encode(s))
  {
    if s != [] {
      var c := s[0];
      PercentDecodeQuote(s[1..]);
      if IsSafe(c) {
        assert Quote(s)[0] == c && Quote(s)[1..] == Quote(s[1..]);
      } else {
        PercentDecodeBytes(Utf8(c), Quote(s[1..]));
      }
    }
  }

  /** Splitting a code point into 6-bit groups and putting them back together. */
  lemma SixBitGroups(cp: nat)
    ensures cp / 4096 == cp / 64 / 64
    ensures cp / 262144 == cp / 4096 / 64
    ensures cp == cp / 64 * 64 + cp % 64
    ensures cp / 64 == cp / 4096 * 64 + cp / 64 % 64
    ensures cp / 4096 == cp / 262144 * 64 + cp / 4096 % 64
  {
  }

  /** The code point of the encoding of `c` is `c`, and its lead byte announces its length. */
  lemma Utf8CharRoundTrip(c: char)
    ensures SequenceLength(Utf8(c)[0]) == |Utf8(c)|
    ensures CodePoint(Utf8(c)) == c as int
  {
    SixBitGroups(c as int);
  }

  /** UTF-8 decoding inverts UTF-8 encoding. */
  lemma {:induction false} Utf8DecodeEncode(s: string)
    ensures Utf8Decode(Utf8Encode(s)) == Some(s)
  {
    if s != [] {
      var c := s[0];
      var bs := Utf8Encode(s);
      var e := Utf8(c);
      assert bs == e + Utf8Encode(s[1..]);
      Utf8CharRoundTrip(c);
      assert bs[..|e|] == e && bs[|e|..] == Utf8Encode(s[1..]);
      assert forall k :: 1 <= k < |e| ==> bs[k] == e[k];
      Utf8DecodeEncode(s[1..]);
      assert (c as int) as char == c;
      assert s == [c] + s[1..];
    }
  }

  /** Different strings quote differently. */
  lemma QuoteInjective(a: string, b: string)
    requires Quote(a) == Quote(b)
    ensures a == b
  {
    PercentDecodeQuote(a);
    PercentDecodeQuote(b);
    Utf8DecodeEncode(a);
    Utf8DecodeEncode(b);
  }
}
