/**
 * Python's `urllib.parse.quote_plus` with its default arguments: the string is
 * encoded as UTF-8; each byte that is an unreserved character of section 2.3
 * of RFC 3986 stays as it is, a space becomes '+', and every other byte
 * (including '/') becomes '%' and two upper-case hexadecimal digits
 * (section 2.1 of RFC 3986). `UnquoteBytes` accepts exactly the texts
 * `QuoteBytes` writes and reads each back as its bytes; `UnquotePlus` adds
 * the UTF-8 decoding.
 */
module PercentEncoding {
  import opened Wrappers
  import opened Utf8
  import opened Text

  /** ALPHA / DIGIT / "-" / "." / "_" / "~" */
  predicate IsUnreservedChar(c: char)
  {
    'A' <= c <= 'Z' || 'a' <= c <= 'z' || '0' <= c <= '9' || c == '_' || c == '.' || c == '-' || c == '~'
  }

  predicate IsUnreserved(b: byte) { IsUnreservedChar(b as int as char) }

  predicate IsUpperHexDigit(c: char) { '0' <= c <= '9' || 'A' <= c <= 'F' }

  /** The characters an encoded string is made of. */
  predicate IsQuotedChar(c: char) { IsUnreservedChar(c) || c == '+' || c == '%' }

  /** Every '%' in t starts a complete escape: two upper-case hexadecimal digits follow it. */
  predicate EscapesComplete(t: string)
  {
    forall i :: 0 <= i < |t| && t[i] == '%' ==> i + 2 < |t| && IsUpperHexDigit(t[i + 1]) && IsUpperHexDigit(t[i + 2])
  }

  function HexValue(c: char): (v: nat)
    requires IsUpperHexDigit(c)
    ensures v < 16
  {
    if '0' <= c <= '9' then c as int - '0' as int else c as int - 'A' as int + 10
  }

  /** The upper-case hexadecimal digit of a value below 16. */
  function HexDigit(v: nat): (c: char)
    requires v < 16
    ensures IsUpperHexDigit(c) && HexValue(c) == v
  {
    if v < 10 then ('0' as int + v) as char else ('A' as int + v - 10) as char
  }

  /** The text one byte becomes. */
  function QuoteByte(b: byte): (t: string)
    ensures 1 <= |t| <= 3
    ensures IsUnreserved(b) ==> t == [b as int as char]
    ensures b == 0x20 ==> t == "+"
    ensures !IsUnreserved(b) && b != 0x20 ==>
      |t| == 3 && t[0] == '%' && IsUpperHexDigit(t[1]) && IsUpperHexDigit(t[2])
      && HexValue(t[1]) * 16 + HexValue(t[2]) == b as int
    ensures forall i :: 0 <= i < |t| ==> IsQuotedChar(t[i])
    ensures EscapesComplete(t)
  {
    if IsUnreserved(b) then [b as int as char]
    else if b == 0x20 then "+"
    else ['%', HexDigit(b as int / 16), HexDigit(b as int % 16)]
  }

  lemma EscapesCompleteAppend(a: string, b: string)
    requires EscapesComplete(a) && EscapesComplete(b)
    ensures EscapesComplete(a + b)
  {
    forall i | 0 <= i < |a + b| && (a + b)[i] == '%'
      ensures i + 2 < |a + b| && IsUpperHexDigit((a + b)[i + 1]) && IsUpperHexDigit((a + b)[i + 2])
    {
      if i < |a| {
        assert a[i] == '%';
      } else {
        assert b[i - |a|] == '%';
      }
    }
  }

  /** The percent-encoding of a byte string: only quoted characters, and every escape complete. */
  function QuoteBytes(bs: seq<byte>): (t: string)
    ensures forall i :: 0 <= i < |t| ==> IsQuotedChar(t[i])
    ensures EscapesComplete(t)
    decreases |bs|
  {
    if bs == [] then []
    else
      var head, tail := QuoteByte(bs[0]), QuoteBytes(bs[1..]);
      EscapesCompleteAppend(head, tail);
      head + tail
  }

  /** `quote_plus(s)`; the result never holds a line break. */
  function QuotePlus(s: string): (t: string)
    ensures forall i :: 0 <= i < |t| ==> IsQuotedChar(t[i])
    ensures EscapesComplete(t)
    ensures '\n' !in t
  {
    QuoteBytes(Encode(s))
  }

  /**
   * The byte the percent-encoded text t starts with, and the number of
   * characters that stand for it. Only the form `QuoteByte` writes is
   * accepted: an escape has upper-case digits and stands for a byte that
   * is neither unreserved nor a space.
   */
  function UnquoteFirst(t: string): (r: Option<(byte, nat)>)
    ensures r.Some? ==> 1 <= r.value.1 <= |t|
  {
    if t == [] then None
    else if t[0] == '+' then Some((0x20, 1))
    else if t[0] == '%' then
      if |t| >= 3 && IsUpperHexDigit(t[1]) && IsUpperHexDigit(t[2]) then
        var b := (HexValue(t[1]) * 16 + HexValue(t[2])) as byte;
        if !IsUnreserved(b) && b != 0x20 then Some((b, 3)) else None
      else None
    else if IsUnreservedChar(t[0]) then Some((t[0] as int as byte, 1))
    else None
  }

  /** The bytes a percent-encoded text stands for; None when it is not such a text. */
  function UnquoteBytes(t: string): (r: Option<seq<byte>>)
    decreases |t|
  {
    if t == [] then Some([])
    else match UnquoteFirst(t)
      case None => None
      case Some(first) =>
        match UnquoteBytes(t[first.1..])
        case None => None
        case Some(rest) => Some([first.0] + rest)
  }

  /** `unquote_plus(t)` restricted to the texts `QuotePlus` produces; None on any other text. */
  function UnquotePlus(t: string): (r: Option<string>)
  {
    match UnquoteBytes(t)
    case None => None
    case Some(bs) => Decode(bs)
  }

  lemma UnquoteFirstEscape(b: byte, rest: string)
    requires !IsUnreserved(b) && b != 0x20
    ensures UnquoteFirst(QuoteByte(b) + rest) == Some((b, 3))
  {
    var hi, lo := b as int / 16, b as int % 16;
    var t := QuoteByte(b) + rest;
    assert t[0] == '%' && t[1] == HexDigit(hi) && t[2] == HexDigit(lo);
  }

  lemma UnquoteFirstQuoteByte(b: byte, rest: string)
    ensures UnquoteFirst(QuoteByte(b) + rest) == Some((b, |QuoteByte(b)|))
  {
    if !IsUnreserved(b) && b != 0x20 {
      UnquoteFirstEscape(b, rest);
    }
  }

  lemma UnquoteBytesCons(t: string, b: byte, n: nat, rest: seq<byte>)
    requires UnquoteFirst(t) == Some((b, n)) && UnquoteBytes(t[n..]) == Some(rest)
    ensures UnquoteBytes(t) == Some([b] + rest)
  {
  }

  lemma {:induction false} UnquoteQuoteBytes(bs: seq<byte>)
    ensures UnquoteBytes(QuoteBytes(bs)) == Some(bs)
    decreases |bs|
  {
    if bs != [] {
      var head, tail := QuoteByte(bs[0]), QuoteBytes(bs[1..]);
      UnquoteFirstQuoteByte(bs[0], tail);
      assert (head + tail)[|head|..] == tail;
      UnquoteQuoteBytes(bs[1..]);
      UnquoteBytesCons(head + tail, bs[0], |head|, bs[1..]);
      assert [bs[0]] + bs[1..] == bs;
    }
  }

  lemma HexDigitValue(c: char)
    requires IsUpperHexDigit(c)
    ensures HexDigit(HexValue(c)) == c
  {
  }

  /** The characters `UnquoteFirst` consumes are exactly the encoding of the byte it returns. */
  lemma QuoteByteUnquoteFirst(t: string, b: byte, n: nat)
    requires UnquoteFirst(t) == Some((b, n))
    ensures t[..n] == QuoteByte(b)
  {
    if t[0] == '%' {
      var hi, lo := HexValue(t[1]), HexValue(t[2]);
      HexDigitValue(t[1]);
      HexDigitValue(t[2]);
      assert hi == b as int / 16 && lo == b as int % 16;
      assert t[..n] == ['%', HexDigit(hi), HexDigit(lo)];
    }
  }

  /** A non-empty text that decodes starts with one decoded byte, and the rest decodes to the remaining bytes. */
  lemma UnquoteBytesFirst(t: string, bs: seq<byte>)
    requires t != [] && UnquoteBytes(t) == Some(bs)
    ensures UnquoteFirst(t).Some? && bs != [] && bs[0] == UnquoteFirst(t).value.0
    ensures UnquoteBytes(t[UnquoteFirst(t).value.1..]) == Some(bs[1..])
  {
  }

  lemma QuoteBytesFirst(bs: seq<byte>)
    requires bs != []
    ensures QuoteBytes(bs) == QuoteByte(bs[0]) + QuoteBytes(bs[1..])
  {
  }

  /** The decoder accepts nothing but encodings: a text it reads as bs is the encoding of bs. */
  lemma {:induction false} QuoteUnquoteBytes(t: string, bs: seq<byte>)
    requires UnquoteBytes(t) == Some(bs)
    ensures QuoteBytes(bs) == t
    decreases |t|
  {
    if t != [] {
      UnquoteBytesFirst(t, bs);
      var n := UnquoteFirst(t).value.1;
      var tail := t[n..];
      QuoteByteUnquoteFirst(t, bs[0], n);
      QuoteUnquoteBytes(tail, bs[1..]);
      QuoteBytesFirst(bs);
      SplitAt(t, n);
    }
  }

  /** Decoding the encoding of any string gives the string back. */
  lemma UnquoteQuotePlus(s: string)
    ensures UnquotePlus(QuotePlus(s)) == Some(s)
  {
    UnquoteQuoteBytes(Encode(s));
    DecodeEncode(s);
  }

  /** Distinct strings have distinct encodings. */
  lemma QuotePlusInjective(s: string, s': string)
    ensures QuotePlus(s) == QuotePlus(s') ==> s == s'
  {
    UnquoteQuotePlus(s);
    UnquoteQuotePlus(s');
  }
}
