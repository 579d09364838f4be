/** Python's `urllib.parse.quote` with its default safe set '/': percent-encoding
    as RFC 3986 section 2.1 defines it (uppercase hexadecimal), applied to
    every UTF-8 byte of the string that is neither unreserved (section 2.3:
    ALPHA, DIGIT, "-", ".", "_", "~") nor '/'. */
module Quote {
  import opened Wrappers
  import opened Utf8
  import opened Seqs

  /** The bytes `quote` keeps: Python's always-safe set plus '/'. */
  predicate IsSafeByte(b: int) {
    || 'A' as int <= b <= 'Z' as int
    || 'a' as int <= b <= 'z' as int
    || '0' as int <= b <= '9' as int
    || b == '-' as int || b == '.' as int || b == '_' as int || b == '~' as int
    || b == '/' as int
  }

  predicate IsSafeChar(c: char) {
    IsSafeByte(c as int)
  }

  predicate IsUpperHex(c: char) {
    '0' <= c <= '9' || 'A' <= c <= 'F'
  }

  function HexDigit(v: int): (c: char)
    requires 0 <= v < 16
    ensures IsUpperHex(c)
  {
    if v < 10 then ('0' as int + v) as char else ('A' as int + v - 10) as char
  }

  /** `%XX` with the byte in two uppercase hexadecimal digits. */
  function Escape(b: Byte): string {
    ['%', HexDigit(b / 16), HexDigit(b % 16)]
  }

  function QuoteByte(b: Byte): string {
    if IsSafeByte(b) then [b as char] else Escape(b)
  }

  function QuoteBytes(bs: seq<Byte>): string {
    if bs == [] then "" else QuoteByte(bs[0]) + QuoteBytes(bs[1..])
  }

  function Quote(s: string): string {
    QuoteBytes(Encode(s))
  }

  // The decoder that undoes it

  function HexValue(c: char): (r: Option<int>)
    ensures r.Some? ==> 0 <= r.value < 16
  {
    if '0' <= c <= '9' then Some(c as int - '0' as int)
    else if 'A' <= c <= 'F' then Some(c as int - 'A' as int + 10)
    else if 'a' <= c <= 'f' then Some(c as int - 'a' as int + 10)
    else None
  }

  /** The bytes a percent-encoded ASCII text stands for, or None when it has
      a malformed escape or a character outside ASCII. */
  function UnquoteBytes(q: string): Option<seq<Byte>>
    decreases |q|
  {
    if q == [] then Some([])
    else if q[0] == '%' then
      if |q| >= 3 && HexValue(q[1]).Some? && HexValue(q[2]).Some? then
        match UnquoteBytes(q[3..])
        case None => None
        case Some(rest) => Some([HexValue(q[1]).value * 16 + HexValue(q[2]).value] + rest)
      else None
    else if q[0] as int < 0x80 then
      match UnquoteBytes(q[1..])
      case None => None
      case Some(rest) => Some([q[0] as int] + rest)
    else None
  }

  function Unquote(q: string): Option<string> {
    match UnquoteBytes(q)
    case None => None
    case Some(bs) => Decode(bs)
  }

  lemma HexValueDigit(v: int)
    requires 0 <= v < 16
    ensures HexValue(HexDigit(v)) == Some(v)
  {
  }

  /** Decoding the quoted form of one byte gives the byte, whatever follows. */
  lemma UnquoteQuoteByte(b: Byte, rest: string)
    ensures UnquoteBytes(QuoteByte(b) + rest) ==
      match UnquoteBytes(rest)
      case None => None
      case Some(bs) => Some([b] + bs)
  {
    var q := QuoteByte(b) + rest;
    if IsSafeByte(b) {
      assert q[0] == b as char && q[1..] == rest;
    } else {
      HexValueDigit(b / 16);
      HexValueDigit(b % 16);
      assert q[0] == '%' && q[3..] == rest;
    }
  }

  lemma {:induction false} UnquoteQuoteBytes(bs: seq<Byte>)
    ensures UnquoteBytes(QuoteBytes(bs)) == Some(bs)
  {
    if bs != [] {
      UnquoteQuoteByte(bs[0], QuoteBytes(bs[1..]));
      UnquoteQuoteBytes(bs[1..]);
      assert [bs[0]] + bs[1..] == bs;
    }
  }

  /** Decoding recovers the quoted string. */
  lemma UnquoteQuote(s: string)
    ensures Unquote(Quote(s)) == Some(s)
  {
    UnquoteQuoteBytes(Encode(s));
    DecodeEncode(s);
  }

  /** Equal strings quote alike and distinct strings quote differently. */
  lemma QuoteInjective(s: string, t: string)
    ensures Quote(s) == Quote(t) <==> s == t
  {
    UnquoteQuote(s);
    UnquoteQuote(t);
  }

  /** Quoting works character by character. */
  lemma {:induction false} QuoteBytesAppend(a: seq<Byte>, b: seq<Byte>)
    ensures QuoteBytes(a + b) == QuoteBytes(a) + QuoteBytes(b)
  {
    if a == [] {
      assert a + b == b;
    } else {
      assert (a + b)[1..] == a[1..] + b;
      QuoteBytesAppend(a[1..], b);
    }
  }

  lemma QuoteAppend(s: string, t: string)
    ensures Quote(s + t) == Quote(s) + Quote(t)
  {
    EncodeAppend(s, t);
    QuoteBytesAppend(Encode(s), Encode(t));
  }

  /** An ASCII letter, digit, '-', '.', '_', '~' or '/' is kept as it is. */
  lemma QuoteKeepsSafe(c: char)
    requires c as int < 0x80 && IsSafeChar(c)
    ensures Quote([c]) == [c]
  {
    EncodeCharAscii(c);
    var b: Byte := c as int;
    assert Encode([c]) == [b];
    assert QuoteBytes([b]) == QuoteByte(b) + QuoteBytes([]);
    assert (b as char) == c;
  }

  lemma {:induction false} QuoteBytesEscapesAll(bs: seq<Byte>)
    requires forall i | 0 <= i < |bs| :: !IsSafeByte(bs[i])
    ensures |QuoteBytes(bs)| == 3 * |bs|
    ensures forall i | 0 <= i < |bs| :: QuoteBytes(bs)[3 * i..3 * i + 3] == Escape(bs[i])
  {
    if bs != [] {
      QuoteBytesEscapesAll(bs[1..]);
      var q, tail := QuoteBytes(bs), QuoteBytes(bs[1..]);
      assert q == Escape(bs[0]) + tail;
      forall i | 0 <= i < |bs| ensures q[3 * i..3 * i + 3] == Escape(bs[i]) {
        if i == 0 {
          SliceLeft(Escape(bs[0]), tail, 0, 3);
        } else {
          SliceRight(Escape(bs[0]), tail, 3 * i, 3 * i + 3);
          assert bs[i] == bs[1..][i - 1];
        }
      }
    }
  }

  /** Any other character becomes `%XX` for each byte of its UTF-8 encoding. */
  lemma QuoteEscapesOthers(c: char)
    requires !(c as int < 0x80 && IsSafeChar(c))
    ensures var bs := EncodeChar(c); var q := Quote([c]);
      && |q| == 3 * |bs|
      && forall i | 0 <= i < |bs| :: q[3 * i..3 * i + 3] == Escape(bs[i])
  {
    EncodeCharAscii(c);
    assert Encode([c]) == EncodeChar(c);
    QuoteBytesEscapesAll(EncodeChar(c));
  }

  /** The quoted text holds only kept characters, '%' and uppercase hexadecimal digits. */
  lemma {:induction false} QuoteBytesAlphabet(bs: seq<Byte>)
    ensures forall i | 0 <= i < |QuoteBytes(bs)| ::
      var c := QuoteBytes(bs)[i]; IsSafeChar(c) || c == '%' || IsUpperHex(c)
  {
    if bs != [] {
      QuoteBytesAlphabet(bs[1..]);
      var q, head, tail := QuoteBytes(bs), QuoteByte(bs[0]), QuoteBytes(bs[1..]);
      assert q == head + tail;
      forall i | 0 <= i < |q| ensures IsSafeChar(q[i]) || q[i] == '%' || IsUpperHex(q[i]) {
        if i >= |head| {
          assert q[i] == tail[i - |head|];
        }
      }
    }
  }
}
