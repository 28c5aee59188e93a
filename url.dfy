/**
  The request URL of the card-subway statistics service: percent-encoding
  as `urllib.parse.quote(s)` does it (UTF-8 bytes, `safe='/'`, upper-case
  hex) and the fixed path layout `build_url` writes.
 */
module Url {
  import opened Digits

  type Byte = x: int | 0 <= x < 256

  const BaseUrl := "http://openapi.seoul.go.kr:8088"
  const ServiceName := "CardSubwayStatsNew"

  /** The UTF-8 encoding of one Unicode scalar value. */
  function Utf8(c: char): (bs: seq<Byte>)
    ensures 1 <= |bs| <= 4
    ensures |bs| == 1 <==> (c as int) < 128
    ensures |bs| == 1 ==> bs[0] == c as int
  {
    var cp := c as int;
    if cp < 0x80 then [cp]
    else if cp < 0x800 then [0xC0 + cp / 64, 0x80 + cp % 64]
    else if cp < 0x10000 then [0xE0 + cp / 4096, 0x80 + (cp / 64) % 64, 0x80 + cp % 64]
    else [0xF0 + cp / 262144, 0x80 + (cp / 4096) % 64, 0x80 + (cp / 64) % 64, 0x80 + cp % 64]
  }

  function Utf8Encode(s: string): seq<Byte>
  {
    if |s| == 0 then [] else Utf8(s[0]) + Utf8Encode(s[1..])
  }

  /** The characters RFC 3986 (section 2.3) calls unreserved. */
  predicate IsUnreserved(c: char)
  {
    ('A' <= c <= 'Z') || ('a' <= c <= 'z') || ('0' <= c <= '9') || c == '_' || c == '.' || c == '-' || c == '~'
  }

  /** What `quote` leaves as it is with its default `safe='/'`. */
  predicate IsKept(c: char) { IsUnreserved(c) || c == '/' }

  predicate IsHexDigit(c: char) { ('0' <= c <= '9') || ('A' <= c <= 'F') || ('a' <= c <= 'f') }

  function HexDigit(n: nat): (c: char)
    requires n < 16
    ensures IsHexDigit(c)
  {
    if n < 10 then DigitChar(n) else (('A' as int) + n - 10) as char
  }

  function HexValue(c: char): (n: nat)
    requires IsHexDigit(c)
    ensures n < 16
  {
    if '0' <= c <= '9' then DigitValue(c)
    else if 'A' <= c <= 'F' then (c as int) - ('A' as int) + 10
    else (c as int) - ('a' as int) + 10
  }

  /** One byte as `quote_from_bytes` writes it. */
  function QuoteByte(b: Byte): (s: string)
    ensures |s| == 1 || |s| == 3
  {
    if b < 128 && IsKept(b as char) then [b as char] else ['%', HexDigit(b / 16), HexDigit(b % 16)]
  }

  function QuoteBytes(bs: seq<Byte>): string
  {
    if |bs| == 0 then "" else QuoteByte(bs[0]) + QuoteBytes(bs[1..])
  }

  /** `urllib.parse.quote(s)`. */
  function Quote(s: string): string
  {
    QuoteBytes(Utf8Encode(s))
  }

  /** `urllib.parse.unquote_to_bytes(s)`: `%XX` becomes a byte, everything else its UTF-8 bytes. */
  function Unquote(s: string): seq<Byte>
  {
    if |s| == 0 then []
    else if s[0] == '%' && |s| >= 3 && IsHexDigit(s[1]) && IsHexDigit(s[2]) then
      [HexValue(s[1]) * 16 + HexValue(s[2])] + Unquote(s[3..])
    else Utf8(s[0]) + Unquote(s[1..])
  }

  /** The characters a quoted text can hold. */
  predicate IsQuotedChar(c: char) { IsKept(c) || c == '%' || IsHexDigit(c) }

  /**
    `build_url(use_ymd, start_idx, end_idx, route, station, data_type)`, with
    the module-level `API_KEY` passed as `apiKey`. Only the route and the
    station are percent-encoded.
   */
  function BuildUrl(apiKey: string, ymd: string, startIdx: int, endIdx: int,
                    route: string, station: string, dataType: string): string
  {
    BaseUrl + "/" + JoinPath(PathSegments(apiKey, ymd, startIdx, endIdx, route, station, dataType))
  }

  /** The path segments after the base URL, in the order `build_url` writes them. */
  function PathSegments(apiKey: string, ymd: string, startIdx: int, endIdx: int,
                        route: string, station: string, dataType: string): seq<string>
  {
    [apiKey, dataType, ServiceName, IntText(startIdx), IntText(endIdx), ymd, Quote(route), Quote(station)]
  }

  function JoinPath(segments: seq<string>): string
  {
    if |segments| == 0 then ""
    else if |segments| == 1 then segments[0]
    else segments[0] + "/" + JoinPath(segments[1..])
  }

  /** Splits a path at every '/', as `str.split('/')` does. */
  function SplitPath(s: string): seq<string>
  {
    SplitFrom(s, "")
  }

  function SplitFrom(s: string, current: string): (parts: seq<string>)
    ensures |parts| >= 1
  {
    if |s| == 0 then [current]
    else if s[0] == '/' then [current] + SplitFrom(s[1..], "")
    else SplitFrom(s[1..], current + [s[0]])
  }

  predicate HasNoSlash(s: string) { forall i :: 0 <= i < |s| ==> s[i] != '/' }

  // ---------------------------------------------------------------------
  // Percent-encoding

  lemma {:induction false} UnquoteQuoteByte(b: Byte, rest: string)
    ensures Unquote(QuoteByte(b) + rest) == [b] + Unquote(rest)
  {
    var s := QuoteByte(b) + rest;
    if b < 128 && IsKept(b as char) {
      assert s[1..] == rest;
    } else {
      assert s[3..] == rest;
    }
  }

  /** Percent-decoding undoes percent-encoding, byte for byte. */
  lemma {:induction false} UnquoteQuoteBytes(bs: seq<Byte>)
    ensures Unquote(QuoteBytes(bs)) == bs
  {
    if |bs| > 0 {
      UnquoteQuoteByte(bs[0], QuoteBytes(bs[1..]));
      UnquoteQuoteBytes(bs[1..]);
    }
  }

  /** Decoding a quoted text gives back the UTF-8 bytes of the original text. */
  lemma UnquoteQuote(s: string)
    ensures Unquote(Quote(s)) == Utf8Encode(s)
  {
    UnquoteQuoteBytes(Utf8Encode(s));
  }

  /** Text made only of unreserved characters and '/' passes through unchanged; the empty text stays empty. */
  lemma {:induction false} QuoteKeepsSafeText(s: string)
    requires forall i :: 0 <= i < |s| ==> IsKept(s[i])
    ensures Quote(s) == s
  {
    if |s| > 0 {
      QuoteKeepsSafeText(s[1..]);
      assert Utf8Encode(s) == [s[0] as int] + Utf8Encode(s[1..]);
      assert QuoteBytes([s[0] as int] + Utf8Encode(s[1..])) == [s[0]] + QuoteBytes(Utf8Encode(s[1..]));
    }
  }

  predicate HasNoSlashByte(bs: seq<Byte>) { forall k :: 0 <= k < |bs| ==> bs[k] != '/' as int }

  lemma NoSlashConcat(x: string, y: string)
    ensures HasNoSlash(x + y) <==> HasNoSlash(x) && HasNoSlash(y)
  {
    if HasNoSlash(x) && HasNoSlash(y) {
      forall i | 0 <= i < |x + y| ensures (x + y)[i] != '/' {
        if i >= |x| { assert (x + y)[i] == y[i - |x|]; }
      }
    }
    if HasNoSlash(x + y) {
      forall i | 0 <= i < |x| ensures x[i] != '/' { assert (x + y)[i] == x[i]; }
      forall i | 0 <= i < |y| ensures y[i] != '/' { assert (x + y)[|x| + i] == y[i]; }
    }
  }

  lemma NoSlashByteConcat(x: seq<Byte>, y: seq<Byte>)
    ensures HasNoSlashByte(x + y) <==> HasNoSlashByte(x) && HasNoSlashByte(y)
  {
    if HasNoSlashByte(x) && HasNoSlashByte(y) {
      forall i | 0 <= i < |x + y| ensures (x + y)[i] != '/' as int {
        if i >= |x| { assert (x + y)[i] == y[i - |x|]; }
      }
    }
    if HasNoSlashByte(x + y) {
      forall i | 0 <= i < |x| ensures x[i] != '/' as int { assert (x + y)[i] == x[i]; }
      forall i | 0 <= i < |y| ensures y[i] != '/' as int { assert (x + y)[|x| + i] == y[i]; }
    }
  }

  lemma QuoteByteSlash(b: Byte)
    ensures HasNoSlash(QuoteByte(b)) <==> b != '/' as int
  {
    if b < 128 && IsKept(b as char) {
      var q := QuoteByte(b);
      assert q == [b as char];
      assert (b as char) as int == b;
      assert HasNoSlash(q) <==> q[0] != '/';
    } else {
      assert b != '/' as int;
    }
  }

  lemma {:induction false} QuoteBytesAlphabet(bs: seq<Byte>)
    ensures forall i :: 0 <= i < |QuoteBytes(bs)| ==> IsQuotedChar(QuoteBytes(bs)[i])
    ensures HasNoSlash(QuoteBytes(bs)) <==> HasNoSlashByte(bs)
  {
    if |bs| > 0 {
      QuoteBytesAlphabet(bs[1..]);
      var head := QuoteByte(bs[0]);
      var tail := QuoteBytes(bs[1..]);
      assert QuoteBytes(bs) == head + tail;
      forall i | 0 <= i < |head + tail| ensures IsQuotedChar((head + tail)[i]) {
        if i >= |head| { assert (head + tail)[i] == tail[i - |head|]; }
      }
      NoSlashConcat(head, tail);
      QuoteByteSlash(bs[0]);
      assert bs == [bs[0]] + bs[1..];
      NoSlashByteConcat([bs[0]], bs[1..]);
    }
  }

  lemma {:induction false} Utf8EncodeSlash(s: string)
    ensures HasNoSlashByte(Utf8Encode(s)) <==> HasNoSlash(s)
  {
    if |s| > 0 {
      Utf8EncodeSlash(s[1..]);
      var head := Utf8(s[0]);
      assert Utf8Encode(s) == head + Utf8Encode(s[1..]);
      NoSlashByteConcat(head, Utf8Encode(s[1..]));
      if |head| > 1 {
        assert forall k :: 0 <= k < |head| ==> head[k] >= 0x80;
      }
      assert HasNoSlashByte(head) <==> s[0] != '/';
      assert s == [s[0]] + s[1..];
      NoSlashConcat([s[0]], s[1..]);
    }
  }

  /**
    A quoted text holds only unreserved characters, '/', '%' and hex digits,
    and it holds a '/' exactly when the original text does: '/' is the one
    reserved character `quote` does not escape.
   */
  lemma QuoteAlphabet(s: string)
    ensures forall i :: 0 <= i < |Quote(s)| ==> IsQuotedChar(Quote(s)[i])
    ensures HasNoSlash(Quote(s)) <==> HasNoSlash(s)
  {
    QuoteBytesAlphabet(Utf8Encode(s));
    Utf8EncodeSlash(s);
  }

  // ---------------------------------------------------------------------
  // Path layout

  lemma {:induction false} SplitFromSegment(seg: string, rest: string, current: string)
    requires HasNoSlash(seg)
    ensures SplitFrom(seg + rest, current) == SplitFrom(rest, current + seg)
    decreases |seg|
  {
    if |seg| > 0 {
      assert (seg + rest)[1..] == seg[1..] + rest;
      assert current + seg == (current + [seg[0]]) + seg[1..];
      SplitFromSegment(seg[1..], rest, current + [seg[0]]);
    } else {
      assert seg + rest == rest;
      assert current + seg == current;
    }
  }

  /** Splitting a joined path at '/' gives back its segments when no segment holds a '/'. */
  lemma {:induction false} SplitJoin(segments: seq<string>)
    requires |segments| >= 1
    requires forall k :: 0 <= k < |segments| ==> HasNoSlash(segments[k])
    ensures SplitPath(JoinPath(segments)) == segments
  {
    if |segments| == 1 {
      SplitFromSegment(segments[0], "", "");
      assert segments[0] + "" == segments[0];
      assert "" + segments[0] == segments[0];
    } else {
      var rest := JoinPath(segments[1..]);
      SplitFromSegment(segments[0], "/" + rest, "");
      assert segments[0] + ("/" + rest) == segments[0] + "/" + rest;
      assert "" + segments[0] == segments[0];
      assert ("/" + rest)[1..] == rest;
      SplitJoin(segments[1..]);
      assert segments == [segments[0]] + segments[1..];
    }
  }

  /**
    The URL is the base URL, a '/', and then exactly the eight segments
    key / format / service / start / end / day / route / station, in that
    order, whenever the key, format, day, route and station hold no '/'.
    Empty filters give empty trailing segments.
   */
  lemma BuildUrlLayout(apiKey: string, ymd: string, startIdx: int, endIdx: int,
                       route: string, station: string, dataType: string)
    requires HasNoSlash(apiKey) && HasNoSlash(ymd) && HasNoSlash(dataType)
    requires HasNoSlash(route) && HasNoSlash(station)
    ensures var url := BuildUrl(apiKey, ymd, startIdx, endIdx, route, station, dataType);
            |url| > |BaseUrl| && url[..|BaseUrl| + 1] == BaseUrl + "/" &&
            SplitPath(url[|BaseUrl| + 1..]) ==
              [apiKey, dataType, "CardSubwayStatsNew", IntText(startIdx), IntText(endIdx), ymd, Quote(route), Quote(station)]
  {
    var segs := PathSegments(apiKey, ymd, startIdx, endIdx, route, station, dataType);
    QuoteAlphabet(route);
    QuoteAlphabet(station);
    assert HasNoSlash(IntText(startIdx));
    assert HasNoSlash(IntText(endIdx));
    assert HasNoSlash(ServiceName);
    SplitJoin(segs);
    var url := BuildUrl(apiKey, ymd, startIdx, endIdx, route, station, dataType);
    assert url == (BaseUrl + "/") + JoinPath(segs);
    assert url[|BaseUrl| + 1..] == JoinPath(segs);
  }
}
