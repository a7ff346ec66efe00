/** The string helpers the controllers lean on: `char.IsWhiteSpace`,
    `string.IsNullOrWhiteSpace`, `Trim`, `Split(sep).First()`, the joining of
    repeated header values, and percent-decoding (section 2.1 of RFC 3986). */
module Text {
  import opened Wrappers
  import Hex

  /** `char.IsWhiteSpace`: the Unicode space, line and paragraph separators,
      plus U+0009..U+000D and U+0085. */
  predicate IsWhiteSpace(c: char) {
    || ('\U{0009}' <= c <= '\U{000D}') || c == ' ' || c == '\U{0085}' || c == '\U{00A0}' || c == '\U{1680}'
    || ('\U{2000}' <= c <= '\U{200A}') || c == '\U{2028}' || c == '\U{2029}' || c == '\U{202F}'
    || c == '\U{205F}' || c == '\U{3000}'
  }

  predicate AllWhiteSpace(s: string) {
    forall i :: 0 <= i < |s| ==> IsWhiteSpace(s[i])
  }

  predicate IsNullOrWhiteSpace(s: Option<string>) {
    s.None? || AllWhiteSpace(s.value)
  }

  predicate IsNullOrEmpty(s: Option<string>) {
    s.None? || |s.value| == 0
  }

  function TrimStart(s: string): (r: string)
    ensures |r| <= |s| && r == s[|s| - |r|..]
    ensures forall k :: 0 <= k < |s| - |r| ==> IsWhiteSpace(s[k])
    ensures |r| > 0 ==> !IsWhiteSpace(r[0])
    decreases |s|
  {
    if |s| > 0 && IsWhiteSpace(s[0]) then TrimStart(s[1..]) else s
  }

  function TrimEnd(s: string): (r: string)
    ensures |r| <= |s| && r == s[..|r|]
    ensures forall k :: |r| <= k < |s| ==> IsWhiteSpace(s[k])
    ensures |r| > 0 ==> !IsWhiteSpace(r[|r| - 1])
    decreases |s|
  {
    if |s| > 0 && IsWhiteSpace(s[|s| - 1]) then TrimEnd(s[..|s| - 1]) else s
  }

  /** `string.Trim()`: the infix left after removing white space from both ends. */
  function Trim(s: string): (r: string)
    ensures exists i :: (0 <= i <= |s| - |r| && r == s[i..][..|r|]
                         && AllWhiteSpace(s[..i]) && AllWhiteSpace(s[i..][|r|..]))
    ensures |r| > 0 ==> !IsWhiteSpace(r[0]) && !IsWhiteSpace(r[|r| - 1])
  {
    var t := TrimStart(s);
    var r := TrimEnd(t);
    var i := |s| - |t|;
    assert s[i..] == t;
    assert AllWhiteSpace(s[..i]);
    assert AllWhiteSpace(t[|r|..]);
    r
  }

  /** Trimming a trimmed string changes nothing. */
  lemma TrimIdempotent(s: string)
    ensures Trim(Trim(s)) == Trim(s)
  {
    var r := Trim(s);
    if |r| > 0 {
      assert TrimStart(r) == r;
      assert TrimEnd(r) == r;
    }
  }

  /** Trimming introduces no character. */
  lemma TrimOmits(s: string, c: char)
    requires c !in s
    ensures c !in Trim(s)
  {
    var r := Trim(s);
    var i :| 0 <= i <= |s| - |r| && r == s[i..][..|r|];
    assert forall k :: 0 <= k < |r| ==> r[k] == s[i + k];
  }

  /** `s.Split(sep).First()`: everything before the first separator. */
  function UpToSeparator(s: string, sep: char): (r: string)
    ensures |r| <= |s| && r == s[..|r|]
    ensures sep !in r
    ensures |r| < |s| ==> s[|r|] == sep
    decreases |s|
  {
    if |s| == 0 || s[0] == sep then ""
    else [s[0]] + UpToSeparator(s[1..], sep)
  }

  lemma {:induction false} UpToSeparatorOfConcat(a: string, b: string, sep: char)
    requires sep in a || |b| == 0 || b[0] == sep
    ensures UpToSeparator(a + b, sep) == UpToSeparator(a, sep)
    decreases |a|
  {
    if |a| == 0 {
    } else if a[0] != sep {
      assert (a + b)[1..] == a[1..] + b;
      UpToSeparatorOfConcat(a[1..], b, sep);
    }
  }

  /** The text before the first comma, trimmed. */
  function FirstHop(s: string): (r: string)
    ensures ',' !in r
    ensures |r| > 0 ==> !IsWhiteSpace(r[0]) && !IsWhiteSpace(r[|r| - 1])
  {
    var first := UpToSeparator(s, ',');
    TrimOmits(first, ',');
    Trim(first)
  }

  /** In "a, b, c" the first hop is "a", trimmed. */
  lemma FirstHopOfList(a: string, rest: string)
    requires ',' !in a
    ensures FirstHop(a + [','] + rest) == Trim(a)
  {
    assert a + [','] + rest == a + ([','] + rest);
    UpToSeparatorOfConcat(a, [','] + rest, ',');
    assert UpToSeparator(a, ',') == a;
  }

  /** `StringValues.ToString()`: the values of a repeated header joined by
      `sep`, where empty values (and null ones, which are empty here) are
      skipped and add no separator. */
  function Join(values: seq<string>, sep: char): (r: string)
    ensures |r| == 0 <==> forall i :: 0 <= i < |values| ==> |values[i]| == 0
    ensures |values| > 0 ==> values[0] <= r
    decreases |values|
  {
    if |values| == 0 then ""
    else if |values[0]| == 0 then
      var r := Join(values[1..], sep);
      assert forall i :: 1 <= i < |values| ==> values[i] == values[1..][i - 1];
      r
    else
      var tail := Join(values[1..], sep);
      if |tail| == 0 then values[0] else values[0] + [sep] + tail
  }

  /** The first value that is not empty, or "" when there is none. */
  function FirstNonEmpty(values: seq<string>): (r: string)
    ensures |r| == 0 <==> forall i :: 0 <= i < |values| ==> |values[i]| == 0
    ensures |r| > 0 ==> r in values
    decreases |values|
  {
    if |values| == 0 then ""
    else if |values[0]| > 0 then values[0]
    else
      var r := FirstNonEmpty(values[1..]);
      assert forall i :: 1 <= i < |values| ==> values[i] == values[1..][i - 1];
      r
  }

  /** Only the first non-empty header value can contribute the first segment. */
  lemma {:induction false} FirstSegmentOfJoin(values: seq<string>, sep: char)
    ensures UpToSeparator(Join(values, sep), sep) == UpToSeparator(FirstNonEmpty(values), sep)
    decreases |values|
  {
    if |values| == 0 {
    } else if |values[0]| == 0 {
      FirstSegmentOfJoin(values[1..], sep);
    } else {
      var tail := Join(values[1..], sep);
      if |tail| > 0 {
        assert Join(values, sep) == values[0] + ([sep] + tail);
        UpToSeparatorOfConcat(values[0], [sep] + tail, sep);
      }
    }
  }

  // ---------------- percent-encoding ----------------

  predicate IsAscii(s: string) {
    forall i :: 0 <= i < |s| ==> s[i] as int < 128
  }

  /** Three characters `%XY` naming an octet below 0x80. */
  predicate IsAsciiEscape(s: string) {
    |s| >= 3 && s[0] == '%' && 0 <= Hex.DigitValue(s[1]) && 0 <= Hex.DigitValue(s[2])
    && Hex.DigitValue(s[1]) * 16 + Hex.DigitValue(s[2]) < 128
  }

  /** `Uri.UnescapeDataString` restricted to escapes of octets below 0x80:
      each such `%XY` becomes its character, every other character is kept,
      and decoded characters are not decoded again. */
  function PercentDecode(s: string): (r: string)
    ensures '%' !in s ==> r == s
    ensures |r| <= |s|
    decreases |s|
  {
    if |s| == 0 then ""
    else if IsAsciiEscape(s) then
      [(Hex.DigitValue(s[1]) * 16 + Hex.DigitValue(s[2])) as char] + PercentDecode(s[3..])
    else [s[0]] + PercentDecode(s[1..])
  }

  /** Text that is all white space holds no escape and decodes to itself. */
  lemma WhiteSpaceDecodesToItself(s: string)
    requires AllWhiteSpace(s)
    ensures PercentDecode(s) == s
  {
  }

  /** The unreserved characters of section 2.3 of RFC 3986. */
  predicate IsUnreserved(c: char) {
    ('A' <= c <= 'Z') || ('a' <= c <= 'z') || ('0' <= c <= '9') || c == '-' || c == '_' || c == '.' || c == '~'
  }

  /** The text `Uri.EscapeDataString` gives one ASCII character: itself when
      unreserved, otherwise `%` and two upper-case hexadecimal digits. */
  function EscapeChar(c: char): (r: string)
    requires c as int < 128
    ensures |r| == 1 <==> IsUnreserved(c)
    ensures |r| == 1 || |r| == 3
    ensures IsAscii(r)
  {
    if IsUnreserved(c) then [c]
    else ['%', Hex.Digit(c as int / 16, true), Hex.Digit(c as int % 16, true)]
  }

  /** `Uri.EscapeDataString` on ASCII text: the reference encoder the decoder inverts. */
  function PercentEncode(s: string): (r: string)
    requires IsAscii(s)
    ensures |r| >= |s|
    ensures IsAscii(r)
    decreases |s|
  {
    if |s| == 0 then "" else EscapeChar(s[0]) + PercentEncode(s[1..])
  }

  lemma DecodeEscapedChar(c: char, rest: string)
    requires c as int < 128
    ensures PercentDecode(EscapeChar(c) + rest) == [c] + PercentDecode(rest)
  {
    var e := EscapeChar(c) + rest;
    if IsUnreserved(c) {
      assert e[0] == c && e[1..] == rest;
    } else {
      assert e[3..] == rest;
      assert IsAsciiEscape(e);
      assert (Hex.DigitValue(e[1]) * 16 + Hex.DigitValue(e[2])) == c as int;
    }
  }

  /** Decoding undoes encoding on ASCII text. */
  lemma {:induction false} DecodeEncode(s: string)
    requires IsAscii(s)
    ensures PercentDecode(PercentEncode(s)) == s
    decreases |s|
  {
    if |s| > 0 {
      DecodeEscapedChar(s[0], PercentEncode(s[1..]));
      DecodeEncode(s[1..]);
    }
  }
}
