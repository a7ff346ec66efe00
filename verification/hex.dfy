/** Hexadecimal renderings: `Convert.ToHexString` (upper case, two digits per
    octet) and the lower-case "D" format of `Guid.ToString()`. `FromHex` is the
    reference inverse. */
module Hex {
  import opened Wrappers
  import opened Bytes

  predicate IsUpperHexDigit(c: char) {
    ('0' <= c <= '9') || ('A' <= c <= 'F')
  }

  predicate IsLowerHexDigit(c: char) {
    ('0' <= c <= '9') || ('a' <= c <= 'f')
  }

  /** The value of a hexadecimal digit of either case, or -1. */
  function DigitValue(c: char): (v: int)
    ensures IsUpperHexDigit(c) || IsLowerHexDigit(c) <==> 0 <= v < 16
  {
    if '0' <= c <= '9' then c as int - '0' as int
    else if 'A' <= c <= 'F' then c as int - 'A' as int + 10
    else if 'a' <= c <= 'f' then c as int - 'a' as int + 10
    else -1
  }

  function Digit(v: int, upper: bool): (c: char)
    requires 0 <= v < 16
    ensures upper ==> IsUpperHexDigit(c)
    ensures !upper ==> IsLowerHexDigit(c)
    ensures DigitValue(c) == v
  {
    if v < 10 then ('0' as int + v) as char
    else if upper then ('A' as int + (v - 10)) as char
    else ('a' as int + (v - 10)) as char
  }

  /** Two digits per octet, most significant nibble first. */
  function Render(bs: seq<byte>, upper: bool): (s: string)
    ensures |s| == 2 * |bs|
    ensures upper ==> forall i :: 0 <= i < |s| ==> IsUpperHexDigit(s[i])
    ensures !upper ==> forall i :: 0 <= i < |s| ==> IsLowerHexDigit(s[i])
    decreases |bs|
  {
    if |bs| == 0 then []
    else [Digit(bs[0] as int / 16, upper), Digit(bs[0] as int % 16, upper)] + Render(bs[1..], upper)
  }

  /** `Convert.ToHexString`. */
  function ToHex(bs: seq<byte>): string {
    Render(bs, true)
  }

  function FromHex(s: string): Option<seq<byte>>
    decreases |s|
  {
    if |s| == 0 then Some([])
    else if |s| == 1 then None
    else
      var hi, lo := DigitValue(s[0]), DigitValue(s[1]);
      if hi < 0 || lo < 0 then None
      else match FromHex(s[2..])
        case Some(rest) => Some([(hi * 16 + lo) as byte] + rest)
        case None => None
  }

  /** Parsing undoes rendering, in either case. */
  lemma {:induction false} FromHexRender(bs: seq<byte>, upper: bool)
    ensures FromHex(Render(bs, upper)) == Some(bs)
    decreases |bs|
  {
    if |bs| > 0 {
      var s := Render(bs, upper);
      FromHexRender(bs[1..], upper);
      assert s[2..] == Render(bs[1..], upper);
      assert bs == [bs[0]] + bs[1..];
    }
  }

  /** Different octet strings never share a rendering. */
  lemma RenderInjective(a: seq<byte>, b: seq<byte>, upper: bool)
    requires Render(a, upper) == Render(b, upper)
    ensures a == b
  {
    FromHexRender(a, upper);
    FromHexRender(b, upper);
  }

  /** `Guid.ToString()`: the first three fields are little-endian integers,
      the last eight octets are written in order; groups of 8-4-4-4-12 digits. */
  function GuidToString(g: Bytes16): (s: string)
    ensures |s| == 36
    ensures forall i :: 0 <= i < 36 ==> (s[i] == '-' <==> i in {8, 13, 18, 23})
    ensures forall i :: 0 <= i < 36 && s[i] != '-' ==> IsLowerHexDigit(s[i])
  {
    var s := Render([g[3], g[2], g[1], g[0]], false) + "-" + Render([g[5], g[4]], false) + "-"
           + Render([g[7], g[6]], false) + "-" + Render(g[8..10], false) + "-" + Render(g[10..16], false);
    s
  }

  /** Rendering distributes over concatenation. */
  lemma {:induction false} RenderConcat(a: seq<byte>, b: seq<byte>, upper: bool)
    ensures Render(a + b, upper) == Render(a, upper) + Render(b, upper)
    decreases |a|
  {
    if |a| == 0 {
      assert a + b == b;
    } else {
      assert (a + b)[0] == a[0];
      assert (a + b)[1..] == a[1..] + b;
      RenderConcat(a[1..], b, upper);
      var d := [Digit(a[0] as int / 16, upper), Digit(a[0] as int % 16, upper)];
      assert Render(a + b, upper) == d + Render(a[1..] + b, upper);
      assert Render(a, upper) == d + Render(a[1..], upper);
    }
  }

  /** The octets of a GUID in the order its text shows them: the first three
      fields byte-reversed, the last eight octets as they are. */
  function GuidDisplayOrder(g: Bytes16): (bs: Bytes16)
  {
    [g[3], g[2], g[1], g[0], g[5], g[4], g[7], g[6]] + g[8..]
  }

  /** Reordering twice restores the octets: the display order loses nothing. */
  lemma GuidDisplayOrderInvolution(g: Bytes16)
    ensures GuidDisplayOrder(GuidDisplayOrder(g)) == g
  {
    var d := GuidDisplayOrder(GuidDisplayOrder(g));
    assert forall i :: 0 <= i < 16 ==> d[i] == g[i];
  }

  /** Removing the four hyphens from groups of 8-4-4-4-12 characters leaves the groups joined. */
  lemma HyphenGroups(r1: string, r2: string, r3: string, r4: string, r5: string)
    requires |r1| == 8 && |r2| == 4 && |r3| == 4 && |r4| == 4 && |r5| == 12
    ensures var s := r1 + "-" + r2 + "-" + r3 + "-" + r4 + "-" + r5;
      s[..8] + s[9..13] + s[14..18] + s[19..23] + s[24..] == r1 + r2 + r3 + r4 + r5
  {
    var s := r1 + "-" + r2 + "-" + r3 + "-" + r4 + "-" + r5;
    assert s[..8] == r1;
    assert s[9..13] == r2;
    assert s[14..18] == r3;
    assert s[19..23] == r4;
    assert s[24..] == r5;
  }

  /** Dropping the four hyphens from a GUID's text leaves the hexadecimal
      rendering of its octets in display order, so parsing it gives them back. */
  lemma GuidToStringParsesBack(g: Bytes16)
    ensures var s := GuidToString(g);
      FromHex(s[..8] + s[9..13] + s[14..18] + s[19..23] + s[24..]) == Some(GuidDisplayOrder(g))
  {
    var p1, p2, p3, p4, p5 := [g[3], g[2], g[1], g[0]], [g[5], g[4]], [g[7], g[6]], g[8..10], g[10..16];
    var r1, r2, r3, r4, r5 := Render(p1, false), Render(p2, false), Render(p3, false), Render(p4, false),
                              Render(p5, false);
    HyphenGroups(r1, r2, r3, r4, r5);
    RenderConcat(p1, p2, false);
    RenderConcat(p1 + p2, p3, false);
    RenderConcat(p1 + p2 + p3, p4, false);
    RenderConcat(p1 + p2 + p3 + p4, p5, false);
    assert p1 + p2 + p3 + p4 + p5 == GuidDisplayOrder(g);
    FromHexRender(GuidDisplayOrder(g), false);
  }

  /** Distinct GUIDs have distinct texts, so distinct token ids. */
  lemma GuidToStringInjective(a: Bytes16, b: Bytes16)
    requires GuidToString(a) == GuidToString(b)
    ensures a == b
  {
    GuidToStringParsesBack(a);
    GuidToStringParsesBack(b);
    GuidDisplayOrderInvolution(a);
    GuidDisplayOrderInvolution(b);
  }
}
