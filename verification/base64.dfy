/** Base64 as `Convert.ToBase64String` writes it: the alphabet and padding
    of section 4 of RFC 4648, no line breaks. `Decode` is a strict reference
    inverse used to show that the encoding loses nothing. */
module Base64 {
  import opened Wrappers
  import opened Bytes

  const Pad: char := '='

  predicate IsAlphabetChar(c: char) {
    ('A' <= c <= 'Z') || ('a' <= c <= 'z') || ('0' <= c <= '9') || c == '+' || c == '/'
  }

  /** The value of an alphabet character, or -1 for any other character. */
  function Value(c: char): (v: int)
    ensures IsAlphabetChar(c) <==> 0 <= v < 64
    ensures !IsAlphabetChar(c) ==> v == -1
  {
    if 'A' <= c <= 'Z' then c as int - 'A' as int
    else if 'a' <= c <= 'z' then c as int - 'a' as int + 26
    else if '0' <= c <= '9' then c as int - '0' as int + 52
    else if c == '+' then 62
    else if c == '/' then 63
    else -1
  }

  /** The alphabet character for a 6-bit value (table 1 of RFC 4648). */
  function Digit(v: int): (c: char)
    requires 0 <= v < 64
    ensures IsAlphabetChar(c) && Value(c) == v
  {
    if v < 26 then ('A' as int + v) as char
    else if v < 52 then ('a' as int + (v - 26)) as char
    else if v < 62 then ('0' as int + (v - 52)) as char
    else if v == 62 then '+'
    else '/'
  }

  /** Number of `=` characters closing the encoding of `n` octets. */
  function PadCount(n: nat): nat {
    (3 - n % 3) % 3
  }

  /** One full 24-bit group as four characters. */
  function EncodeQuantum(a: byte, b: byte, c: byte): string {
    [ Digit(a as int / 4),
      Digit((a as int % 4) * 16 + b as int / 16),
      Digit((b as int % 16) * 4 + c as int / 64),
      Digit(c as int % 64) ]
  }

  function Encode(bs: seq<byte>): (s: string)
    ensures |s| == 4 * ((|bs| + 2) / 3)
    ensures forall i :: 0 <= i < |s| ==> (s[i] == Pad <==> i >= |s| - PadCount(|bs|))
    ensures forall i :: 0 <= i < |s| - PadCount(|bs|) ==> IsAlphabetChar(s[i])
    decreases |bs|
  {
    if |bs| == 0 then []
    else if |bs| == 1 then
      [Digit(bs[0] as int / 4), Digit((bs[0] as int % 4) * 16), Pad, Pad]
    else if |bs| == 2 then
      [Digit(bs[0] as int / 4), Digit((bs[0] as int % 4) * 16 + bs[1] as int / 16),
       Digit((bs[1] as int % 16) * 4), Pad]
    else
      var rest := Encode(bs[3..]);
      var q := EncodeQuantum(bs[0], bs[1], bs[2]);
      assert PadCount(|bs[3..]|) == PadCount(|bs|);
      assert PadCount(|bs|) > 0 ==> |rest| >= 4;
      assert AllAlphabet(q);
      assert forall i :: 4 <= i < |q + rest| ==> (q + rest)[i] == rest[i - 4];
      q + rest
  }

  predicate AllAlphabet(q: string) {
    forall k :: 0 <= k < |q| ==> IsAlphabetChar(q[k])
  }

  /** The three octets of an unpadded group. */
  function DecodeFull(q: string): (r: seq<byte>)
    requires |q| == 4 && AllAlphabet(q)
    ensures |r| == 3
  {
    var v0, v1, v2, v3 := Value(q[0]), Value(q[1]), Value(q[2]), Value(q[3]);
    [(v0 * 4 + v1 / 16) as byte, ((v1 % 16) * 16 + v2 / 4) as byte, ((v2 % 4) * 64 + v3) as byte]
  }

  /** The last group, which may carry one or two `=`. */
  function DecodeFinal(q: string): Option<seq<byte>>
    requires |q| == 4
  {
    if AllAlphabet(q) then Some(DecodeFull(q))
    else if IsAlphabetChar(q[0]) && IsAlphabetChar(q[1]) && IsAlphabetChar(q[2]) && q[3] == Pad then
      var v0, v1, v2 := Value(q[0]), Value(q[1]), Value(q[2]);
      Some([(v0 * 4 + v1 / 16) as byte, ((v1 % 16) * 16 + v2 / 4) as byte])
    else if IsAlphabetChar(q[0]) && IsAlphabetChar(q[1]) && q[2] == Pad && q[3] == Pad then
      var v0, v1 := Value(q[0]), Value(q[1]);
      Some([(v0 * 4 + v1 / 16) as byte])
    else None
  }

  function Decode(s: string): Option<seq<byte>>
    decreases |s|
  {
    if |s| == 0 then Some([])
    else if |s| < 4 then None
    else if |s| == 4 then DecodeFinal(s)
    else if AllAlphabet(s[..4]) then
      match Decode(s[4..])
      case Some(rest) => Some(DecodeFull(s[..4]) + rest)
      case None => None
    else None
  }

  lemma DivMod16(q: int, r: int)
    requires 0 <= r < 16
    ensures (q * 16 + r) / 16 == q && (q * 16 + r) % 16 == r
  {
  }

  lemma DivMod4(q: int, r: int)
    requires 0 <= r < 4
    ensures (q * 4 + r) / 4 == q && (q * 4 + r) % 4 == r
  {
  }

  /** Splitting an octet into 6+2, 4+4 and 2+6 bit fields and joining them back is lossless. */
  lemma FieldsRoundTrip(a: int, b: int, c: int)
    requires 0 <= a < 256 && 0 <= b < 256 && 0 <= c < 256
    ensures (a / 4) * 4 + ((a % 4) * 16 + b / 16) / 16 == a
    ensures (((a % 4) * 16 + b / 16) % 16) * 16 + ((b % 16) * 4 + c / 64) / 4 == b
    ensures (((b % 16) * 4 + c / 64) % 4) * 64 + c % 64 == c
  {
    DivMod16(a % 4, b / 16);
    DivMod4(b % 16, c / 64);
  }

  lemma QuantumRoundTrip(a: byte, b: byte, c: byte)
    ensures AllAlphabet(EncodeQuantum(a, b, c))
    ensures DecodeFull(EncodeQuantum(a, b, c)) == [a, b, c]
  {
    FieldsRoundTrip(a as int, b as int, c as int);
  }

  lemma OneOctetRoundTrip(a: byte)
    ensures Decode(Encode([a])) == Some([a])
  {
    var s := Encode([a]);
    FieldsRoundTrip(a as int, 0, 0);
    assert !IsAlphabetChar(s[2]) && !IsAlphabetChar(s[3]);
    assert !AllAlphabet(s);
  }

  lemma TwoOctetsRoundTrip(a: byte, b: byte)
    ensures Decode(Encode([a, b])) == Some([a, b])
  {
    var s := Encode([a, b]);
    FieldsRoundTrip(a as int, b as int, 0);
    assert !IsAlphabetChar(s[3]);
    assert !AllAlphabet(s);
  }

  /** A full leading group decodes on its own, ahead of whatever follows it. */
  lemma DecodeLeadingGroup(q: string, rest: string)
    requires |q| == 4 && AllAlphabet(q) && |rest| > 0
    ensures Decode(q + rest) == match Decode(rest)
                                case Some(r) => Some(DecodeFull(q) + r)
                                case None => None
  {
    var s := q + rest;
    assert s[..4] == q && s[4..] == rest;
  }

  /** Decoding undoes encoding for every octet string. */
  lemma {:induction false} DecodeEncode(bs: seq<byte>)
    ensures Decode(Encode(bs)) == Some(bs)
    decreases |bs|
  {
    if |bs| == 0 {
    } else if |bs| == 1 {
      assert bs == [bs[0]];
      OneOctetRoundTrip(bs[0]);
    } else if |bs| == 2 {
      assert bs == [bs[0], bs[1]];
      TwoOctetsRoundTrip(bs[0], bs[1]);
    } else {
      var q := EncodeQuantum(bs[0], bs[1], bs[2]);
      QuantumRoundTrip(bs[0], bs[1], bs[2]);
      assert Encode(bs) == q + Encode(bs[3..]);
      assert bs == [bs[0], bs[1], bs[2]] + bs[3..];
      if |bs| == 3 {
        assert Encode(bs) == q && bs == [bs[0], bs[1], bs[2]];
        assert Decode(q) == DecodeFinal(q);
      } else {
        DecodeEncode(bs[3..]);
        DecodeLeadingGroup(q, Encode(bs[3..]));
      }
    }
  }

  /** 32 octets take 44 characters, the last one `=`. */
  lemma ShapeOf32(bs: seq<byte>)
    requires |bs| == 32
    ensures |Encode(bs)| == 44 && Encode(bs)[43] == Pad
    ensures forall i :: 0 <= i < 43 ==> IsAlphabetChar(Encode(bs)[i])
  {
    assert PadCount(|bs|) == 1;
  }

  /** 16 octets take 24 characters, the last two `=`. */
  lemma ShapeOf16(bs: seq<byte>)
    requires |bs| == 16
    ensures |Encode(bs)| == 24 && Encode(bs)[22] == Pad && Encode(bs)[23] == Pad
    ensures forall i :: 0 <= i < 22 ==> IsAlphabetChar(Encode(bs)[i])
  {
    assert PadCount(|bs|) == 2;
  }

  /** Different octet strings never share an encoding. */
  lemma EncodeInjective(a: seq<byte>, b: seq<byte>)
    requires Encode(a) == Encode(b)
    ensures a == b
  {
    DecodeEncode(a);
    DecodeEncode(b);
  }
}
