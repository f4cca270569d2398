// Standard base64 (RFC 4648, section 4) as Go's base64.StdEncoding reads and writes it:
// carriage returns and newlines are skipped anywhere, padding is mandatory, and the unused
// low bits of a final partial quantum are ignored when decoding.
module Base64 {
  import opened Wrappers

  type Byte = b: int | 0 <= b < 256
  type Sextet = i: int | 0 <= i < 64

  function CharOf(i: Sextet): char {
    if i < 26 then 'A' + i as char
    else if i < 52 then 'a' + (i - 26) as char
    else if i < 62 then '0' + (i - 52) as char
    else if i == 62 then '+'
    else '/'
  }

  function SextetOf(c: char): Option<Sextet> {
    if 'A' <= c <= 'Z' then Some(c as int - 'A' as int)
    else if 'a' <= c <= 'z' then Some(c as int - 'a' as int + 26)
    else if '0' <= c <= '9' then Some(c as int - '0' as int + 52)
    else if c == '+' then Some(62)
    else if c == '/' then Some(63)
    else None
  }

  function Encode(bs: seq<Byte>): string {
    if |bs| == 0 then ""
    else if |bs| == 1 then
      [CharOf(bs[0] / 4), CharOf(bs[0] % 4 * 16), '=', '=']
    else if |bs| == 2 then
      [CharOf(bs[0] / 4), CharOf(bs[0] % 4 * 16 + bs[1] / 16), CharOf(bs[1] % 16 * 4), '=']
    else
      [CharOf(bs[0] / 4), CharOf(bs[0] % 4 * 16 + bs[1] / 16),
       CharOf(bs[1] % 16 * 4 + bs[2] / 64), CharOf(bs[2] % 64)] + Encode(bs[3..])
  }

  function StripNewlines(s: string): string {
    if s == "" then ""
    else if s[0] == '\r' || s[0] == '\n' then StripNewlines(s[1..])
    else [s[0]] + StripNewlines(s[1..])
  }

  // The three bytes packed in the four sextets a, b, c, d.
  function First(a: Sextet, b: Sextet): Byte { a * 4 + b / 16 }
  function Second(b: Sextet, c: Sextet): Byte { b % 16 * 16 + c / 4 }
  function Third(c: Sextet, d: Sextet): Byte { c % 4 * 64 + d }

  // Decodes text that holds no newline, one quantum of four characters at a time.
  function DecodeQuanta(t: string): Option<seq<Byte>> {
    if |t| == 0 then Some([])
    else if |t| < 4 then None
    else
      match (SextetOf(t[0]), SextetOf(t[1]), SextetOf(t[2]), SextetOf(t[3]))
      case (Some(a), Some(b), Some(c), Some(d)) =>
        (match DecodeQuanta(t[4..])
         case None => None
         case Some(rest) => Some([First(a, b), Second(b, c), Third(c, d)] + rest))
      case (Some(a), Some(b), Some(c), None) =>
        if t[3] == '=' && |t| == 4 then Some([First(a, b), Second(b, c)]) else None
      case (Some(a), Some(b), None, None) =>
        if t[2] == '=' && t[3] == '=' && |t| == 4 then Some([First(a, b)]) else None
      case _ => None
  }

  function Decode(s: string): Option<seq<Byte>> {
    DecodeQuanta(StripNewlines(s))
  }

  lemma {:induction false} EncodeLength(bs: seq<Byte>)
    ensures |Encode(bs)| == (|bs| + 2) / 3 * 4
  {
    if |bs| >= 3 {
      EncodeLength(bs[3..]);
      var rest := |bs| - 3;
      assert |Encode(bs)| == 4 + |Encode(bs[3..])|;
      assert (rest + 3 + 2) / 3 == (rest + 2) / 3 + 1;
    }
  }

  lemma CharRoundTrip(i: Sextet)
    ensures SextetOf(CharOf(i)) == Some(i)
    ensures CharOf(i) !in {'=', '\r', '\n'}
  {
  }

  lemma {:induction false} EncodeHasNoNewlines(bs: seq<Byte>)
    ensures '\r' !in Encode(bs) && '\n' !in Encode(bs)
  {
    forall i: Sextet ensures CharOf(i) !in {'=', '\r', '\n'} { CharRoundTrip(i); }
    if |bs| >= 3 {
      EncodeHasNoNewlines(bs[3..]);
    }
  }

  lemma {:induction false} StripKeepsPlainText(s: string)
    requires '\r' !in s && '\n' !in s
    ensures StripNewlines(s) == s
  {
    if s != "" {
      StripKeepsPlainText(s[1..]);
    }
  }

  lemma {:induction false} StripIgnoresTrailingNewline(s: string)
    ensures StripNewlines(s + "\n") == StripNewlines(s)
  {
    if s == "" {
      assert "\n"[1..] == "";
    } else {
      assert (s + "\n")[1..] == s[1..] + "\n";
      StripIgnoresTrailingNewline(s[1..]);
    }
  }

  lemma PackUnpack(x: Byte, y: Byte, z: Byte)
    ensures First(x / 4, x % 4 * 16 + y / 16) == x
    ensures Second(x % 4 * 16 + y / 16, y % 16 * 4 + z / 64) == y
    ensures Third(y % 16 * 4 + z / 64, z % 64) == z
  {
  }

  lemma DecodeOneByte(x: Byte)
    ensures DecodeQuanta(Encode([x])) == Some([x])
  {
  }

  lemma DecodeTwoBytes(x: Byte, y: Byte)
    ensures DecodeQuanta(Encode([x, y])) == Some([x, y])
  {
    var a, b, c: Sextet := x / 4, x % 4 * 16 + y / 16, y % 16 * 4;
    CharRoundTrip(a);
    CharRoundTrip(b);
    CharRoundTrip(c);
    PackUnpack(x, y, 0);
    assert Encode([x, y]) == [CharOf(a), CharOf(b), CharOf(c), '='];
    assert DecodeQuanta([CharOf(a), CharOf(b), CharOf(c), '=']) == Some([First(a, b), Second(b, c)]);
  }

  lemma DecodeThreeBytes(x: Byte, y: Byte, z: Byte, rest: seq<Byte>, text: string)
    requires DecodeQuanta(text) == Some(rest)
    ensures var head := [CharOf(x / 4), CharOf(x % 4 * 16 + y / 16), CharOf(y % 16 * 4 + z / 64), CharOf(z % 64)];
            DecodeQuanta(head + text) == Some([x, y, z] + rest)
  {
    CharRoundTrip(x / 4);
    CharRoundTrip(x % 4 * 16 + y / 16);
    CharRoundTrip(y % 16 * 4 + z / 64);
    CharRoundTrip(z % 64);
    PackUnpack(x, y, z);
    var head := [CharOf(x / 4), CharOf(x % 4 * 16 + y / 16), CharOf(y % 16 * 4 + z / 64), CharOf(z % 64)];
    assert (head + text)[4..] == text;
  }

  lemma EncodeUnfolds(x: Byte, y: Byte, z: Byte, rest: seq<Byte>)
    ensures Encode([x, y, z] + rest)
         == [CharOf(x / 4), CharOf(x % 4 * 16 + y / 16), CharOf(y % 16 * 4 + z / 64), CharOf(z % 64)] + Encode(rest)
  {
    assert ([x, y, z] + rest)[3..] == rest;
  }

  lemma DecodeLonger(x: Byte, y: Byte, z: Byte, rest: seq<Byte>, text: string)
    requires DecodeQuanta(Encode(rest)) == Some(rest) && text == Encode([x, y, z] + rest)
    ensures DecodeQuanta(text) == Some([x, y, z] + rest)
  {
    EncodeUnfolds(x, y, z, rest);
    DecodeThreeBytes(x, y, z, rest, Encode(rest));
  }

  lemma {:induction false} DecodeQuantaOfEncode(bs: seq<Byte>)
    ensures DecodeQuanta(Encode(bs)) == Some(bs)
  {
    if |bs| == 1 {
      assert bs == [bs[0]];
      DecodeOneByte(bs[0]);
    } else if |bs| == 2 {
      assert bs == [bs[0], bs[1]];
      DecodeTwoBytes(bs[0], bs[1]);
    } else if |bs| >= 3 {
      DecodeQuantaOfEncode(bs[3..]);
      assert bs == [bs[0], bs[1], bs[2]] + bs[3..];
      DecodeLonger(bs[0], bs[1], bs[2], bs[3..], Encode(bs));
    }
  }

  // Decoding undoes encoding, for every byte string.
  lemma DecodeOfEncode(bs: seq<Byte>)
    ensures Decode(Encode(bs)) == Some(bs)
  {
    EncodeHasNoNewlines(bs);
    StripKeepsPlainText(Encode(bs));
    DecodeQuantaOfEncode(bs);
  }

  // ----- the text itself

  // The alphabet of RFC 4648 (section 4, table 1).
  lemma Alphabet()
    ensures [CharOf(0), CharOf(1), CharOf(2), CharOf(3), CharOf(4), CharOf(5), CharOf(6), CharOf(7)] == "ABCDEFGH"
    ensures [CharOf(8), CharOf(9), CharOf(10), CharOf(11), CharOf(12), CharOf(13), CharOf(14), CharOf(15)] == "IJKLMNOP"
    ensures [CharOf(16), CharOf(17), CharOf(18), CharOf(19), CharOf(20), CharOf(21), CharOf(22), CharOf(23)] == "QRSTUVWX"
    ensures [CharOf(24), CharOf(25), CharOf(26), CharOf(27), CharOf(28), CharOf(29), CharOf(30), CharOf(31)] == "YZabcdef"
    ensures [CharOf(32), CharOf(33), CharOf(34), CharOf(35), CharOf(36), CharOf(37), CharOf(38), CharOf(39)] == "ghijklmn"
    ensures [CharOf(40), CharOf(41), CharOf(42), CharOf(43), CharOf(44), CharOf(45), CharOf(46), CharOf(47)] == "opqrstuv"
    ensures [CharOf(48), CharOf(49), CharOf(50), CharOf(51), CharOf(52), CharOf(53), CharOf(54), CharOf(55)] == "wxyz0123"
    ensures [CharOf(56), CharOf(57), CharOf(58), CharOf(59), CharOf(60), CharOf(61), CharOf(62), CharOf(63)] == "456789+/"
  {
  }

  // Three bytes and four sextets are one number, read from the left; two bytes are followed by two zero
  // bits and a pad, one byte by four and two pads.
  lemma QuantumIsNumber(x: Byte, y: Byte, z: Byte, a: Sextet, b: Sextet, c: Sextet, d: Sextet, rest: seq<Byte>)
    requires x * 0x1_0000 + y * 0x100 + z == a * 0x4_0000 + b * 0x1000 + c * 0x40 + d
    ensures Encode([x, y, z] + rest) == [CharOf(a), CharOf(b), CharOf(c), CharOf(d)] + Encode(rest)
    ensures z == 0 && d == 0 ==> Encode([x, y]) == [CharOf(a), CharOf(b), CharOf(c), '=']
    ensures y == z == 0 && c == d == 0 ==> Encode([x]) == [CharOf(a), CharOf(b), '=', '=']
  {
    assert ([x, y, z] + rest)[3..] == rest;
    assert a == x / 4 && b == x % 4 * 16 + y / 16 && c == y % 16 * 4 + z / 64 && d == z % 64;
  }

  // ----- what decodes

  predicate Alphabetic(t: string) {
    forall i :: 0 <= i < |t| ==> SextetOf(t[i]).Some?
  }

  // Characters of the alphabet, their number a multiple of four once up to two of them are pads.
  ghost predicate WellPadded(t: string) {
    |t| % 4 == 0 && (t == "" || exists pads :: 0 <= pads <= 2 && PaddedBy(t, pads))
  }

  ghost predicate PaddedBy(t: string, pads: nat)
    requires pads <= 2
  {
    |t| >= 4 && Alphabetic(t[..|t| - pads]) && forall i :: |t| - pads <= i < |t| ==> t[i] == '='
  }

  lemma {:induction false} DecodesIffPadded(t: string)
    ensures DecodeQuanta(t).Some? <==> WellPadded(t)
  {
    if |t| > 4 {
      DecodesIffPadded(t[4..]);
      PaddedTail(t);
      QuantumThenMore(t);
    } else if |t| == 4 {
      LastQuantum(t);
      OneQuantum(t);
    }
  }

  lemma QuantumThenMore(t: string)
    requires |t| > 4
    ensures DecodeQuanta(t).Some? <==> Alphabetic(t[..4]) && DecodeQuanta(t[4..]).Some?
  {
    assert Alphabetic(t[..4]) <==> SextetOf(t[0]).Some? && SextetOf(t[1]).Some? && SextetOf(t[2]).Some? && SextetOf(t[3]).Some?;
  }

  lemma OneQuantum(t: string)
    requires |t| == 4
    ensures DecodeQuanta(t).Some? <==>
              && SextetOf(t[0]).Some? && SextetOf(t[1]).Some?
              && (|| (SextetOf(t[2]).Some? && (SextetOf(t[3]).Some? || t[3] == '='))
                  || (t[2] == '=' && t[3] == '='))
  {
    assert t[4..] == "" && DecodeQuanta("") == Some([]);
  }

  lemma LastQuantum(t: string)
    requires |t| == 4
    ensures WellPadded(t) <==>
              && SextetOf(t[0]).Some? && SextetOf(t[1]).Some?
              && (|| (SextetOf(t[2]).Some? && (SextetOf(t[3]).Some? || t[3] == '='))
                  || (t[2] == '=' && t[3] == '='))
  {
    assert PaddedBy(t, 0) <==> Alphabetic(t);
    assert PaddedBy(t, 1) <==> Alphabetic(t[..3]) && t[3] == '=';
    assert PaddedBy(t, 2) <==> Alphabetic(t[..2]) && t[2] == '=' && t[3] == '=';
  }

  lemma PaddedTail(t: string)
    requires |t| > 4
    ensures WellPadded(t) <==> Alphabetic(t[..4]) && t[4..] != "" && WellPadded(t[4..])
  {
    var tail := t[4..];
    if |t| % 4 == 0 {
      forall pads: nat | pads <= 2 ensures PaddedBy(t, pads) <==> Alphabetic(t[..4]) && PaddedBy(tail, pads) {
        assert tail[..|tail| - pads] == t[4..|t| - pads];
        assert t[..|t| - pads] == t[..4] + tail[..|tail| - pads];
      }
    }
  }

  // Line breaks are skipped wherever they stand, and nothing else is.
  lemma {:induction false} StripSplits(a: string, b: string)
    ensures StripNewlines(a + b) == StripNewlines(a) + StripNewlines(b)
  {
    if a == "" {
      assert a + b == b;
    } else {
      assert (a + b)[1..] == a[1..] + b;
      StripSplits(a[1..], b);
    }
  }

  lemma BreaksAreSkipped(a: string, c: char, b: string)
    requires c == '\r' || c == '\n'
    ensures Decode(a + [c] + b) == Decode(a + b)
  {
    StripSplits(a + [c], b);
    StripSplits(a, [c]);
    StripSplits(a, b);
    assert [c][1..] == "";
    assert StripNewlines(a) + StripNewlines([c]) == StripNewlines(a);
  }

  // A text without line breaks decodes exactly when it is well padded.
  lemma DecodesIff(t: string)
    requires '\r' !in t && '\n' !in t
    ensures Decode(t).Some? <==> WellPadded(t)
  {
    StripKeepsPlainText(t);
    DecodesIffPadded(t);
  }
}
