/** `getMichelineStringBytes`: the hex payload handed to the wallet for
    signing, laid out like a Micheline packed string: the pack prefix byte
    0x05, the string tag 0x01, a hex length field counting UTF-16 code units
    (8 digits below 16^8, wider from there on), then `char2Bytes(str)`, all
    as lowercase hex. */
module Micheline {
  import opened Wrappers

  /** Pack prefix 0x05 followed by the string tag 0x01. */
  const PackTag := "0501"

  /** Width, in hex digits, the length field is padded to. */
  const LengthWidth: nat := 8

  function Pow16(k: nat): (p: nat)
    ensures p >= 1
  {
    if k == 0 then 1 else 16 * Pow16(k - 1)
  }

  lemma {:induction false} Pow16Monotonic(j: nat, k: nat)
    ensures j <= k ==> Pow16(j) <= Pow16(k)
    decreases if j < k then k - j else 0
  {
    if j < k {
      Pow16Monotonic(j, k - 1);
    }
  }

  /* ----- Hex digits ----- */

  /** The lowercase hex digit of `d`. */
  function HexDigit(d: nat): (c: char)
    requires d < 16
    ensures IsHexDigit(c)
  {
    if d < 10 then ('0' as int + d) as char else ('a' as int + d - 10) as char
  }

  predicate IsHexDigit(c: char) {
    '0' <= c <= '9' || 'a' <= c <= 'f'
  }

  function DigitValue(c: char): (d: nat)
    requires IsHexDigit(c)
    ensures d < 16 && HexDigit(d) == c
  {
    if c <= '9' then c as int - '0' as int else c as int - 'a' as int + 10
  }

  lemma DigitRoundTrip(d: nat)
    requires d < 16
    ensures IsHexDigit(HexDigit(d)) && DigitValue(HexDigit(d)) == d
  {
  }

  predicate IsHex(s: string) {
    forall i :: 0 <= i < |s| ==> IsHexDigit(s[i])
  }

  /** The number a string of hex digits denotes, most significant first. */
  function ParseHex(h: string): (n: nat)
    requires IsHex(h)
    ensures n < Pow16(|h|)
    decreases |h|
  {
    if h == [] then 0
    else
      var high := ParseHex(h[..|h| - 1]);
      assert high * 16 <= (Pow16(|h| - 1) - 1) * 16;
      high * 16 + DigitValue(h[|h| - 1])
  }

  lemma ParseHexSnoc(h: string, c: char)
    requires IsHex(h) && IsHexDigit(c)
    ensures IsHex(h + [c])
    ensures ParseHex(h + [c]) == ParseHex(h) * 16 + DigitValue(c)
  {
    assert (h + [c])[..|h|] == h;
  }

  /* ----- Numbers as hex ----- */

  /** `n.toString(16)`: lowercase digits, no leading zeros, "0" for zero. */
  function ToHex(n: nat): (r: string)
    ensures |r| >= 1 && IsHex(r)
    ensures |r| == 1 <==> n < 16
    ensures n == 0 ==> r == "0"
    ensures n > 0 ==> r[0] != '0'
    decreases n
  {
    if n < 16 then [HexDigit(n)] else ToHex(n / 16) + [HexDigit(n % 16)]
  }

  /** The hex numeral of `n` denotes `n`. */
  lemma {:induction false} ToHexValue(n: nat)
    ensures ParseHex(ToHex(n)) == n
    decreases n
  {
    if n < 16 {
      DigitRoundTrip(n);
    } else {
      ToHexValue(n / 16);
      DigitRoundTrip(n % 16);
      ParseHexSnoc(ToHex(n / 16), HexDigit(n % 16));
    }
  }

  /** A number below 16^w needs at most `w` hex digits. */
  lemma {:induction false} ToHexFits(n: nat, w: nat)
    requires w >= 1 && n < Pow16(w)
    ensures |ToHex(n)| <= w
    decreases n
  {
    if n >= 16 {
      assert Pow16(1) == 16;
      ToHexFits(n / 16, w - 1);
    }
  }

  /** Reference definition of a fixed-width field: the low `width` hex digits
      of `n`, most significant first. */
  function FixedHex(n: nat, width: nat): (r: string)
    ensures |r| == width && IsHex(r)
    decreases width
  {
    if width == 0 then [] else FixedHex(n / 16, width - 1) + [HexDigit(n % 16)]
  }

  /** The fixed-width field denotes `n` modulo 16^width. */
  lemma {:induction false} FixedHexValue(n: nat, width: nat)
    ensures ParseHex(FixedHex(n, width)) == n % Pow16(width)
    decreases width
  {
    if width > 0 {
      FixedHexValue(n / 16, width - 1);
      DigitRoundTrip(n % 16);
      ParseHexSnoc(FixedHex(n / 16, width - 1), HexDigit(n % 16));
      ModSplit(n, Pow16(width - 1));
    }
  }

  /** Splitting off the lowest hex digit commutes with reducing modulo 16p. */
  lemma ModSplit(n: nat, p: nat)
    requires p >= 1
    ensures (n / 16 % p) * 16 + n % 16 == n % (16 * p)
  {
    var q, low := n / 16, n % 16;
    var a, b := q / p, q % p;
    assert n == 16 * p * a + (16 * b + low);
    assert 0 <= 16 * b + low < 16 * p;
    ModUnique(n, 16 * p, a, 16 * b + low);
  }

  lemma ModUnique(n: nat, m: nat, a: nat, r: nat)
    requires m >= 1 && r < m && n == m * a + r
    ensures n % m == r
  {
    var q := n / m;
    assert n == m * q + n % m;
    if q > a {
      MulAtLeast(m, q - a);
      assert false;
    } else if q < a {
      MulAtLeast(m, a - q);
      assert false;
    }
  }

  lemma MulAtLeast(m: nat, k: nat)
    requires k >= 1
    ensures m * k >= m
  {
    assert m * k == m * (k - 1) + m;
  }

  /** Two hex strings of the same width denoting the same number are equal. */
  lemma {:induction false} HexUnique(h1: string, h2: string)
    requires |h1| == |h2| && IsHex(h1) && IsHex(h2) && ParseHex(h1) == ParseHex(h2)
    ensures h1 == h2
    decreases |h1|
  {
    if h1 != [] {
      var n := |h1| - 1;
      var p1, p2 := h1[..n], h2[..n];
      var d1, d2 := DigitValue(h1[n]), DigitValue(h2[n]);
      assert ParseHex(p1) * 16 + d1 == ParseHex(p2) * 16 + d2;
      if ParseHex(p1) > ParseHex(p2) {
        assert false;
      } else if ParseHex(p1) < ParseHex(p2) {
        assert false;
      }
      HexUnique(p1, p2);
      assert h1 == p1 + [h1[n]] && h2 == p2 + [h2[n]];
    }
  }

  /* ----- Padding ----- */

  function Repeat(c: char, k: nat): (r: string)
    ensures |r| == k && forall i :: 0 <= i < k ==> r[i] == c
  {
    seq(k, _ => c)
  }

  /** `s.padStart(width, fill)`: prepend `fill` up to `width`; never
      truncates a longer `s`. */
  function PadStart(s: string, width: nat, fill: char): (r: string)
    ensures |r| == if |s| >= width then |s| else width
    ensures r[|r| - |s|..] == s
    ensures forall i :: 0 <= i < |r| - |s| ==> r[i] == fill
  {
    if |s| >= width then s else Repeat(fill, width - |s|) + s
  }

  /** Leading zeros do not change the number. */
  lemma {:induction false} ParseHexLeadingZeros(k: nat, s: string)
    requires IsHex(s)
    ensures IsHex(Repeat('0', k) + s)
    ensures ParseHex(Repeat('0', k) + s) == ParseHex(s)
    decreases |s| + k
  {
    var t := Repeat('0', k) + s;
    if s == [] {
      if k > 0 {
        assert t[..k - 1] == Repeat('0', k - 1) + [];
        ParseHexLeadingZeros(k - 1, []);
      }
    } else {
      var m := |s| - 1;
      assert t[..|t| - 1] == Repeat('0', k) + s[..m];
      ParseHexLeadingZeros(k, s[..m]);
    }
  }

  /** The length field: `n.toString(16).padStart(8, '0')`. It always denotes
      `n`; below 16^8 it is exactly the 8-digit big-endian field, above it is
      wider. */
  function LengthField(n: nat): (r: string)
    ensures |r| >= LengthWidth && IsHex(r) && ParseHex(r) == n
    ensures n < Pow16(LengthWidth) ==> |r| == LengthWidth && r == FixedHex(n, LengthWidth)
    ensures n >= Pow16(LengthWidth) ==> |r| > LengthWidth
  {
    PaddedHexFacts(n, LengthWidth);
    PadStart(ToHex(n), LengthWidth, '0')
  }

  lemma PaddedHexFacts(n: nat, width: nat)
    requires width >= 1
    ensures var r := PadStart(ToHex(n), width, '0');
      && IsHex(r) && ParseHex(r) == n
      && (n < Pow16(width) ==> |r| == width && r == FixedHex(n, width))
      && (n >= Pow16(width) ==> |r| > width)
  {
    var digits := ToHex(n);
    var r := PadStart(digits, width, '0');
    ToHexValue(n);
    PaddedHexDenotes(digits, width);
    if n < Pow16(width) {
      ToHexFits(n, width);
      FixedHexValue(n, width);
      ModUnique(n, Pow16(width), 0, n);
      HexUnique(r, FixedHex(n, width));
    } else {
      PaddedHexWide(n, width);
    }
  }

  lemma PaddedHexDenotes(digits: string, width: nat)
    requires IsHex(digits)
    ensures IsHex(PadStart(digits, width, '0'))
    ensures ParseHex(PadStart(digits, width, '0')) == ParseHex(digits)
  {
    if |digits| < width {
      assert PadStart(digits, width, '0') == Repeat('0', width - |digits|) + digits;
      ParseHexLeadingZeros(width - |digits|, digits);
    }
  }

  lemma PaddedHexWide(n: nat, width: nat)
    requires n >= Pow16(width)
    ensures |ToHex(n)| > width
  {
    var digits := ToHex(n);
    ToHexValue(n);
    Pow16Monotonic(|digits|, width);
  }

  /* ----- Strings ----- */

  /** `str.length`: UTF-16 code units, two for a character outside the
      Basic Multilingual Plane. */
  function Utf16Length(s: string): (n: nat)
    ensures |s| <= n <= 2 * |s|
  {
    if s == [] then 0
    else (if s[0] as int >= 0x1_0000 then 2 else 1) + Utf16Length(s[1..])
  }

  predicate IsAscii(s: string) {
    forall i :: 0 <= i < |s| ==> s[i] as int < 0x80
  }

  lemma {:induction false} AsciiUtf16Length(s: string)
    requires IsAscii(s)
    ensures Utf16Length(s) == |s|
  {
    if s != [] {
      AsciiUtf16Length(s[1..]);
    }
  }

  /** `char2Bytes` on an ASCII string: two hex digits per character, its
      one UTF-8 byte. Non-ASCII characters are outside its intended use. */
  function AsciiHex(s: string): (r: string)
    ensures |r| == 2 * |s| && IsHex(r)
  {
    if s == [] then [] else FixedHex(s[0] as int, 2) + AsciiHex(s[1..])
  }

  /* ----- The payload ----- */

  /** `getMichelineStringBytes(str)`, with the foreign `char2Bytes` passed in.
      The payload starts with the tag, then the hex length field, then
      exactly `char2Bytes(str)`. */
  function GetMichelineStringBytes(s: string, char2Bytes: string -> string): (r: string)
    ensures |r| >= 4 + LengthWidth + |char2Bytes(s)|
    ensures r[..4] == PackTag
    ensures r[|r| - |char2Bytes(s)|..] == char2Bytes(s)
    ensures IsHex(r[4..|r| - |char2Bytes(s)|])
    ensures ParseHex(r[4..|r| - |char2Bytes(s)|]) == Utf16Length(s)
    ensures Utf16Length(s) < Pow16(LengthWidth) ==>
      r[4..12] == FixedHex(Utf16Length(s), LengthWidth) && r[12..] == char2Bytes(s)
    ensures Utf16Length(s) >= Pow16(LengthWidth) ==> |r| > 12 + |char2Bytes(s)|
  {
    var field := LengthField(Utf16Length(s));
    var r := PackTag + field + char2Bytes(s);
    assert r[4..|r| - |char2Bytes(s)|] == field;
    r
  }

  /* ----- Reading a payload back ----- */

  /** Reads hex byte pairs as characters, one per pair. */
  function DecodePairs(h: string): Option<string>
    decreases |h|
  {
    if h == [] then Some([])
    else if |h| < 2 || !IsHex(h[..2]) then None
    else
      var code := ParseHex(h[..2]);
      match DecodePairs(h[2..])
      case None => None
      case Some(rest) => Some([code as char] + rest)
  }

  /** Strips the tag, reads the 8-digit length `n`, then `n` byte pairs. */
  function Decode(r: string): Option<string> {
    if |r| < 12 || r[..4] != PackTag || !IsHex(r[4..12]) then None
    else
      var n := ParseHex(r[4..12]);
      if |r| - 12 != 2 * n then None else DecodePairs(r[12..])
  }

  lemma {:induction false} DecodeAsciiHex(s: string)
    requires IsAscii(s)
    ensures DecodePairs(AsciiHex(s)) == Some(s)
  {
    if s != [] {
      var h := AsciiHex(s);
      var c := s[0] as int;
      assert h[..2] == FixedHex(c, 2) && h[2..] == AsciiHex(s[1..]);
      assert IsHex(h[..2]) && ParseHex(h[..2]) == c by {
        ByteValue(c);
      }
      assert DecodePairs(h[2..]) == Some(s[1..]) by {
        DecodeAsciiHex(s[1..]);
      }
      assert [s[0]] + s[1..] == s;
    }
  }

  /** Two hex digits denote the byte they were written from. */
  lemma ByteValue(c: nat)
    requires c < 256
    ensures ParseHex(FixedHex(c, 2)) == c
  {
    assert Pow16(2) == 256;
    FixedHexValue(c, 2);
    ModUnique(c, 256, 0, c);
  }

  /** An ASCII string of n characters gives a payload of 12 + 2n hex digits:
      the tag, the 8-digit field, and two digits per character. */
  lemma AsciiPayloadLength(s: string)
    requires IsAscii(s) && |s| < Pow16(LengthWidth)
    ensures |GetMichelineStringBytes(s, AsciiHex)| == 12 + 2 * |s|
  {
    AsciiUtf16Length(s);
  }

  /** Decoding the payload of an ASCII string recovers the string. */
  lemma RoundTrip(s: string)
    requires IsAscii(s) && |s| < Pow16(LengthWidth)
    ensures Decode(GetMichelineStringBytes(s, AsciiHex)) == Some(s)
  {
    AsciiUtf16Length(s);
    DecodeAsciiHex(s);
  }

  /** Distinct ASCII strings get distinct payloads. */
  lemma PayloadInjective(s: string, t: string)
    requires IsAscii(s) && |s| < Pow16(LengthWidth)
    requires IsAscii(t) && |t| < Pow16(LengthWidth)
    requires GetMichelineStringBytes(s, AsciiHex) == GetMichelineStringBytes(t, AsciiHex)
    ensures s == t
  {
    RoundTrip(s);
    RoundTrip(t);
  }

  /** The payload of "hi": tag, length 2, then the bytes 0x68 0x69. The
      string is a parameter fixed by the precondition, rather than the literal
      written in the ensures, so that the verifier does not unfold the whole
      payload computation on the literal; the proof goes through its three
      pieces instead. */
  lemma PayloadOfHi(s: string)
    requires s == "hi"
    ensures GetMichelineStringBytes(s, AsciiHex) == "0501000000026869"
  {
    PayloadParts(s, AsciiHex);
    HiPieces();
  }

  lemma HiPieces()
    ensures PackTag + LengthField(Utf16Length("hi")) + AsciiHex("hi") == "0501000000026869"
  {
    AsciiUtf16Length("hi");
    LengthFieldOfTwo();
    AsciiHexOfHi();
    HiParts();
  }

  lemma PayloadParts(s: string, char2Bytes: string -> string)
    ensures GetMichelineStringBytes(s, char2Bytes)
         == PackTag + LengthField(Utf16Length(s)) + char2Bytes(s)
  {
  }

  lemma HiParts()
    ensures PackTag + "00000002" + "6869" == "0501000000026869"
  {
  }

  lemma LengthFieldOfTwo()
    ensures LengthField(2) == "00000002"
  {
    assert ToHex(2) == "2";
    assert Repeat('0', 7) == "0000000";
  }

  lemma AsciiHexOfHi()
    ensures AsciiHex("hi") == "6869"
  {
    assert FixedHex(6, 1) == "6";
    assert FixedHex(104, 2) == "68";
    assert FixedHex(105, 2) == "69";
    assert "hi"[1..] == "i";
    assert AsciiHex("i") == "69";
  }
}
