/**
 * Base64 as used by the widget's data URLs: the alphabet of section 4 of
 * RFC 4648, the browser's `atob` (the "forgiving-base64 decode" of the HTML
 * standard) that turns a payload into a binary string, and the padded encoder
 * a bundler uses to inline an asset, which serves as the decoder's partner.
 */
module Base64 {
  import opened Wrappers

  /** Value 0..63 of one base64 digit (section 4 of RFC 4648). */
  predicate IsDigit(c: char) {
    ('A' <= c <= 'Z') || ('a' <= c <= 'z') || ('0' <= c <= '9') || c == '+' || c == '/'
  }

  function DigitValue(c: char): (v: nat)
    requires IsDigit(c)
    ensures v < 64
  {
    if 'A' <= c <= 'Z' then c as int - 'A' as int
    else if 'a' <= c <= 'z' then c as int - 'a' as int + 26
    else if '0' <= c <= '9' then c as int - '0' as int + 52
    else if c == '+' then 62
    else 63
  }

  function DigitChar(v: nat): (c: char)
    requires v < 64
    ensures IsDigit(c) && DigitValue(c) == v
  {
    if v < 26 then ('A' as int + v) as char
    else if v < 52 then ('a' as int + v - 26) as char
    else if v < 62 then ('0' as int + v - 52) as char
    else if v == 62 then '+'
    else '/'
  }

  /** ASCII whitespace as the HTML standard defines it: TAB, LF, FF, CR, SPACE. */
  predicate IsAsciiWhitespace(c: char) {
    c == '\t' || c == '\n' || c == '\U{000C}' || c == '\r' || c == ' '
  }

  function StripWhitespace(s: string): (r: string)
    ensures |r| <= |s|
    ensures forall i :: 0 <= i < |r| ==> !IsAsciiWhitespace(r[i])
    ensures (forall i :: 0 <= i < |s| ==> !IsAsciiWhitespace(s[i])) ==> r == s
  {
    if s == [] then []
    else if IsAsciiWhitespace(s[0]) then StripWhitespace(s[1..])
    else [s[0]] + StripWhitespace(s[1..])
  }

  /** Step 2 of forgiving-base64 decode: with a length divisible by four, drop one or two trailing '='. */
  function DropPadding(s: string): (r: string)
    ensures |r| <= |s| && r == s[..|r|]
  {
    if |s| % 4 == 0 && |s| >= 2 && s[|s| - 1] == '=' && s[|s| - 2] == '=' then s[..|s| - 2]
    else if |s| % 4 == 0 && |s| >= 1 && s[|s| - 1] == '=' then s[..|s| - 1]
    else s
  }

  predicate AllDigits(s: string) {
    forall i :: 0 <= i < |s| ==> IsDigit(s[i])
  }

  /** The first, second and third byte of a group of base64 digits; leftover bits are discarded. */
  function Byte0(a: nat, b: nat): Byte requires a < 64 && b < 64 { a * 4 + b / 16 }
  function Byte1(b: nat, c: nat): Byte requires b < 64 && c < 64 { (b % 16) * 16 + c / 4 }
  function Byte2(c: nat, d: nat): Byte requires c < 64 && d < 64 { (c % 4) * 64 + d }

  /**
   * Decodes a run of digits, four into three bytes; a trailing two or three
   * digits give one or two bytes. (`Atob` rejects a lone trailing digit
   * before it decodes.)
   */
  function DecodeDigits(s: string): (r: seq<Byte>)
    requires AllDigits(s)
    decreases |s|
  {
    if |s| <= 1 then []
    else if |s| == 2 then [Byte0(DigitValue(s[0]), DigitValue(s[1]))]
    else if |s| == 3 then
      [Byte0(DigitValue(s[0]), DigitValue(s[1])), Byte1(DigitValue(s[1]), DigitValue(s[2]))]
    else
      [Byte0(DigitValue(s[0]), DigitValue(s[1])),
       Byte1(DigitValue(s[1]), DigitValue(s[2])),
       Byte2(DigitValue(s[2]), DigitValue(s[3]))] + DecodeDigits(s[4..])
  }

  /** A string whose every character code fits in a byte, as `atob` returns. */
  predicate IsBinaryString(s: string) {
    forall i :: 0 <= i < |s| ==> s[i] as int < 256
  }

  function BinaryString(bytes: seq<Byte>): (s: string)
    ensures |s| == |bytes| && IsBinaryString(s)
    ensures forall i :: 0 <= i < |s| ==> s[i] as int == bytes[i]
  {
    seq(|bytes|, i requires 0 <= i < |bytes| => bytes[i] as char)
  }

  /** The digits left once whitespace and padding are removed. */
  function Unpadded(s: string): string {
    DropPadding(StripWhitespace(s))
  }

  /**
   * `atob`: forgiving-base64 decode. `None` stands for the
   * `InvalidCharacterError` it throws: after whitespace and padding are removed,
   * a length leaving remainder 1 modulo 4, or a character outside the alphabet.
   */
  function Atob(s: string): (r: Option<string>)
    ensures r.None? <==> |Unpadded(s)| % 4 == 1 || !AllDigits(Unpadded(s))
    ensures r.Some? ==> IsBinaryString(r.value)
  {
    var data := Unpadded(s);
    if |data| % 4 == 1 || !AllDigits(data) then None
    else Some(BinaryString(DecodeDigits(data)))
  }

  /** Every four digits give three bytes, and a trailing two or three digits give one or two. */
  lemma {:induction false} DecodeLength(s: string)
    requires AllDigits(s) && |s| % 4 != 1
    ensures |DecodeDigits(s)| == |s| * 3 / 4
    decreases |s|
  {
    if |s| >= 4 {
      assert AllDigits(s[4..]);
      DecodeLength(s[4..]);
    }
  }

  /** The binary string `atob` returns has three characters for every four digits. */
  lemma AtobLength(s: string)
    requires Atob(s).Some?
    ensures |Atob(s).value| == |Unpadded(s)| * 3 / 4
  {
    DecodeLength(Unpadded(s));
  }

  /** The four digits of three bytes; decoding them gives the bytes back. */
  function Quad(x: Byte, y: Byte, z: Byte): (g: string)
    ensures |g| == 4 && AllDigits(g)
  {
    [DigitChar(x / 4), DigitChar((x % 4) * 16 + y / 16), DigitChar((y % 16) * 4 + z / 64), DigitChar(z % 64)]
  }

  /** The three digits of two trailing bytes (the low two bits of the last digit are zero). */
  function Triple(x: Byte, y: Byte): (g: string)
    ensures |g| == 3 && AllDigits(g)
  {
    [DigitChar(x / 4), DigitChar((x % 4) * 16 + y / 16), DigitChar((y % 16) * 4)]
  }

  /** The two digits of one trailing byte (the low four bits of the last digit are zero). */
  function Pair(x: Byte): (g: string)
    ensures |g| == 2 && AllDigits(g)
  {
    [DigitChar(x / 4), DigitChar((x % 4) * 16)]
  }

  /** The bit arithmetic of a group: the 6-bit values the encoder emits give the bytes back. */
  lemma GroupArithmetic(x: Byte, y: Byte, z: Byte)
    ensures Byte0(x / 4, (x % 4) * 16 + y / 16) == x
    ensures Byte1((x % 4) * 16 + y / 16, (y % 16) * 4 + z / 64) == y
    ensures Byte2((y % 16) * 4 + z / 64, z % 64) == z
  {
  }

  /** A group of four decodes to the three bytes it was made from. */
  lemma QuadBytes(x: Byte, y: Byte, z: Byte)
    ensures var g := Quad(x, y, z);
      Byte0(DigitValue(g[0]), DigitValue(g[1])) == x &&
      Byte1(DigitValue(g[1]), DigitValue(g[2])) == y &&
      Byte2(DigitValue(g[2]), DigitValue(g[3])) == z
  {
    var g := Quad(x, y, z);
    assert DigitValue(g[0]) == x / 4 && DigitValue(g[1]) == (x % 4) * 16 + y / 16;
    assert DigitValue(g[2]) == (y % 16) * 4 + z / 64 && DigitValue(g[3]) == z % 64;
    GroupArithmetic(x, y, z);
  }

  /** The digits of a trailing one or two bytes give those bytes back. */
  lemma ShortBytes(x: Byte, y: Byte)
    ensures var g := Triple(x, y);
      Byte0(DigitValue(g[0]), DigitValue(g[1])) == x &&
      Byte1(DigitValue(g[1]), DigitValue(g[2])) == y
    ensures var g := Pair(x);
      Byte0(DigitValue(g[0]), DigitValue(g[1])) == x
  {
    var g := Triple(x, y);
    assert DigitValue(g[0]) == x / 4 && DigitValue(g[1]) == (x % 4) * 16 + y / 16;
    assert DigitValue(g[2]) == (y % 16) * 4 + 0 / 64;
    var h := Pair(x);
    assert DigitValue(h[0]) == x / 4 && DigitValue(h[1]) == (x % 4) * 16 + 0 / 16;
    GroupArithmetic(x, y, 0);
    GroupArithmetic(x, 0, 0);
  }

  /** The '=' characters that complete the last group of four after `n` bytes. */
  function Padding(n: nat): (pad: string)
    ensures pad == "" || pad == "=" || pad == "=="
  {
    if n >= 3 then Padding(n - 3) else if n == 1 then "==" else if n == 2 then "=" else ""
  }

  /** The number of whole groups of three in `n` bytes. */
  function Groups(n: nat): nat {
    if n >= 3 then 1 + Groups(n - 3) else 0
  }

  /** The digits the trailing one or two bytes of `n` take. */
  function TailDigits(n: nat): (t: nat)
    ensures t == 0 || t == 2 || t == 3
    ensures t + |Padding(n)| == if t == 0 then 0 else 4
  {
    if n >= 3 then TailDigits(n - 3) else if n == 0 then 0 else n + 1
  }

  /** The digits of `Encode(bytes)` once its padding is dropped. */
  function EncodeDigits(bytes: seq<Byte>): (s: string)
    decreases |bytes|
  {
    if |bytes| == 0 then []
    else if |bytes| == 1 then Pair(bytes[0])
    else if |bytes| == 2 then Triple(bytes[0], bytes[1])
    else Quad(bytes[0], bytes[1], bytes[2]) + EncodeDigits(bytes[3..])
  }

  /** The padded base64 text of `bytes` (section 4 of RFC 4648): the digits, then '=' up to a whole group of four. */
  function Encode(bytes: seq<Byte>): string {
    EncodeDigits(bytes) + Padding(|bytes|)
  }

  lemma AllDigitsConcat(a: string, b: string)
    requires AllDigits(a) && AllDigits(b)
    ensures AllDigits(a + b)
  {
    forall i | 0 <= i < |a + b| ensures IsDigit((a + b)[i]) {
      if i >= |a| {
        assert (a + b)[i] == b[i - |a|];
      }
    }
  }

  /** The encoder emits only alphabet characters before the padding. */
  lemma {:induction false} EncodeDigitsAreDigits(bytes: seq<Byte>)
    ensures AllDigits(EncodeDigits(bytes))
    decreases |bytes|
  {
    if |bytes| >= 3 {
      EncodeDigitsAreDigits(bytes[3..]);
      AllDigitsConcat(Quad(bytes[0], bytes[1], bytes[2]), EncodeDigits(bytes[3..]));
    }
  }

  /** Whole groups give four digits each, and a trailing one or two bytes give two or three. */
  lemma {:induction false} EncodeDigitsLength(bytes: seq<Byte>)
    ensures |EncodeDigits(bytes)| == 4 * Groups(|bytes|) + TailDigits(|bytes|)
    decreases |bytes|
  {
    if |bytes| >= 3 {
      EncodeDigitsLength(bytes[3..]);
    }
  }

  lemma GroupsOfFour(g: nat, t: nat)
    requires t < 4
    ensures (4 * g + t) % 4 == t
  {
  }

  /** The length arithmetic of an encoding: `g` whole groups, `t` trailing digits, `p` padding characters. */
  lemma LengthShape(g: nat, t: nat, p: nat)
    requires t == 0 || t == 2 || t == 3
    requires t + p == if t == 0 then 0 else 4
    ensures (4 * g + t) % 4 != 1 && (4 * g + t + p) % 4 == 0
  {
    GroupsOfFour(g, t);
    GroupsOfFour(g + 1, 0);
  }

  /** A leading group of four digits decodes to three bytes ahead of the rest. */
  lemma DecodeLeadingGroup(g: string, rest: string)
    requires |g| == 4 && AllDigits(g) && AllDigits(rest)
    ensures AllDigits(g + rest)
    ensures DecodeDigits(g + rest) ==
      [Byte0(DigitValue(g[0]), DigitValue(g[1])),
       Byte1(DigitValue(g[1]), DigitValue(g[2])),
       Byte2(DigitValue(g[2]), DigitValue(g[3]))] + DecodeDigits(rest)
  {
    AllDigitsConcat(g, rest);
    var e := g + rest;
    assert e[0] == g[0] && e[1] == g[1] && e[2] == g[2] && e[3] == g[3];
    assert e[4..] == rest;
  }

  /** The digits of a trailing one or two bytes decode back to them. */
  lemma ShortGroupsDecode(x: Byte, y: Byte)
    ensures DecodeDigits(Pair(x)) == [x]
    ensures DecodeDigits(Triple(x, y)) == [x, y]
  {
    ShortBytes(x, y);
  }

  /** A group of four digits made from three bytes decodes to them, ahead of what follows. */
  lemma QuadDecodes(x: Byte, y: Byte, z: Byte, rest: string)
    requires AllDigits(rest)
    ensures AllDigits(Quad(x, y, z) + rest)
    ensures DecodeDigits(Quad(x, y, z) + rest) == [x, y, z] + DecodeDigits(rest)
  {
    QuadBytes(x, y, z);
    DecodeLeadingGroup(Quad(x, y, z), rest);
  }

  /** One step of `DecodeEncodeDigits`: digits made of a group for three bytes and digits for the rest decode to all of them. */
  lemma DecodeEncodeStep(bytes: seq<Byte>, digits: string, rest: string)
    requires |bytes| >= 3 && AllDigits(rest) && DecodeDigits(rest) == bytes[3..]
    requires digits == Quad(bytes[0], bytes[1], bytes[2]) + rest
    ensures AllDigits(digits) && DecodeDigits(digits) == bytes
  {
    QuadDecodes(bytes[0], bytes[1], bytes[2], rest);
    assert bytes == [bytes[0], bytes[1], bytes[2]] + bytes[3..];
  }

  /** Digits decode back to the bytes they encode. */
  lemma {:induction false} DecodeEncodeDigits(bytes: seq<Byte>)
    ensures AllDigits(EncodeDigits(bytes))
    ensures DecodeDigits(EncodeDigits(bytes)) == bytes
    decreases |bytes|
  {
    EncodeDigitsAreDigits(bytes);
    if |bytes| == 1 {
      ShortGroupsDecode(bytes[0], 0);
    } else if |bytes| == 2 {
      ShortGroupsDecode(bytes[0], bytes[1]);
    } else if |bytes| >= 3 {
      DecodeEncodeDigits(bytes[3..]);
      DecodeEncodeStep(bytes, EncodeDigits(bytes), EncodeDigits(bytes[3..]));
    }
  }

  lemma DropPaddingOf(digits: string, pad: string)
    requires AllDigits(digits)
    requires pad == "" || pad == "=" || pad == "=="
    requires |digits + pad| % 4 == 0
    ensures DropPadding(digits + pad) == digits
  {
    var e := digits + pad;
    if pad == "==" {
      assert e[..|e| - 2] == digits;
    } else if pad == "=" {
      assert e[|e| - 2] == digits[|digits| - 1];
      assert e[..|e| - 1] == digits;
    } else {
      assert e == digits;
      assert |e| >= 1 ==> IsDigit(e[|e| - 1]);
    }
  }

  lemma NoWhitespaceIn(digits: string, pad: string)
    requires AllDigits(digits)
    requires pad == "" || pad == "=" || pad == "=="
    ensures StripWhitespace(digits + pad) == digits + pad
  {
    var e := digits + pad;
    forall i | 0 <= i < |e| ensures !IsAsciiWhitespace(e[i]) {
      if i < |digits| {
        assert e[i] == digits[i] && IsDigit(digits[i]);
      } else {
        assert e[i] == pad[i - |digits|];
      }
    }
  }

  /** Digits followed by one or two '=' (or none), filling a whole number of groups of four, decode to the digits' bytes. */
  lemma AtobOfPadded(digits: string, pad: string)
    requires AllDigits(digits) && (pad == "" || pad == "=" || pad == "==")
    requires |digits| % 4 != 1 && |digits + pad| % 4 == 0
    ensures Atob(digits + pad) == Some(BinaryString(DecodeDigits(digits)))
  {
    NoWhitespaceIn(digits, pad);
    DropPaddingOf(digits, pad);
    assert Unpadded(digits + pad) == digits;
  }

  /** The digits for `n` bytes never leave a lone digit, and their padding completes a group of four. */
  lemma EncodedLength(n: nat, len: nat)
    requires len == 4 * Groups(n) + TailDigits(n)
    ensures len % 4 != 1 && (len + |Padding(n)|) % 4 == 0
  {
    LengthShape(Groups(n), TailDigits(n), |Padding(n)|);
  }

  /** Digits followed by the padding that completes a group of four decode to the digits' bytes. */
  lemma AtobOfDigits(digits: string, n: nat)
    requires AllDigits(digits) && |digits| == 4 * Groups(n) + TailDigits(n)
    ensures Atob(digits + Padding(n)) == Some(BinaryString(DecodeDigits(digits)))
  {
    EncodedLength(n, |digits|);
    AtobOfPadded(digits, Padding(n));
  }

  /** `atob` inverts the bundler's encoder: the binary string has the asset's bytes as its character codes. */
  lemma AtobEncode(bytes: seq<Byte>)
    ensures Atob(Encode(bytes)) == Some(BinaryString(bytes))
  {
    EncodeDigitsLength(bytes);
    DecodeEncodeDigits(bytes);
    AtobOfDigits(EncodeDigits(bytes), |bytes|);
  }
}
