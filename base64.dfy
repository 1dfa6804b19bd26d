/** Base 64 as RFC 4648 defines it, and the UTF-8 bytes of a string.
    `Encode` stands for Node's `Buffer.from(s).toString("base64")`: the RFC 4648 section 4 alphabet with
    `=` padding. `EncodeUrlNoPad` is the RFC 4648 section 5 ("URL and filename safe") alphabet without
    padding, defined on its own so that the e-mail encoder can be compared against it. */
module Base64 {
  import opened Wrappers

  newtype byte = x: int | 0 <= x < 256

  /** A base 64 digit: the value of one character. */
  type sextet = x: int | 0 <= x < 64

  // ---------------------------------------------------------------------------
  // Alphabets

  /** Table 1 of RFC 4648: the value `i` as a base 64 character. */
  function StdChar(i: sextet): char {
    if i < 26 then ('A' as int + i) as char
    else if i < 52 then ('a' as int + i - 26) as char
    else if i < 62 then ('0' as int + i - 52) as char
    else if i == 62 then '+'
    else '/'
  }

  /** Table 2 of RFC 4648: the URL and filename safe alphabet, which differs in 62 and 63 only. */
  function UrlChar(i: sextet): char {
    if i == 62 then '-' else if i == 63 then '_' else StdChar(i)
  }

  /** The value of a character of Table 1, if it is one. */
  function StdIndex(c: char): Option<sextet> {
    if 'A' <= c <= 'Z' then Some(c as int - 'A' as int)
    else if 'a' <= c <= 'z' then Some(c as int - 'a' as int + 26)
    else if '0' <= c <= '9' then Some(c as int - '0' as int + 52)
    else if c == '+' then Some(62)
    else if c == '/' then Some(63)
    else None
  }

  predicate InStdAlphabet(c: char) {
    StdIndex(c).Some?
  }

  /** Section 5 of RFC 4648 as a character translation: `+` becomes `-`, `/` becomes `_`. */
  function ToUrlChar(c: char): char {
    if c == '+' then '-' else if c == '/' then '_' else c
  }

  // ---------------------------------------------------------------------------
  // The bit arithmetic of one group: 3 bytes (24 bits) are 4 sextets, most significant first.

  function S0(b0: byte): sextet { b0 as int / 4 }
  function S1(b0: byte, b1: byte): sextet { (b0 as int % 4) * 16 + b1 as int / 16 }
  function S2(b1: byte, b2: byte): sextet { (b1 as int % 16) * 4 + b2 as int / 64 }
  function S3(b2: byte): sextet { b2 as int % 64 }

  function B0(i0: sextet, i1: sextet): byte { (i0 * 4 + i1 / 16) as byte }
  function B1(i1: sextet, i2: sextet): byte { ((i1 % 16) * 16 + i2 / 4) as byte }
  function B2(i2: sextet, i3: sextet): byte { ((i2 % 4) * 64 + i3) as byte }

  // ---------------------------------------------------------------------------
  // Encoding and decoding

  /** Three bytes as four characters of Table 1. */
  function Group(b0: byte, b1: byte, b2: byte): string {
    [StdChar(S0(b0)), StdChar(S1(b0, b1)), StdChar(S2(b1, b2)), StdChar(S3(b2))]
  }

  /** Three bytes as four characters of Table 2. */
  function UrlGroup(b0: byte, b1: byte, b2: byte): string {
    [UrlChar(S0(b0)), UrlChar(S1(b0, b1)), UrlChar(S2(b1, b2)), UrlChar(S3(b2))]
  }

  /** Section 4 of RFC 4648: every 3 bytes become 4 characters; a final group of 1 or 2 bytes
      is completed with `==` or `=`. */
  function Encode(b: seq<byte>): string
    decreases |b|
  {
    if |b| == 0 then ""
    else if |b| == 1 then [StdChar(S0(b[0])), StdChar(S1(b[0], 0)), '=', '=']
    else if |b| == 2 then [StdChar(S0(b[0])), StdChar(S1(b[0], b[1])), StdChar(S2(b[1], 0)), '=']
    else
      Group(b[0], b[1], b[2]) + Encode(b[3..])
  }

  /** Section 5 of RFC 4648 with the padding left off, as section 3.2 permits. */
  function EncodeUrlNoPad(b: seq<byte>): string
    decreases |b|
  {
    if |b| == 0 then ""
    else if |b| == 1 then [UrlChar(S0(b[0])), UrlChar(S1(b[0], 0))]
    else if |b| == 2 then [UrlChar(S0(b[0])), UrlChar(S1(b[0], b[1])), UrlChar(S2(b[1], 0))]
    else
      UrlGroup(b[0], b[1], b[2]) + EncodeUrlNoPad(b[3..])
  }

  /** Four alphabet characters as three bytes. */
  function DecodeFull(c0: char, c1: char, c2: char, c3: char): Option<seq<byte>> {
    var x0, x1, x2, x3 := StdIndex(c0), StdIndex(c1), StdIndex(c2), StdIndex(c3);
    if x0.None? || x1.None? || x2.None? || x3.None? then None
    else Some([B0(x0.value, x1.value), B1(x1.value, x2.value), B2(x2.value, x3.value)])
  }

  /** The last group, which may end in `==` (one byte) or `=` (two bytes); the bits the
      padding leaves unused must be zero. */
  function DecodeLast(c0: char, c1: char, c2: char, c3: char): Option<seq<byte>> {
    var x0, x1, x2 := StdIndex(c0), StdIndex(c1), StdIndex(c2);
    if c2 == '=' && c3 == '=' then
      if x0.Some? && x1.Some? && x1.value % 16 == 0 then Some([B0(x0.value, x1.value)]) else None
    else if c3 == '=' then
      if x0.Some? && x1.Some? && x2.Some? && x2.value % 4 == 0
      then Some([B0(x0.value, x1.value), B1(x1.value, x2.value)]) else None
    else DecodeFull(c0, c1, c2, c3)
  }

  /** The bytes an RFC 4648 section 4 string stands for; None unless the string is canonical (length a
      multiple of 4, padding only in the last group, unused bits zero, as RFC 4648 section 3.5 asks). */
  function Decode(s: string): Option<seq<byte>>
    decreases |s|
  {
    if s == [] then Some([])
    else if |s| < 4 then None
    else if |s| == 4 then DecodeLast(s[0], s[1], s[2], s[3])
    else
      match DecodeFull(s[0], s[1], s[2], s[3])
      case None => None
      case Some(g) =>
        match Decode(s[4..])
        case None => None
        case Some(rest) => Some(g + rest)
  }

  /** The UTF-8 encoding of one Unicode scalar value (RFC 3629, section 3). */
  function Utf8Char(c: char): (r: seq<byte>)
    ensures 1 <= |r| <= 4
  {
    var n := c as int;
    if n < 0x80 then [n as byte]
    else if n < 0x800 then [(0xC0 + n / 64) as byte, (0x80 + n % 64) as byte]
    else if n < 0x10000 then
      [(0xE0 + n / 4096) as byte, (0x80 + (n / 64) % 64) as byte, (0x80 + n % 64) as byte]
    else
      [(0xF0 + n / 262144) as byte, (0x80 + (n / 4096) % 64) as byte,
       (0x80 + (n / 64) % 64) as byte, (0x80 + n % 64) as byte]
  }

  /** `Buffer.from(s)`: the UTF-8 bytes of a string. */
  function Utf8(s: string): (r: seq<byte>)
    decreases |s|
    ensures |s| <= |r| <= 4 * |s|
  {
    if s == [] then [] else Utf8Char(s[0]) + Utf8(s[1..])
  }

  // ---------------------------------------------------------------------------
  // Character and group lemmas

  lemma StdIndexOfChar(i: sextet)
    ensures StdIndex(StdChar(i)) == Some(i)
  {
  }

  lemma StdCharOfIndex(c: char)
    requires StdIndex(c).Some?
    ensures StdChar(StdIndex(c).value) == c
  {
  }

  lemma UrlCharIsTranslated(i: sextet)
    ensures ToUrlChar(StdChar(i)) == UrlChar(i)
    ensures UrlChar(i) != '='
  {
  }

  lemma GroupRoundTrip(b0: byte, b1: byte, b2: byte)
    ensures B0(S0(b0), S1(b0, b1)) == b0
    ensures B1(S1(b0, b1), S2(b1, b2)) == b1
    ensures B2(S2(b1, b2), S3(b2)) == b2
    ensures S1(b0, 0) % 16 == 0 && S2(b1, 0) % 4 == 0
  {
    var x0, x1, x2 := b0 as int, b1 as int, b2 as int;
    // The second sextet carries the low two bits of b0 over the high four bits of b1.
    assert S1(b0, b1) / 16 == x0 % 4 && S1(b0, b1) % 16 == x1 / 16;
    assert (x0 / 4) * 4 + x0 % 4 == x0;
    // The third carries the low four bits of b1 over the high two bits of b2.
    assert S2(b1, b2) / 4 == x1 % 16 && S2(b1, b2) % 4 == x2 / 64;
    assert (x1 / 16) * 16 + x1 % 16 == x1;
    assert (x2 / 64) * 64 + x2 % 64 == x2;
    assert S1(b0, 0) == (x0 % 4) * 16 && S2(b1, 0) == (x1 % 16) * 4;
  }

  lemma SextetsRoundTrip(i0: sextet, i1: sextet, i2: sextet, i3: sextet)
    ensures S0(B0(i0, i1)) == i0 && S1(B0(i0, i1), B1(i1, i2)) == i1
    ensures S2(B1(i1, i2), B2(i2, i3)) == i2 && S3(B2(i2, i3)) == i3
    ensures i1 % 16 == 0 ==> S1(B0(i0, i1), 0) == i1
    ensures i2 % 4 == 0 ==> S2(B1(i1, i2), 0) == i2
  {
  }

  // ---------------------------------------------------------------------------
  // Properties of the encoder

  /** Every 3 bytes, and every started group of 3, take 4 characters. */
  lemma {:induction false} EncodeLength(b: seq<byte>)
    ensures |Encode(b)| == 4 * ((|b| + 2) / 3)
    decreases |b|
  {
    if |b| >= 3 {
      EncodeLength(b[3..]);
      assert |Encode(b)| == 4 + |Encode(b[3..])|;
      assert (|b| + 2) / 3 == 1 + (|b[3..]| + 2) / 3;
    }
  }

  /** How many `=` end the encoding of n bytes. */
  function PadCount(n: nat): nat {
    if n % 3 == 1 then 2 else if n % 3 == 2 then 1 else 0
  }

  lemma PadCountStep(n: nat)
    requires n >= 3
    ensures PadCount(n - 3) == PadCount(n)
  {
    assert (n - 3) % 3 == n % 3;
  }

  lemma GroupInAlphabet(b0: byte, b1: byte, b2: byte)
    ensures forall k :: 0 <= k < 4 ==> InStdAlphabet(Group(b0, b1, b2)[k])
  {
    StdIndexOfChar(S0(b0));
    StdIndexOfChar(S1(b0, b1));
    StdIndexOfChar(S2(b1, b2));
    StdIndexOfChar(S3(b2));
  }

  /** The output is made of alphabet characters followed by at most two `=`, and the padding
      is exactly what the length of the input leaves over. */
  lemma {:induction false} EncodeShape(b: seq<byte>)
    ensures var s := Encode(b);
            && |s| == 4 * ((|b| + 2) / 3)
            && (forall k :: 0 <= k < |s| - PadCount(|b|) ==> InStdAlphabet(s[k]))
            && (forall k :: |s| - PadCount(|b|) <= k < |s| ==> s[k] == '=')
    decreases |b|
  {
    EncodeLength(b);
    if |b| >= 3 {
      var g, e := Group(b[0], b[1], b[2]), Encode(b[3..]);
      assert Encode(b) == g + e;
      EncodeShape(b[3..]);
      GroupInAlphabet(b[0], b[1], b[2]);
      PadCountStep(|b|);
      var s, pad := g + e, PadCount(|b|);
      forall k | 0 <= k < |s| - pad ensures InStdAlphabet(s[k]) {
        if k >= 4 {
          assert s[k] == e[k - 4];
        }
      }
      forall k | |s| - pad <= k < |s| ensures s[k] == '=' {
        assert s[k] == e[k - 4];
      }
    } else if |b| == 2 {
      StdIndexOfChar(S0(b[0]));
      StdIndexOfChar(S1(b[0], b[1]));
      StdIndexOfChar(S2(b[1], 0));
    } else if |b| == 1 {
      StdIndexOfChar(S0(b[0]));
      StdIndexOfChar(S1(b[0], 0));
    }
  }

  lemma GroupDecodes(b0: byte, b1: byte, b2: byte)
    ensures DecodeFull(StdChar(S0(b0)), StdChar(S1(b0, b1)), StdChar(S2(b1, b2)), StdChar(S3(b2)))
            == Some([b0, b1, b2])
  {
    GroupRoundTrip(b0, b1, b2);
    StdIndexOfChar(S0(b0));
    StdIndexOfChar(S1(b0, b1));
    StdIndexOfChar(S2(b1, b2));
    StdIndexOfChar(S3(b2));
  }

  lemma OneByteDecodes(b0: byte)
    ensures DecodeLast(StdChar(S0(b0)), StdChar(S1(b0, 0)), '=', '=') == Some([b0])
  {
    GroupRoundTrip(b0, 0, 0);
    LastOfOneDecodes(S0(b0), S1(b0, 0));
  }

  lemma LastOfOneDecodes(i0: sextet, i1: sextet)
    requires i1 % 16 == 0
    ensures DecodeLast(StdChar(i0), StdChar(i1), '=', '=') == Some([B0(i0, i1)])
  {
    StdIndexOfChar(i0);
    StdIndexOfChar(i1);
  }

  lemma TwoBytesDecode(b0: byte, b1: byte)
    ensures DecodeLast(StdChar(S0(b0)), StdChar(S1(b0, b1)), StdChar(S2(b1, 0)), '=') == Some([b0, b1])
  {
    GroupRoundTrip(b0, b1, 0);
    StdIndexOfChar(S0(b0));
    StdIndexOfChar(S1(b0, b1));
    StdIndexOfChar(S2(b1, 0));
    UrlCharIsTranslated(S2(b1, 0));
  }

  lemma ThreeBytesDecode(b0: byte, b1: byte, b2: byte)
    ensures DecodeLast(StdChar(S0(b0)), StdChar(S1(b0, b1)), StdChar(S2(b1, b2)), StdChar(S3(b2)))
            == Some([b0, b1, b2])
  {
    GroupDecodes(b0, b1, b2);
    UrlCharIsTranslated(S2(b1, b2));
    UrlCharIsTranslated(S3(b2));
  }

  lemma TailDecodes(b: seq<byte>)
    requires 1 <= |b| <= 3
    ensures var e := Encode(b); |e| == 4 && DecodeLast(e[0], e[1], e[2], e[3]) == Some(b)
  {
    if |b| == 1 {
      OneByteDecodes(b[0]);
      assert b == [b[0]];
    } else if |b| == 2 {
      TwoBytesDecode(b[0], b[1]);
      assert b == [b[0], b[1]];
    } else {
      ThreeBytesDecode(b[0], b[1], b[2]);
      assert b[3..] == [];
      assert b == [b[0], b[1], b[2]];
    }
  }

  /** Encoding works group by group. */
  lemma EncodeAppendGroup(g: seq<byte>, rest: seq<byte>)
    requires |g| == 3
    ensures Encode(g + rest) == Encode(g) + Encode(rest)
  {
    var b := g + rest;
    assert b[3..] == rest && b[0] == g[0] && b[1] == g[1] && b[2] == g[2];
    assert Encode(b) == Group(g[0], g[1], g[2]) + Encode(rest);
    assert g[3..] == [];
    assert Encode(g) == Group(g[0], g[1], g[2]) + Encode([]);
  }

  /** Decoding undoes encoding. */
  lemma {:induction false} DecodeEncode(b: seq<byte>)
    ensures Decode(Encode(b)) == Some(b)
    decreases |b|
  {
    if 1 <= |b| <= 3 {
      TailDecodes(b);
    } else if |b| > 3 {
      GroupDecodes(b[0], b[1], b[2]);
      DecodeEncode(b[3..]);
      var s := Encode(b);
      EncodeLength(b[3..]);
      assert s[4..] == Encode(b[3..]);
      assert [b[0], b[1], b[2]] + b[3..] == b;
    }
  }

  lemma FullEncodes(c0: char, c1: char, c2: char, c3: char)
    requires DecodeFull(c0, c1, c2, c3).Some?
    ensures var g := DecodeFull(c0, c1, c2, c3).value; |g| == 3 && Encode(g) == [c0, c1, c2, c3]
  {
    var i0, i1, i2, i3 := StdIndex(c0).value, StdIndex(c1).value, StdIndex(c2).value, StdIndex(c3).value;
    StdCharOfIndex(c0);
    StdCharOfIndex(c1);
    StdCharOfIndex(c2);
    StdCharOfIndex(c3);
    SextetsRoundTrip(i0, i1, i2, i3);
    var g := DecodeFull(c0, c1, c2, c3).value;
    assert g[3..] == [];
  }

  lemma LastEncodes(c0: char, c1: char, c2: char, c3: char)
    requires DecodeLast(c0, c1, c2, c3).Some?
    ensures Encode(DecodeLast(c0, c1, c2, c3).value) == [c0, c1, c2, c3]
  {
    if c2 == '=' && c3 == '=' {
      StdCharOfIndex(c0);
      StdCharOfIndex(c1);
      SextetsRoundTrip(StdIndex(c0).value, StdIndex(c1).value, 0, 0);
    } else if c3 == '=' {
      StdCharOfIndex(c0);
      StdCharOfIndex(c1);
      StdCharOfIndex(c2);
      SextetsRoundTrip(StdIndex(c0).value, StdIndex(c1).value, StdIndex(c2).value, 0);
    } else {
      FullEncodes(c0, c1, c2, c3);
    }
  }

  lemma DecodeStep(s: string)
    requires |s| > 4 && Decode(s).Some?
    ensures DecodeFull(s[0], s[1], s[2], s[3]).Some? && Decode(s[4..]).Some?
    ensures Decode(s).value == DecodeFull(s[0], s[1], s[2], s[3]).value + Decode(s[4..]).value
  {
  }

  lemma LastGroupEncodes(s: string)
    requires |s| == 4 && Decode(s).Some?
    ensures Encode(Decode(s).value) == s
  {
    assert Decode(s) == DecodeLast(s[0], s[1], s[2], s[3]);
    LastEncodes(s[0], s[1], s[2], s[3]);
    assert s == [s[0], s[1], s[2], s[3]];
  }

  /** Encoding undoes decoding: a canonical string is the encoding of the bytes it decodes to. */
  lemma {:induction false} EncodeDecode(s: string)
    requires Decode(s).Some?
    ensures Encode(Decode(s).value) == s
    decreases |s|
  {
    if |s| == 4 {
      LastGroupEncodes(s);
    } else if |s| > 4 {
      DecodeStep(s);
      var g := DecodeFull(s[0], s[1], s[2], s[3]).value;
      var rest := Decode(s[4..]).value;
      calc {
        Encode(Decode(s).value);
        Encode(g + rest);
        { EncodeAppendGroup(g, rest); }
        Encode(g) + Encode(rest);
        { FullEncodes(s[0], s[1], s[2], s[3]); EncodeDecode(s[4..]); }
        [s[0], s[1], s[2], s[3]] + s[4..];
        s;
      }
    }
  }

  /** A string decodes to `b` exactly when it is the encoding of `b`; in particular no two
      byte strings share an encoding. */
  lemma DecodeIff(s: string, b: seq<byte>)
    ensures Decode(s) == Some(b) <==> s == Encode(b)
  {
    if Decode(s) == Some(b) {
      EncodeDecode(s);
    }
    if s == Encode(b) {
      DecodeEncode(b);
    }
  }

  /** ASCII text is its own UTF-8 encoding, one byte per character. */
  lemma {:induction false} Utf8Ascii(s: string)
    requires forall k :: 0 <= k < |s| ==> s[k] as int < 0x80
    ensures |Utf8(s)| == |s|
    ensures forall k :: 0 <= k < |s| ==> Utf8(s)[k] as int == s[k] as int
    decreases |s|
  {
    if s != [] {
      Utf8Ascii(s[1..]);
    }
  }
}
