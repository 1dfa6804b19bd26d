/** `email.ts`: the message that `sendGmailEmail` builds and how it encodes it for the
    `raw` field of the Gmail API: standard base 64 turned into the URL-safe alphabet with the
    padding cut off, which is base64url without padding (section 5 of RFC 4648). */
module Email {
  import opened Text
  import opened Base64

  /** The one content header the message carries. */
  const ContentType := "Content-Type: text/plain; charset=utf-8"

  /** The header lines, an empty line and the body, joined by "\n". */
  function Message(to: string, subject: string, body: string): (m: string)
    ensures m == "To: " + to + "\n" + "Subject: " + subject + "\n"
                 + ContentType + "\n" + "\n" + body
  {
    JoinFive("To: " + to, "Subject: " + subject, ContentType, "", body, "\n");
    Join(["To: " + to, "Subject: " + subject, ContentType, "", body], "\n")
  }

  /** `s.replace(/<from>/g, to)` for a single character. */
  function ReplaceAll(s: string, from: char, to: char): (r: string)
    ensures |r| == |s|
    ensures forall i :: 0 <= i < |s| ==> r[i] == if s[i] == from then to else s[i]
  {
    seq(|s|, i requires 0 <= i < |s| => if s[i] == from then to else s[i])
  }

  /** `s.replace(/<c>+$/, "")`. */
  function StripTrailing(s: string, c: char): (r: string)
    decreases |s|
    ensures r <= s
    ensures r == [] || r[|r| - 1] != c
    ensures forall i :: |r| <= i < |s| ==> s[i] == c
  {
    if s != [] && s[|s| - 1] == c then StripTrailing(s[..|s| - 1], c) else s
  }

  /** The `raw` field for a message. */
  function EncodeRaw(message: string): (raw: string)
    ensures |raw| <= |Encode(Utf8(message))|
    ensures forall i :: 0 <= i < |raw| ==> raw[i] != '+' && raw[i] != '/'
  {
    StripTrailing(ReplaceAll(ReplaceAll(Encode(Utf8(message)), '+', '-'), '/', '_'), '=')
  }

  /** The two replacements translate each character into the URL-safe alphabet. */
  function Translate(s: string): string {
    seq(|s|, i requires 0 <= i < |s| => ToUrlChar(s[i]))
  }

  lemma TranslateIsReplace(s: string)
    ensures Translate(s) == ReplaceAll(ReplaceAll(s, '+', '-'), '/', '_')
  {
  }

  lemma TranslateConcat(a: string, b: string)
    ensures Translate(a + b) == Translate(a) + Translate(b)
  {
  }

  function Padding(n: nat): string {
    if n % 3 == 1 then "==" else if n % 3 == 2 then "=" else ""
  }

  lemma TranslateFour(c0: char, c1: char, c2: char, c3: char)
    ensures Translate([c0, c1, c2, c3]) == [ToUrlChar(c0), ToUrlChar(c1), ToUrlChar(c2), ToUrlChar(c3)]
  {
  }

  lemma TranslateGroup(b0: byte, b1: byte, b2: byte)
    ensures Translate(Group(b0, b1, b2)) == UrlGroup(b0, b1, b2)
  {
    TranslateFour(StdChar(S0(b0)), StdChar(S1(b0, b1)), StdChar(S2(b1, b2)), StdChar(S3(b2)));
    UrlCharIsTranslated(S0(b0));
    UrlCharIsTranslated(S1(b0, b1));
    UrlCharIsTranslated(S2(b1, b2));
    UrlCharIsTranslated(S3(b2));
  }

  /** A final group of one byte translates into its unpadded form and `==`. */
  lemma TranslateOne(b0: byte)
    ensures Translate(Encode([b0])) == EncodeUrlNoPad([b0]) + "=="
  {
    var i0, i1 := S0(b0), S1(b0, 0);
    TranslateFour(StdChar(i0), StdChar(i1), '=', '=');
    UrlCharIsTranslated(i0);
    UrlCharIsTranslated(i1);
  }

  /** A final group of two bytes translates into its unpadded form and `=`. */
  lemma TranslateTwo(b0: byte, b1: byte)
    ensures Translate(Encode([b0, b1])) == EncodeUrlNoPad([b0, b1]) + "="
  {
    var i0, i1, i2 := S0(b0), S1(b0, b1), S2(b1, 0);
    TranslateFour(StdChar(i0), StdChar(i1), StdChar(i2), '=');
    UrlCharIsTranslated(i0);
    UrlCharIsTranslated(i1);
    UrlCharIsTranslated(i2);
  }

  lemma PaddingStep(n: nat)
    requires n >= 3
    ensures Padding(n - 3) == Padding(n)
  {
    assert (n - 3) % 3 == n % 3;
  }

  /** Translating the standard encoding gives the unpadded URL-safe encoding plus the padding. */
  lemma {:induction false} TranslateEncode(b: seq<byte>)
    ensures Translate(Encode(b)) == EncodeUrlNoPad(b) + Padding(|b|)
    decreases |b|
  {
    if |b| == 1 {
      assert b == [b[0]];
      TranslateOne(b[0]);
    } else if |b| == 2 {
      assert b == [b[0], b[1]];
      TranslateTwo(b[0], b[1]);
    } else if |b| >= 3 {
      var g, rest := Group(b[0], b[1], b[2]), b[3..];
      assert Encode(b) == g + Encode(rest);
      assert EncodeUrlNoPad(b) == UrlGroup(b[0], b[1], b[2]) + EncodeUrlNoPad(rest);
      TranslateConcat(g, Encode(rest));
      TranslateGroup(b[0], b[1], b[2]);
      TranslateEncode(rest);
      var u, e, pad := UrlGroup(b[0], b[1], b[2]), EncodeUrlNoPad(rest), Padding(|b|);
      PaddingStep(|b|);
      assert Translate(Encode(b)) == u + (e + pad);
      assert u + (e + pad) == (u + e) + pad;
    }
  }

  /** No character of the unpadded URL-safe encoding is `=`. */
  lemma {:induction false} UrlNoPadHasNoEquals(b: seq<byte>)
    ensures forall i :: 0 <= i < |EncodeUrlNoPad(b)| ==> EncodeUrlNoPad(b)[i] != '='
    decreases |b|
  {
    if |b| == 1 {
      UrlCharIsTranslated(S0(b[0]));
      UrlCharIsTranslated(S1(b[0], 0));
    } else if |b| == 2 {
      UrlCharIsTranslated(S0(b[0]));
      UrlCharIsTranslated(S1(b[0], b[1]));
      UrlCharIsTranslated(S2(b[1], 0));
    } else if |b| >= 3 {
      UrlCharIsTranslated(S0(b[0]));
      UrlCharIsTranslated(S1(b[0], b[1]));
      UrlCharIsTranslated(S2(b[1], b[2]));
      UrlCharIsTranslated(S3(b[2]));
      UrlNoPadHasNoEquals(b[3..]);
    }
  }

  /** Cutting a run of `c` off a text that does not end in `c` leaves the text. */
  lemma StripPadding(x: string, c: char, k: nat)
    requires x == [] || x[|x| - 1] != c
    ensures StripTrailing(x + seq(k, _ => c), c) == x
    decreases k
  {
    if k > 0 {
      assert (x + seq(k, _ => c))[..|x| + k - 1] == x + seq(k - 1, _ => c);
      StripPadding(x, c, k - 1);
    } else {
      assert x + seq(0, _ => c) == x;
    }
  }

  /** The `raw` field is the base64url encoding, without padding, of the message's UTF-8 bytes. */
  lemma EncodeRawIsUrlNoPad(message: string)
    ensures EncodeRaw(message) == EncodeUrlNoPad(Utf8(message))
  {
    var b := Utf8(message);
    TranslateIsReplace(Encode(b));
    TranslateEncode(b);
    UrlNoPadHasNoEquals(b);
    var x := EncodeUrlNoPad(b);
    var k := if |b| % 3 == 1 then 2 else if |b| % 3 == 2 then 1 else 0;
    assert Padding(|b|) == seq(k, _ => '=');
    StripPadding(x, '=', k);
  }

  /** The `raw` field holds only URL-safe characters and never ends in `=`. */
  lemma EncodeRawAlphabet(message: string)
    ensures var raw := EncodeRaw(message);
            forall i :: 0 <= i < |raw| ==> raw[i] != '+' && raw[i] != '/' && raw[i] != '='
  {
    var raw := EncodeRaw(message);
    var s := Encode(Utf8(message));
    var t := ReplaceAll(ReplaceAll(s, '+', '-'), '/', '_');
    assert raw <= t;
    EncodeRawIsUrlNoPad(message);
    UrlNoPadHasNoEquals(Utf8(message));
  }

  /** No two consecutive line feeds: the text holds no empty line. */
  predicate NoBlankLine(s: string) {
    forall i :: 0 <= i < |s| - 1 ==> !(s[i] == '\n' && s[i + 1] == '\n')
  }

  lemma BlankLineConcat(a: string, b: string)
    requires NoBlankLine(a) && NoBlankLine(b)
    requires a == [] || b == [] || a[|a| - 1] != '\n' || b[0] != '\n'
    ensures NoBlankLine(a + b)
  {
    var ab := a + b;
    forall i | 0 <= i < |ab| - 1 ensures !(ab[i] == '\n' && ab[i + 1] == '\n') {
      if i < |a| - 1 {
        assert ab[i] == a[i] && ab[i + 1] == a[i + 1];
      } else if i >= |a| {
        assert ab[i] == b[i - |a|] && ab[i + 1] == b[i - |a| + 1];
      }
    }
  }

  /** The header lines, each ended by its line feed. */
  function Header(to: string, subject: string): string {
    "To: " + to + "\n" + "Subject: " + subject + "\n" + ContentType + "\n"
  }

  /** A line of text that holds no line feed, followed by one. */
  lemma LineNoBlank(prefix: string, line: string)
    requires NoBlankLine(prefix) && (prefix == [] || prefix[|prefix| - 1] == '\n')
    requires line != [] && '\n' !in line
    ensures NoBlankLine(prefix + line + "\n")
  {
    assert NoBlankLine(line);
    BlankLineConcat(prefix, line);
    assert (prefix + line)[|prefix + line| - 1] == line[|line| - 1];
    BlankLineConcat(prefix + line, "\n");
  }

  lemma ContentTypeOneLine()
    ensures ContentType != [] && '\n' !in ContentType
  {
  }

  /** The header lines of a one-line recipient and subject hold no empty line. */
  lemma HeaderNoBlank(to: string, subject: string)
    requires '\n' !in to && '\n' !in subject
    ensures NoBlankLine(Header(to, subject))
  {
    var a, b, c := "To: " + to, "Subject: " + subject, ContentType;
    assert '\n' !in a && '\n' !in b;
    ContentTypeOneLine();
    LineNoBlank([], a);
    assert [] + a + "\n" == a + "\n";
    LineNoBlank(a + "\n", b);
    LineNoBlank(a + "\n" + b + "\n", c);
    assert Header(to, subject) == a + "\n" + b + "\n" + c + "\n";
  }

  /** With a one-line recipient and subject, the message is the header lines, an empty line
      and the body, and the header lines hold no empty line: the body starts right after the
      first one. */
  lemma BodyAfterHeaders(to: string, subject: string, body: string)
    requires '\n' !in to && '\n' !in subject
    ensures Message(to, subject, body) == Header(to, subject) + "\n" + body
    ensures NoBlankLine(Header(to, subject))
    ensures Header(to, subject)[|Header(to, subject)| - 1] == '\n'
  {
    HeaderNoBlank(to, subject);
  }
}
