/** The characters and words of http/parse.go by their ASCII text, the token
    characters by section 5.6.2 of RFC 9110, white space by its code points. */
module HttpText {
  import opened Seq32
  import opened Wire
  import opened HttpModel

  const UPPER := "ABCDEFGHIJKLMNOPQRSTUVWXYZ"
  const LOWER := "abcdefghijklmnopqrstuvwxyz"
  const DELIMITERS := "\"(),/:;<=>?@[\\]{}"

  function Ascii(s: string): Bytes
    requires forall i :: 0 <= i < |s| ==> s[i] as int < 128
  {
    seq(|s|, i requires 0 <= i < |s| => s[i] as int)
  }

  /** The words of the reader. */
  lemma Words()
    ensures HTTP_PREFIX == Ascii("HTTP/") && HTTP_1_1 == Ascii("HTTP/1.1")
    ensures HOST == Ascii("host") && CONTENT_LENGTH == Ascii("content-length")
    ensures POST == Ascii("POST") && PUT == Ascii("PUT") && PATCH == Ascii("PATCH")
    ensures COMMA_SPACE == Ascii(", ") && [CR, LF, SP, TAB, COLON, SLASH] == Ascii("\r\n \t:/")
  {
  }

  /** Lower case: each capital becomes its small letter, nothing else changes. */
  lemma LowerLetters(c: byte)
    ensures forall i :: 0 <= i < 26 ==> LowerChar(UPPER[i] as int) == LOWER[i] as int
    ensures c as char !in UPPER ==> LowerChar(c) == c
  {
    var i := c - 65;
    assert 0 <= i < 26 ==> UPPER[i] == c as char;
  }

  /** A token is a nonempty string of visible characters without delimiters. */
  lemma TokenIff(s: Bytes)
    ensures IsToken(s) <==>
      s != [] && forall i :: 0 <= i < |s| ==> 33 <= s[i] <= 126 && s[i] as char !in DELIMITERS
  {
    hide IsTokenChar;
    forall i | 0 <= i < |s| ensures IsTokenChar(s[i]) <==> 33 <= s[i] <= 126 && s[i] as char !in DELIMITERS {
      TokenCharIff(s[i]);
    }
  }

  lemma TokenCharIff(c: byte)
    ensures IsTokenChar(c) <==> 33 <= c <= 126 && c as char !in DELIMITERS
  {
  }

  /** What is trimmed off a field value is spaces and tabs. */
  lemma OwsIff(c: byte)
    ensures IsOws(c) <==> c as char in " \t"
  {
  }

  /** The UTF-8 encoding of a character of the basic plane. */
  function Utf8(c: nat): Bytes
    requires c < 0x10000
  {
    if c < 0x80 then [c]
    else if c < 0x800 then [0xC0 + c / 64, 0x80 + c % 64]
    else [0xE0 + c / 4096, 0x80 + c / 64 % 64, 0x80 + c % 64]
  }

  /** The characters with Unicode's White_Space property. */
  predicate WhiteSpace(c: nat) {
    || 0x09 <= c <= 0x0D || c in {0x20, 0x85, 0xA0, 0x1680, 0x2028, 0x2029, 0x202F, 0x205F, 0x3000}
    || 0x2000 <= c <= 0x200A
  }

  ghost predicate EncodesSpace(s: Bytes) {
    exists c: nat :: c < 0x10000 && WhiteSpace(c) && s == Utf8(c)
  }

  /** What the reader trims off a Content-Length: encodings of white space, all of them. */
  lemma SpaceIff(s: Bytes)
    ensures IsSpace(s) <==> EncodesSpace(s)
  {
    if IsSpace(s) {
      SpaceCode(s);
    }
    if EncodesSpace(s) {
      var c: nat :| c < 0x10000 && WhiteSpace(c) && s == Utf8(c);
      CodeSpace(c);
    }
  }

  lemma SpaceCode(s: Bytes)
    requires IsSpace(s)
    ensures EncodesSpace(s)
  {
    var a: int, n := s[0], |s|;
    var low: int := if n == 1 then 0 else s[n - 1] - 0x80;
    var mid: int := if n == 3 then s[1] - 0x80 else 0;
    var c := if n == 1 then a else if n == 2 then (a - 0xC0) * 64 + low else (a - 0xE0) * 4096 + mid * 64 + low;
    assert WhiteSpace(c) && s == Utf8(c);
  }

  lemma CodeSpace(c: nat)
    requires c < 0x10000 && WhiteSpace(c)
    ensures IsSpace(Utf8(c))
  {
  }
}
