/**
 * encodeURIComponent as ECMA-262 defines it: every character outside the
 * unreserved set A-Z a-z 0-9 - _ . ! ~ * ' ( ) becomes the %XX escapes of
 * its UTF-8 bytes, with upper-case hexadecimal digits. Dafny characters are
 * Unicode scalar values, so the lone-surrogate URIError cannot arise.
 */
module UriEncoding {

  /** A byte, as the encoder emits it. */
  type Byte = b: nat | b < 256

  /** The characters encodeURIComponent leaves as they are. */
  predicate Unreserved(c: char) {
    || 'A' <= c <= 'Z'
    || 'a' <= c <= 'z'
    || '0' <= c <= '9'
    || c in "-_.!~*'()"
  }

  const HexDigits: string := "0123456789ABCDEF"

  predicate IsHexDigit(c: char) {
    c in HexDigits
  }

  /** The characters an encoded string can contain. */
  predicate EncodedChar(c: char) {
    Unreserved(c) || c == '%' || IsHexDigit(c)
  }

  /** The UTF-8 encoding of one Unicode scalar value. */
  function Utf8(c: char): (bytes: seq<Byte>)
    ensures 1 <= |bytes| <= 4
  {
    var n := c as int;
    if n < 0x80 then [n]
    else if n < 0x800 then [0xC0 + n / 64, 0x80 + n % 64]
    else if n < 0x1_0000 then [0xE0 + n / 4096, 0x80 + (n / 64) % 64, 0x80 + n % 64]
    else [0xF0 + n / 262144, 0x80 + (n / 4096) % 64, 0x80 + (n / 64) % 64, 0x80 + n % 64]
  }

  /** One byte as a %XX escape. */
  function Escape(b: Byte): (e: string)
    ensures |e| == 3 && e[0] == '%' && IsHexDigit(e[1]) && IsHexDigit(e[2])
  {
    ['%', HexDigits[b / 16], HexDigits[b % 16]]
  }

  function EscapeAll(bytes: seq<Byte>): (e: string)
    ensures |e| == 3 * |bytes|
    ensures forall k :: 0 <= k < |e| ==> EncodedChar(e[k])
  {
    if |bytes| == 0 then [] else Escape(bytes[0]) + EscapeAll(bytes[1..])
  }

  function EncodeChar(c: char): (e: string)
    ensures forall k :: 0 <= k < |e| ==> EncodedChar(e[k])
  {
    if Unreserved(c) then [c] else EscapeAll(Utf8(c))
  }

  /** encodeURIComponent */
  function EncodeUriComponent(s: string): (e: string)
    ensures forall k :: 0 <= k < |e| ==> EncodedChar(e[k])
    ensures (forall k :: 0 <= k < |s| ==> Unreserved(s[k])) ==> e == s
  {
    if |s| == 0 then [] else EncodeChar(s[0]) + EncodeUriComponent(s[1..])
  }

  /** Encoding works character by character, so it distributes over concatenation. */
  lemma {:induction false} EncodeConcat(a: string, b: string)
    ensures EncodeUriComponent(a + b) == EncodeUriComponent(a) + EncodeUriComponent(b)
    decreases |a|
  {
    if |a| == 0 {
      assert a + b == b;
    } else {
      assert (a + b)[0] == a[0];
      assert (a + b)[1..] == a[1..] + b;
      EncodeConcat(a[1..], b);
      calc {
        EncodeUriComponent(a + b);
        EncodeChar(a[0]) + EncodeUriComponent(a[1..] + b);
        EncodeChar(a[0]) + (EncodeUriComponent(a[1..]) + EncodeUriComponent(b));
        (EncodeChar(a[0]) + EncodeUriComponent(a[1..])) + EncodeUriComponent(b);
        EncodeUriComponent(a) + EncodeUriComponent(b);
      }
    }
  }

  /** The path separator is escaped: '/' becomes %2F. */
  lemma EncodeSlash()
    ensures EncodeUriComponent("/") == "%2F"
  {
    assert Utf8('/') == [47];
    assert Escape(47) == "%2F";
    assert EscapeAll([47]) == "%2F" + EscapeAll([]);
  }

  /** An encoded string holds neither a slash nor a question mark, so it stays within one path segment. */
  lemma EncodedIsOneSegment(s: string)
    ensures '/' !in EncodeUriComponent(s) && '?' !in EncodeUriComponent(s)
  {
    var e := EncodeUriComponent(s);
    forall k | 0 <= k < |e|
      ensures e[k] != '/' && e[k] != '?'
    {
      EncodedCharIsNotSeparator(e[k]);
    }
  }

  /** Neither separator is an unreserved character, a hexadecimal digit or '%'. */
  lemma EncodedCharIsNotSeparator(c: char)
    requires EncodedChar(c)
    ensures c != '/' && c != '?'
  {
    assert '/' !in "-_.!~*'()" && '?' !in "-_.!~*'()";
    assert '/' !in HexDigits && '?' !in HexDigits;
  }

  /** Two texts joined by a slash encode as their encodings joined by %2F. */
  lemma EncodeSeparated(x: string, y: string)
    ensures EncodeUriComponent(x + "/" + y) == EncodeUriComponent(x) + "%2F" + EncodeUriComponent(y)
  {
    EncodeSlash();
    EncodeConcat(x, "/");
    EncodeConcat(x + "/", y);
  }
}
