/**
 * URL encoding and decoding (tsk_url.c): percent-encoding of section 2.1
 * of RFC 3986 over the unreserved set of its section 2.3, with a space
 * written as '+' as HTML form encoding does.
 *
 * A C string is the sequence of its characters before the terminating NUL,
 * so no input contains '\0'. The encoder is modelled on ASCII input.
 */
module Url {

  /** isalnum over ASCII, or one of '-', '_', '.', '~': copied as it is. */
  predicate IsUnreserved(c: char) {
    ('a' <= c <= 'z') || ('A' <= c <= 'Z') || ('0' <= c <= '9') ||
    c == '-' || c == '_' || c == '.' || c == '~'
  }

  /** tsk_b10tob16: the hexadecimal digit of a nibble. */
  function HexDigit(n: nat): (c: char)
    requires n < 16
    ensures ('0' <= c <= '9') || ('a' <= c <= 'f')
  {
    if n < 10 then (('0' as int) + n) as char else (('a' as int) + n - 10) as char
  }

  /** tsk_b16tob10: the value of a hexadecimal digit of either case; 0 for any other character. */
  function HexValue(c: char): (n: nat)
    ensures n < 16
  {
    if '0' <= c <= '9' then (c as int) - ('0' as int)
    else if 'a' <= c <= 'f' then (c as int) - ('a' as int) + 10
    else if 'A' <= c <= 'F' then (c as int) - ('A' as int) + 10
    else 0
  }

  /** `hex(x) << 4 | hex(y)`: the nibbles do not overlap, so the `|` is a sum. */
  function DecodeHex(x: char, y: char): (c: char)
    ensures (c as int) < 0x100
  {
    (HexValue(x) * 16 + HexValue(y)) as char
  }

  /** A C string whose encoding the model covers: every character is ASCII other than NUL. */
  predicate IsAscii(s: string) {
    forall i :: 0 <= i < |s| ==> 0 < (s[i] as int) < 0x80
  }

  /**
   * What the encoder writes for one character: the character itself or
   * '+', or three characters led by '%' for any character that is neither
   * unreserved nor a space.
   */
  function EncodeChar(c: char): (r: string)
    requires (c as int) < 0x80
    ensures |r| == 1 || |r| == 3
    ensures r[0] == '%' <==> !IsUnreserved(c) && c != ' '
  {
    if IsUnreserved(c) then [c]
    else if c == ' ' then ['+']
    else ['%', HexDigit((c as int) / 16), HexDigit((c as int) % 16)]
  }

  /**
   * The encoding of a whole string, character by character: at least as
   * long as the input and at most three times as long, so it always fits
   * the 3n+1 buffer.
   */
  function Encoded(s: string): (r: string)
    requires IsAscii(s)
    ensures |s| <= |r| <= 3 * |s|
  {
    if s == [] then [] else EncodeChar(s[0]) + Encoded(s[1..])
  }

  /**
   * The decoding of a whole string: "%XY" is one character, a '%' with
   * fewer than two characters after it is dropped, '+' is a space, and any
   * other character is copied. The decoding is never longer than the input.
   */
  function Decoded(s: string): (r: string)
    ensures |r| <= |s|
  {
    if s == [] then []
    else if s[0] == '%' then
      if |s| >= 3 then [DecodeHex(s[1], s[2])] + Decoded(s[3..]) else Decoded(s[1..])
    else if s[0] == '+' then [' '] + Decoded(s[1..])
    else [s[0]] + Decoded(s[1..])
  }

  /**
   * tsk_url_encode: allocate 3n+1 characters, write each input character's
   * encoding, then the terminating NUL; the encoding never overruns the buffer.
   */
  method UrlEncode(url: string) returns (r: string)
    requires IsAscii(url)
    ensures r == Encoded(url)
  {
    var buf := new char[3 * |url| + 1];
    var i, w := 0, 0;
    while i < |url|
      invariant 0 <= i <= |url| && 0 <= w <= 3 * i
      invariant buf[..w] + Encoded(url[i..]) == Encoded(url)
    {
      EncodedStep(url, i);
      ghost var before, rest := buf[..w], Encoded(url[i + 1..]);
      w := PutEncoded(buf, w, url[i]);
      Concat3(before, EncodeChar(url[i]), rest);
      i := i + 1;
    }
    buf[w] := '\0';
    r := buf[..w];
  }

  /** One step of tsk_url_encode: write the encoding of `c` at `w`. */
  method PutEncoded(buf: array<char>, w: nat, c: char) returns (w': nat)
    requires (c as int) < 0x80 && w + 3 <= buf.Length
    modifies buf
    ensures w' == w + |EncodeChar(c)| && w' <= w + 3
    ensures buf[..w'] == old(buf[..w]) + EncodeChar(c)
  {
    if IsUnreserved(c) {
      buf[w] := c;
      w' := w + 1;
    } else if c == ' ' {
      buf[w] := '+';
      w' := w + 1;
    } else {
      buf[w] := '%';
      buf[w + 1] := HexDigit((c as int) / 16);
      buf[w + 2] := HexDigit((c as int) % 16);
      w' := w + 3;
    }
  }

  /** The encoding from `i` on: the encoding of `url[i]`, then the rest. */
  lemma EncodedStep(url: string, i: nat)
    requires IsAscii(url) && i < |url|
    ensures Encoded(url[i..]) == EncodeChar(url[i]) + Encoded(url[i + 1..])
  {
    assert url[i..][1..] == url[i + 1..];
  }

  /**
   * tsk_url_decode: allocate n+1 characters and decode into them; the
   * decoding never overruns the buffer.
   */
  method UrlDecode(url: string) returns (r: string)
    requires '\0' !in url
    ensures r == Decoded(url)
  {
    var buf := new char[|url| + 1];
    var i, w := 0, 0;
    while i < |url|
      invariant 0 <= i <= |url| && 0 <= w <= i
      invariant buf[..w] + Decoded(url[i..]) == Decoded(url)
    {
      w, i := PutDecoded(buf, w, url, i);
    }
    buf[w] := '\0';
    r := buf[..w];
  }

  /**
   * One step of tsk_url_decode: decode the characters at `i` into `w`; a
   * "%XY" consumes three characters, a stray '%' one and writes nothing.
   */
  method PutDecoded(buf: array<char>, w: nat, url: string, i: nat) returns (w': nat, i': nat)
    requires w <= i < |url| < buf.Length
    modifies buf
    ensures i < i' <= |url| && w' <= i'
    ensures old(buf[..w]) + Decoded(url[i..]) == buf[..w'] + Decoded(url[i'..])
  {
    DecodedStep(url, i);
    ghost var before := buf[..w];
    if url[i] == '%' && i + 2 < |url| {
      var c := DecodeHex(url[i + 1], url[i + 2]);
      buf[w] := c;
      w', i' := w + 1, i + 3;
      assert buf[..w'] == before + [c];
    } else if url[i] == '%' {
      w', i' := w, i + 1;
    } else {
      var c := if url[i] == '+' then ' ' else url[i];
      buf[w] := c;
      w', i' := w + 1, i + 1;
      assert buf[..w'] == before + [c];
    }
  }

  /** Concatenation is associative: the encoder's step needs it spelled out. */
  lemma Concat3<T>(a: seq<T>, b: seq<T>, c: seq<T>)
    ensures (a + b) + c == a + (b + c)
  {
  }

  /** The decoding from `i` on, by the character at `i`. */
  lemma DecodedStep(url: string, i: nat)
    requires i < |url|
    ensures url[i] == '%' && i + 2 < |url| ==>
      Decoded(url[i..]) == [DecodeHex(url[i + 1], url[i + 2])] + Decoded(url[i + 3..])
    ensures url[i] == '%' && i + 2 >= |url| ==> Decoded(url[i..]) == Decoded(url[i + 1..])
    ensures url[i] != '%' && url[i] == '+' ==> Decoded(url[i..]) == [' '] + Decoded(url[i + 1..])
    ensures url[i] != '%' && url[i] != '+' ==> Decoded(url[i..]) == [url[i]] + Decoded(url[i + 1..])
  {
    assert url[i..][1..] == url[i + 1..];
    if i + 2 < |url| {
      assert url[i..][3..] == url[i + 3..];
    }
  }

  // ---------------------------------------------------------------------
  // Properties

  /** The characters an encoding may contain: unreserved ones (the hex digits among them), '+' and '%'. */
  predicate IsEncodedChar(c: char) {
    IsUnreserved(c) || c == '+' || c == '%'
  }

  /** Every character of an encoding is unreserved, '+' or '%': no space and no reserved character survives. */
  lemma {:induction false} EncodedIsSafe(s: string)
    requires IsAscii(s)
    ensures forall i :: 0 <= i < |Encoded(s)| ==> IsEncodedChar(Encoded(s)[i])
  {
    if s != [] {
      EncodedIsSafe(s[1..]);
      var head := EncodeChar(s[0]);
      assert forall i :: 0 <= i < |head| ==> IsEncodedChar(head[i]);
      assert Encoded(s) == head + Encoded(s[1..]);
    }
  }

  /** Encoding distributes over concatenation. */
  lemma {:induction false} EncodedConcat(a: string, b: string)
    requires IsAscii(a) && IsAscii(b)
    ensures IsAscii(a + b)
    ensures Encoded(a + b) == Encoded(a) + Encoded(b)
  {
    if a != [] {
      assert (a + b)[1..] == a[1..] + b;
      assert (a + b)[0] == a[0];
      EncodedConcat(a[1..], b);
    } else {
      assert a + b == b;
    }
  }

  /** The hex helpers are inverse on nibbles. */
  lemma HexNibble(n: nat)
    requires n < 16
    ensures HexValue(HexDigit(n)) == n
  {
  }

  /** Decoding the encoding of one character, followed by any text, yields that character first. */
  lemma DecodeEncodeChar(c: char, t: string)
    requires 0 < (c as int) < 0x80
    ensures Decoded(EncodeChar(c) + t) == [c] + Decoded(t)
  {
    var e := EncodeChar(c) + t;
    if IsUnreserved(c) {
      assert e[1..] == t;
    } else if c == ' ' {
      assert e[1..] == t;
    } else {
      HexNibble((c as int) / 16);
      HexNibble((c as int) % 16);
      assert e[3..] == t;
      assert DecodeHex(e[1], e[2]) == c;
    }
  }

  /** Round trip: decoding an encoding gives back the ASCII string it encodes. */
  lemma {:induction false} DecodeEncode(s: string)
    requires IsAscii(s)
    ensures Decoded(Encoded(s)) == s
  {
    if s != [] {
      DecodeEncode(s[1..]);
      DecodeEncodeChar(s[0], Encoded(s[1..]));
      assert s == [s[0]] + s[1..];
    }
  }

  /** A space and a reserved character: "a b&" is encoded as "a+b%26". */
  lemma EncodeExample()
    ensures Encoded("a b&") == "a+b%26"
  {
    assert EncodeChar('&') == "%26";
    EncodedCons('&', []);
    EncodedCons('b', "&");
    EncodedCons(' ', "b&");
    EncodedCons('a', " b&");
  }

  /** "a+b%26" decodes back to "a b&". */
  lemma DecodeExample()
    ensures Decoded("a+b%26") == "a b&"
  {
    assert Decoded("%26") == "&" by {
      assert "%26"[3..] == [];
    }
    DecodedCons('b', "%26");
    DecodedCons('+', "b%26");
    DecodedCons('a', "+b%26");
  }

  /** The encoding of a string that starts with `c`. */
  lemma EncodedCons(c: char, s: string)
    requires 0 < (c as int) < 0x80 && IsAscii(s)
    ensures IsAscii([c] + s) && Encoded([c] + s) == EncodeChar(c) + Encoded(s)
  {
    assert ([c] + s)[1..] == s;
  }

  /** The decoding of a string that starts with a character other than '%'. */
  lemma DecodedCons(c: char, s: string)
    requires c != '%'
    ensures Decoded([c] + s) == [if c == '+' then ' ' else c] + Decoded(s)
  {
    assert ([c] + s)[1..] == s;
  }

  /** A '%' with fewer than two characters after it is dropped: "ab%4" decodes to "ab4". */
  lemma StrayPercentExample()
    ensures Decoded("ab%4") == "ab4"
  {
    assert "ab%4"[1..] == "b%4" && "b%4"[1..] == "%4" && "%4"[1..] == "4" && "4"[1..] == [];
  }
}
