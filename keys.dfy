/** Short keys: the URL-safe tokens that `secrets.token_urlsafe(8)` yields.
    The randomness itself is not modelled; what is modelled is the encoding of
    the random bytes (base64url without padding, section 5 of RFC 4648), so that
    the `ValidKey` predicate the table relies on is shown to cover every token
    the generator can produce, and so that distinct random bytes are shown to
    give distinct keys. */
module Keys {

  /** Number of random bytes drawn for one key (`token_urlsafe(8)`). */
  const KeyBytes: nat := 8

  /** Number of characters of a key: ceil(8 * 8 / 6) = 11. */
  const KeyLength: nat := 11

  newtype byte = x: int | 0 <= x < 256

  /** The base64url alphabet: `A-Z`, `a-z`, `0-9`, `-` and `_`. */
  predicate UrlSafeChar(c: char) {
    ('A' <= c <= 'Z') || ('a' <= c <= 'z') || ('0' <= c <= '9') || c == '-' || c == '_'
  }

  /** A key as stored in the table: 11 characters of the URL-safe alphabet. */
  predicate ValidKey(k: string) {
    |k| == KeyLength && forall i :: 0 <= i < |k| ==> UrlSafeChar(k[i])
  }

  /** The character that encodes a 6-bit value, in the order of the base64url table. */
  function Digit(v: int): (c: char)
    requires 0 <= v < 64
    ensures UrlSafeChar(c) && c != '/' && c != '='
    ensures DigitValue(c) == v
  {
    if v < 26 then ('A' as int + v) as char
    else if v < 52 then ('a' as int + (v - 26)) as char
    else if v < 62 then ('0' as int + (v - 52)) as char
    else if v == 62 then '-'
    else '_'
  }

  /** The 6-bit value of a character of the alphabet (the inverse of `Digit`). */
  function DigitValue(c: char): (v: int)
    requires UrlSafeChar(c)
    ensures 0 <= v < 64
  {
    if 'A' <= c <= 'Z' then c as int - 'A' as int
    else if 'a' <= c <= 'z' then c as int - 'a' as int + 26
    else if '0' <= c <= '9' then c as int - '0' as int + 52
    else if c == '-' then 62
    else 63
  }

  /** The four 6-bit digits of a group of three bytes `x0 x1 x2`: the top six
      bits of `x0`; its low two bits with the top four of `x1`; the low four
      bits of `x1` with the top two of `x2`; the low six bits of `x2`. A missing
      byte at the end of the input counts as zero. */
  function Sextet0(x0: int): (d: int)
    requires 0 <= x0 < 256
    ensures 0 <= d < 64
  {
    x0 / 4
  }

  function Sextet1(x0: int, x1: int): (d: int)
    requires 0 <= x0 < 256 && 0 <= x1 < 256
    ensures 0 <= d < 64
  {
    (x0 % 4) * 16 + x1 / 16
  }

  function Sextet2(x1: int, x2: int): (d: int)
    requires 0 <= x1 < 256 && 0 <= x2 < 256
    ensures 0 <= d < 64
  {
    (x1 % 16) * 4 + x2 / 64
  }

  function Sextet3(x2: int): (d: int)
    requires 0 <= x2 < 256
    ensures 0 <= d < 64
  {
    x2 % 64
  }

  /** The three bytes that four 6-bit digits `d0 d1 d2 d3` carry. */
  function Octet0(d0: int, d1: int): byte
    requires 0 <= d0 < 64 && 0 <= d1 < 64
  {
    (d0 * 4 + d1 / 16) as byte
  }

  function Octet1(d1: int, d2: int): byte
    requires 0 <= d1 < 64 && 0 <= d2 < 64
  {
    ((d1 % 16) * 16 + d2 / 4) as byte
  }

  function Octet2(d2: int, d3: int): byte
    requires 0 <= d2 < 64 && 0 <= d3 < 64
  {
    ((d2 % 4) * 64 + d3) as byte
  }

  /** Base64url encoding without padding: every three bytes become four
      characters; a final one byte becomes two characters and a final two bytes
      become three, with the unused low bits set to zero and no `=` appended. */
  function Encode(b: seq<byte>): (r: string)
    ensures |r| == (4 * |b| + 2) / 3
    ensures forall i :: 0 <= i < |r| ==> UrlSafeChar(r[i])
    decreases |b|
  {
    if |b| == 0 then ""
    else if |b| == 1 then
      [Digit(Sextet0(b[0] as int)), Digit(Sextet1(b[0] as int, 0))]
    else if |b| == 2 then
      [Digit(Sextet0(b[0] as int)), Digit(Sextet1(b[0] as int, b[1] as int)),
       Digit(Sextet2(b[1] as int, 0))]
    else
      [Digit(Sextet0(b[0] as int)), Digit(Sextet1(b[0] as int, b[1] as int)),
       Digit(Sextet2(b[1] as int, b[2] as int)), Digit(Sextet3(b[2] as int))] + Encode(b[3..])
  }

  /** Base64url decoding without padding, the inverse of `Encode`: four
      characters give three bytes, a final two characters one byte and a final
      three characters two bytes; a lone final character holds fewer than eight
      bits and gives none. */
  function Decode(s: string): (b: seq<byte>)
    requires forall i :: 0 <= i < |s| ==> UrlSafeChar(s[i])
    ensures |b| == 3 * |s| / 4
    decreases |s|
  {
    if |s| <= 1 then []
    else if |s| == 2 then
      [Octet0(DigitValue(s[0]), DigitValue(s[1]))]
    else if |s| == 3 then
      [Octet0(DigitValue(s[0]), DigitValue(s[1])), Octet1(DigitValue(s[1]), DigitValue(s[2]))]
    else
      [Octet0(DigitValue(s[0]), DigitValue(s[1])), Octet1(DigitValue(s[1]), DigitValue(s[2])),
       Octet2(DigitValue(s[2]), DigitValue(s[3]))] + Decode(s[4..])
  }

  /** The bit arithmetic of one group: the digits of three bytes carry those
      three bytes. */
  lemma GroupRoundTrip(x0: int, x1: int, x2: int)
    requires 0 <= x0 < 256 && 0 <= x1 < 256 && 0 <= x2 < 256
    ensures Octet0(Sextet0(x0), Sextet1(x0, x1)) as int == x0
    ensures Octet1(Sextet1(x0, x1), Sextet2(x1, x2)) as int == x1
    ensures Octet2(Sextet2(x1, x2), Sextet3(x2)) as int == x2
  {
    assert x1 / 16 < 16 && x2 / 64 < 4;
  }

  /** Decoding four digits followed by more text: the three bytes those
      digits carry, then the decoding of the rest. */
  lemma DecodeDigits(d0: int, d1: int, d2: int, d3: int, rest: string)
    requires 0 <= d0 < 64 && 0 <= d1 < 64 && 0 <= d2 < 64 && 0 <= d3 < 64
    requires forall i :: 0 <= i < |rest| ==> UrlSafeChar(rest[i])
    ensures Decode([Digit(d0), Digit(d1), Digit(d2), Digit(d3)] + rest)
            == [Octet0(d0, d1), Octet1(d1, d2), Octet2(d2, d3)] + Decode(rest)
  {
    var e := [Digit(d0), Digit(d1), Digit(d2), Digit(d3)] + rest;
    assert e[4..] == rest;
  }

  /** The first group of the encoding of at least three bytes decodes to
      those three bytes. */
  lemma DecodeFullGroup(b: seq<byte>, rest: string)
    requires |b| >= 3 && rest == Encode(b[3..])
    ensures Decode(Encode(b)) == b[..3] + Decode(rest)
  {
    var x0, x1, x2 := b[0] as int, b[1] as int, b[2] as int;
    DecodeDigits(Sextet0(x0), Sextet1(x0, x1), Sextet2(x1, x2), Sextet3(x2), rest);
    GroupRoundTrip(x0, x1, x2);
  }

  /** The encodings of one byte and of two bytes decode to those bytes. */
  lemma DecodeOneByte(x: byte)
    ensures Decode(Encode([x])) == [x]
  {
    var e := [Digit(Sextet0(x as int)), Digit(Sextet1(x as int, 0))];
    assert Encode([x]) == e;
    assert Decode(e) == [Octet0(Sextet0(x as int), Sextet1(x as int, 0))];
    GroupRoundTrip(x as int, 0, 0);
  }

  lemma DecodeTwoBytes(b: seq<byte>)
    requires |b| == 2
    ensures Decode(Encode(b)) == b
  {
    GroupRoundTrip(b[0] as int, b[1] as int, 0);
  }

  /** Round trip: decoding the encoding of any bytes gives those bytes back, so
      the encoding loses nothing. */
  lemma {:induction false} DecodeEncode(b: seq<byte>)
    ensures Decode(Encode(b)) == b
    decreases |b|
  {
    if |b| == 0 {
    } else if |b| == 1 {
      assert b == [b[0]];
      DecodeOneByte(b[0]);
    } else if |b| == 2 {
      DecodeTwoBytes(b);
    } else {
      DecodeFullGroup(b, Encode(b[3..]));
      DecodeEncode(b[3..]);
      assert b[..3] + b[3..] == b;
    }
  }

  /** Distinct random bytes give distinct keys: a key collision in the table
      can only come from the generator drawing the same 8 bytes twice. */
  lemma TokenUrlsafeInjective(b1: seq<byte>, b2: seq<byte>)
    requires |b1| == KeyBytes && |b2| == KeyBytes
    requires TokenUrlsafe(b1) == TokenUrlsafe(b2)
    ensures b1 == b2
  {
    DecodeEncode(b1);
    DecodeEncode(b2);
  }

  /** `token_urlsafe(8)` on the bytes the secure source returned. */
  function TokenUrlsafe(b: seq<byte>): (k: string)
    requires |b| == KeyBytes
    ensures ValidKey(k)
  {
    Encode(b)
  }

  /** A key never contains `/`, so it is always one whole path segment. */
  lemma ValidKeyHasNoSlash(k: string)
    requires ValidKey(k)
    ensures '/' !in k
  {
  }
}
