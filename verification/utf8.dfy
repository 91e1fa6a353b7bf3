/** UTF-8 as the `str` kind relies on it: the well-formedness grammar of
    section 4 of RFC 3629 (UTF8-octets), the encoder of section 3 for one
    scalar value, and the ASCII-only case mappings of `char` and `u8`. */
module Utf8 {
  import opened RustTypes

  predicate IsTail(b: byte) { 0x80 <= b <= 0xBF }

  /** Length of the well-formed UTF8-char at the head of `s` (rules UTF8-1 ..
      UTF8-4 of section 4 of RFC 3629), or 0 when the head is not one. */
  function HeadWidth(s: seq<byte>): (w: nat)
    ensures w <= |s| && w <= 4
    ensures w == 1 <==> |s| > 0 && s[0] <= 0x7F
  {
    if |s| == 0 then 0
    else if s[0] <= 0x7F then 1
    else if 0xC2 <= s[0] <= 0xDF then
      (if |s| >= 2 && IsTail(s[1]) then 2 else 0)
    else if s[0] == 0xE0 then
      (if |s| >= 3 && 0xA0 <= s[1] <= 0xBF && IsTail(s[2]) then 3 else 0)
    else if 0xE1 <= s[0] <= 0xEC || 0xEE <= s[0] <= 0xEF then
      (if |s| >= 3 && IsTail(s[1]) && IsTail(s[2]) then 3 else 0)
    else if s[0] == 0xED then
      (if |s| >= 3 && 0x80 <= s[1] <= 0x9F && IsTail(s[2]) then 3 else 0)
    else if s[0] == 0xF0 then
      (if |s| >= 4 && 0x90 <= s[1] <= 0xBF && IsTail(s[2]) && IsTail(s[3]) then 4 else 0)
    else if 0xF1 <= s[0] <= 0xF3 then
      (if |s| >= 4 && IsTail(s[1]) && IsTail(s[2]) && IsTail(s[3]) then 4 else 0)
    else if s[0] == 0xF4 then
      (if |s| >= 4 && 0x80 <= s[1] <= 0x8F && IsTail(s[2]) && IsTail(s[3]) then 4 else 0)
    else 0
  }

  /** `s` is a sequence of well-formed UTF8-chars (the UTF8-octets rule). */
  predicate ValidUtf8(s: seq<byte>)
    decreases |s|
  {
    |s| == 0 || (HeadWidth(s) > 0 && ValidUtf8(s[HeadWidth(s)..]))
  }

  /** The width of a well-formed head depends on the head alone. */
  lemma HeadWidthExtend(a: seq<byte>, b: seq<byte>)
    requires HeadWidth(a) > 0
    ensures HeadWidth(a + b) == HeadWidth(a)
  {
    assert forall i :: 0 <= i < |a| ==> (a + b)[i] == a[i];
  }

  lemma HeadWidthPrefix(s: seq<byte>, k: nat)
    requires 0 < HeadWidth(s) <= k <= |s|
    ensures HeadWidth(s[..k]) == HeadWidth(s)
  {
    assert s == s[..k] + s[k..];
    HeadWidthExtend(s[..k], s[k..]);
  }

  /** Well-formed text is closed under concatenation. */
  lemma {:induction false} ValidConcat(a: seq<byte>, b: seq<byte>)
    requires ValidUtf8(a) && ValidUtf8(b)
    ensures ValidUtf8(a + b)
    decreases |a|
  {
    if |a| > 0 {
      var w := HeadWidth(a);
      HeadWidthExtend(a, b);
      ValidConcat(a[w..], b);
      assert (a + b)[w..] == a[w..] + b;
    } else {
      assert a + b == b;
    }
  }

  /** The `valid_up_to` of `core::str::Utf8Error`: the length of the longest
      prefix of `s` made of well-formed UTF8-chars, read head first. */
  function ValidUpTo(s: seq<byte>): (n: nat)
    ensures n <= |s|
    decreases |s|
  {
    if |s| == 0 || HeadWidth(s) == 0 then 0
    else HeadWidth(s) + ValidUpTo(s[HeadWidth(s)..])
  }

  /** `ValidUpTo` is the length of a well-formed prefix, and it covers the
      whole input exactly when the input is well formed. */
  lemma {:induction false} ValidUpToSpec(s: seq<byte>)
    ensures ValidUtf8(s[..ValidUpTo(s)])
    ensures ValidUpTo(s) == |s| <==> ValidUtf8(s)
    decreases |s|
  {
    if |s| == 0 || HeadWidth(s) == 0 {
      assert s[..0] == [];
    } else {
      var w := HeadWidth(s);
      var rest := s[w..];
      ValidUpToSpec(rest);
      var n := ValidUpTo(s);
      assert s[..n] == s[..w] + rest[..ValidUpTo(rest)];
      HeadWidthPrefix(s, w);
      assert ValidUtf8(s[..w]) by {
        assert s[..w][w..] == [];
      }
      ValidConcat(s[..w], rest[..ValidUpTo(rest)]);
    }
  }

  /** `core::str::Utf8Error`, by its `valid_up_to`. */
  datatype Utf8Error = Utf8Error(validUpTo: nat)

  /** `str::from_utf8`. */
  function FromUtf8(bytes: seq<byte>): (r: Result<seq<byte>, Utf8Error>)
    ensures r.Ok? <==> ValidUtf8(bytes)
    ensures r.Ok? ==> r.value == bytes
    ensures r.Err? ==> r.error.validUpTo < |bytes| && ValidUtf8(bytes[..r.error.validUpTo])
  {
    ValidUpToSpec(bytes);
    if ValidUtf8(bytes) then Ok(bytes) else Err(Utf8Error(ValidUpTo(bytes)))
  }

  /** The UTF-8 encoding of one Unicode scalar value (section 3 of RFC 3629),
      which is what `char::encode_utf8` writes. */
  function EncodeChar(c: char): (r: seq<byte>)
    ensures 1 <= |r| <= 4
    ensures |r| == 1 <==> c as int < 0x80
    ensures |r| == 1 ==> r[0] as int == c as int
    ensures |r| > 1 ==> forall i :: 0 <= i < |r| ==> r[i] >= 0x80
  {
    var cp := c as int;
    if cp < 0x80 then [cp as byte]
    else if cp < 0x800 then
      [(0xC0 + cp / 64) as byte, (0x80 + cp % 64) as byte]
    else if cp < 0x10000 then
      [(0xE0 + cp / 4096) as byte, (0x80 + (cp / 64) % 64) as byte, (0x80 + cp % 64) as byte]
    else
      [(0xF0 + cp / 262144) as byte, (0x80 + (cp / 4096) % 64) as byte,
       (0x80 + (cp / 64) % 64) as byte, (0x80 + cp % 64) as byte]
  }

  /** Every encoded scalar value is one well-formed UTF8-char. */
  lemma EncodeCharValid(c: char)
    ensures HeadWidth(EncodeChar(c)) == |EncodeChar(c)|
    ensures ValidUtf8(EncodeChar(c))
  {
    var r := EncodeChar(c);
    assert r[HeadWidth(r)..] == [];
  }

  /** The UTF-8 encoding of a text, character by character. */
  function EncodeString(cs: seq<char>): seq<byte>
  {
    if |cs| == 0 then [] else EncodeChar(cs[0]) + EncodeString(cs[1..])
  }

  lemma {:induction false} EncodeStringValid(cs: seq<char>)
    ensures ValidUtf8(EncodeString(cs))
  {
    if |cs| > 0 {
      EncodeCharValid(cs[0]);
      EncodeStringValid(cs[1..]);
      ValidConcat(EncodeChar(cs[0]), EncodeString(cs[1..]));
    }
  }

  /** `char::to_ascii_uppercase`: only 'a'..='z' change. */
  function AsciiUpperChar(c: char): (r: char)
    ensures 'a' <= c <= 'z' ==> r as int == c as int - 32
    ensures !('a' <= c <= 'z') ==> r == c
  {
    if 'a' <= c <= 'z' then (c as int - 32) as char else c
  }

  /** `char::to_ascii_lowercase`: only 'A'..='Z' change. */
  function AsciiLowerChar(c: char): (r: char)
    ensures 'A' <= c <= 'Z' ==> r as int == c as int + 32
    ensures !('A' <= c <= 'Z') ==> r == c
  {
    if 'A' <= c <= 'Z' then (c as int + 32) as char else c
  }

  /** `u8::to_ascii_uppercase` and `u8::to_ascii_lowercase`. */
  function AsciiUpperByte(b: byte): byte
  {
    if 0x61 <= b <= 0x7A then b - 0x20 else b
  }

  function AsciiLowerByte(b: byte): byte
  {
    if 0x41 <= b <= 0x5A then b + 0x20 else b
  }

  /** An element-wise mapping, as `map` over a byte slice or over
      `chars()`. */
  function Map<T>(f: T -> T, s: seq<T>): (r: seq<T>)
    ensures |r| == |s|
    ensures forall i :: 0 <= i < |s| ==> r[i] == f(s[i])
  {
    if |s| == 0 then [] else [f(s[0])] + Map(f, s[1..])
  }

  lemma MapConcat<T>(f: T -> T, a: seq<T>, b: seq<T>)
    ensures Map(f, a + b) == Map(f, a) + Map(f, b)
  {
  }

  /** Upper-casing a character and then encoding it is upper-casing the bytes
      of its encoding: multi-byte encodings hold only bytes >= 0x80, which the
      byte mapping leaves alone, as the character mapping leaves non-ASCII
      characters alone. */
  lemma EncodeAsciiUpper(c: char)
    ensures EncodeChar(AsciiUpperChar(c)) == Map(AsciiUpperByte, EncodeChar(c))
  {
  }

  lemma EncodeAsciiLower(c: char)
    ensures EncodeChar(AsciiLowerChar(c)) == Map(AsciiLowerByte, EncodeChar(c))
  {
  }

  /** The text-level ASCII mappings are the byte-level mappings of the
      encoded text; in particular they keep its byte length. */
  lemma {:induction false} EncodeStringAsciiUpper(cs: seq<char>)
    ensures EncodeString(Map(AsciiUpperChar, cs)) == Map(AsciiUpperByte, EncodeString(cs))
  {
    if |cs| > 0 {
      EncodeStringAsciiUpper(cs[1..]);
      EncodeAsciiUpper(cs[0]);
      assert Map(AsciiUpperChar, cs)[1..] == Map(AsciiUpperChar, cs[1..]);
      MapConcat(AsciiUpperByte, EncodeChar(cs[0]), EncodeString(cs[1..]));
    }
  }

  lemma {:induction false} EncodeStringAsciiLower(cs: seq<char>)
    ensures EncodeString(Map(AsciiLowerChar, cs)) == Map(AsciiLowerByte, EncodeString(cs))
  {
    if |cs| > 0 {
      EncodeStringAsciiLower(cs[1..]);
      EncodeAsciiLower(cs[0]);
      assert Map(AsciiLowerChar, cs)[1..] == Map(AsciiLowerChar, cs[1..]);
      MapConcat(AsciiLowerByte, EncodeChar(cs[0]), EncodeString(cs[1..]));
    }
  }
}
