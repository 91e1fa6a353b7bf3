/** The older three-variant `FlexStr<T>` as src/traits.rs converts between
    its forms: a static literal, an inline copy of up to `MAX_INLINE` bytes,
    or a reference-counted heap string (`Rc<str>` for `FlexStr`, `Arc<str>`
    for `AFlexStr`). Also the ASCII case mappings, which go through the
    builder of src/builder.rs. */
module LegacyFlex {
  import opened RustTypes
  import opened Utf8
  import LegacyBuilder

  /** The heap handle type `T`. */
  datatype RefKind = RcStr | ArcStr

  /** `FlexStrInner`. */
  datatype Flex = Static(text: seq<byte>) | Inlined(text: seq<byte>) | Heap(kind: RefKind, text: seq<byte>)

  predicate Valid(f: Flex) {
    ValidUtf8(f.text) && (f.Inlined? ==> |f.text| <= LegacyBuilder.MAX_INLINE)
  }

  /** Which variant a value is in, whatever the heap handle type. */
  predicate SameVariant(a: Flex, b: Flex) {
    (a.Static? <==> b.Static?) && (a.Inlined? <==> b.Inlined?) && (a.Heap? <==> b.Heap?)
  }

  /** `ToFlex for str`: the inline string when the text fits
      (`try_into` of the inline type), a new heap handle otherwise. */
  function StrToFlex(t: seq<byte>, k: RefKind): (r: Flex)
    requires ValidUtf8(t)
    ensures Valid(r) && r.text == t
    ensures r.Inlined? <==> |t| <= LegacyBuilder.MAX_INLINE
    ensures r.Heap? <==> |t| > LegacyBuilder.MAX_INLINE
    ensures r.Heap? ==> r.kind == k
  {
    if |t| <= LegacyBuilder.MAX_INLINE then Inlined(t) else Heap(k, t)
  }

  /** `IntoFlex for FlexStr<T2>`: a static or inline value is moved as it
      is; a heap value is copied into a new handle of the target type. */
  function IntoFlex(f: Flex, k: RefKind): (r: Flex)
    requires Valid(f)
    ensures Valid(r) && r.text == f.text && SameVariant(r, f)
    ensures r.Heap? ==> r.kind == k
    ensures !f.Heap? ==> r == f
  {
    match f
    case Static(t) => Static(t)
    case Inlined(t) => Inlined(t)
    case Heap(_, t) => Heap(k, t)
  }

  /** `ToFlex for FlexStr<T2>`: `clone` then `into_flex`; cloning copies a
      static or inline value and shares a heap handle, so the variant and
      the text are kept. */
  function ToFlex(f: Flex, k: RefKind): (r: Flex)
    requires Valid(f)
    ensures Valid(r) && r.text == f.text && SameVariant(r, f)
    ensures r.Heap? ==> r.kind == k
  {
    var cloned := f;
    IntoFlex(cloned, k)
  }

  /** Converting to the other heap type and back gives the value back. */
  lemma IntoFlexRoundTrip(f: Flex, k: RefKind)
    requires Valid(f)
    ensures f.Heap? ==> IntoFlex(IntoFlex(f, k), f.kind) == f
    ensures !f.Heap? ==> IntoFlex(IntoFlex(f, k), k) == f
  {
  }

  /** `IntoFlex for &'static str`: the literal is wrapped as it is, as the
      static variant, however long it is. */
  function StaticIntoFlex(t: seq<byte>): (r: Flex)
    requires ValidUtf8(t)
    ensures Valid(r) && r.Static? && r.text == t
  {
    Static(t)
  }

  /** `From<String>` (behind `IntoFlex for String` and the builder's
      `into`): inline when the text fits, otherwise on the heap. */
  function FromString(t: seq<byte>, k: RefKind): (r: Flex)
    requires ValidUtf8(t)
    ensures Valid(r) && r.text == t && !r.Static?
    ensures r.Inlined? <==> |t| <= LegacyBuilder.MAX_INLINE
  {
    StrToFlex(t, k)
  }

  /** `IntoFlex for char`: one character always fits inline. */
  function CharIntoFlex(c: char): (r: Flex)
    ensures Valid(r) && r.Inlined? && r.text == EncodeChar(c)
  {
    EncodeCharValid(c);
    Inlined(EncodeChar(c))
  }

  /** `into` of a builder: the text written, converted as a `String` is. */
  function BuilderInto(b: LegacyBuilder.Builder, k: RefKind): (r: Flex)
    requires LegacyBuilder.Valid(b) && ValidUtf8(LegacyBuilder.Content(b))
    ensures Valid(r) && r.text == LegacyBuilder.Content(b) && !r.Static?
  {
    FromString(LegacyBuilder.Content(b), k)
  }

  /** The character loop of `to_ascii_upper` / `to_ascii_lower`: a builder
      sized for the input, then one `write_char` per mapped character. */
  method MapIntoBuilder(cs: seq<char>, upper: bool) returns (b: LegacyBuilder.Builder)
    ensures LegacyBuilder.Valid(b)
    ensures upper ==> LegacyBuilder.Content(b) == EncodeString(Map(AsciiUpperChar, cs))
    ensures !upper ==> LegacyBuilder.Content(b) == EncodeString(Map(AsciiLowerChar, cs))
  {
    var f := if upper then AsciiUpperChar else AsciiLowerChar;
    b := LegacyBuilder.WithCapacity(|EncodeString(cs)|);
    var i := 0;
    while i < |cs|
      invariant 0 <= i <= |cs|
      invariant LegacyBuilder.Valid(b)
      invariant LegacyBuilder.Content(b) == EncodeString(Map(f, cs[..i]))
    {
      EncodeStringSnoc(Map(f, cs[..i]), f(cs[i]));
      assert Map(f, cs[..i + 1]) == Map(f, cs[..i]) + [f(cs[i])];
      b := LegacyBuilder.CharWrite(b, f(cs[i]));
      i := i + 1;
    }
    assert cs[..i] == cs;
  }

  lemma {:induction false} EncodeStringSnoc(cs: seq<char>, c: char)
    ensures EncodeString(cs + [c]) == EncodeString(cs) + EncodeChar(c)
  {
    if |cs| > 0 {
      assert (cs + [c])[1..] == cs[1..] + [c];
      EncodeStringSnoc(cs[1..], c);
    } else {
      assert cs + [c] == [c];
    }
  }

  /** `to_ascii_upper`: every ASCII lower-case letter upper-cased, every
      other character kept, so the byte length is kept; the result is
      inline exactly when it fits. */
  method ToAsciiUpper(cs: seq<char>, k: RefKind) returns (r: Flex)
    ensures Valid(r) && !r.Static?
    ensures r.text == EncodeString(Map(AsciiUpperChar, cs))
    ensures r.text == Map(AsciiUpperByte, EncodeString(cs))
    ensures r.Inlined? <==> |EncodeString(cs)| <= LegacyBuilder.MAX_INLINE
  {
    var b := MapIntoBuilder(cs, true);
    EncodeStringValid(Map(AsciiUpperChar, cs));
    EncodeStringAsciiUpper(cs);
    r := BuilderInto(b, k);
  }

  /** `to_ascii_lower`: the same with upper-case letters lower-cased. */
  method ToAsciiLower(cs: seq<char>, k: RefKind) returns (r: Flex)
    ensures Valid(r) && !r.Static?
    ensures r.text == EncodeString(Map(AsciiLowerChar, cs))
    ensures r.text == Map(AsciiLowerByte, EncodeString(cs))
    ensures r.Inlined? <==> |EncodeString(cs)| <= LegacyBuilder.MAX_INLINE
  {
    var b := MapIntoBuilder(cs, false);
    EncodeStringValid(Map(AsciiLowerChar, cs));
    EncodeStringAsciiLower(cs);
    r := BuilderInto(b, k);
  }

  /** The documented example: "TEST" lower-cased is "test". */
  method LowerExample() returns (r: Flex)
    ensures r.text == [0x74, 0x65, 0x73, 0x74] && r.Inlined?
  {
    r := ToAsciiLower("TEST", RcStr);
    assert Map(AsciiLowerChar, "TEST") == "test";
    assert EncodeString("test") == [0x74, 0x65, 0x73, 0x74] by {
      assert "test"[1..] == "est";
      assert "est"[1..] == "st";
      assert "st"[1..] == "t";
      assert "t"[1..] == "";
    }
  }
}
