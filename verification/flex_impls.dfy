/** The standard trait impls of the `str`-kind `FlexStr` (flexstr/src/impls.rs).
    Every comparison dereferences to `str`, so equality, ordering and hashing
    see the text only, never the storage variant or the `HEAP` type. The
    value type is the union of inner.rs at `STR = str`. */
module FlexImpls {
  import opened RustTypes
  import opened Utf8
  import opened ByteOrder
  import opened FlexKinds
  import opened FlexStorage
  import opened FlexInner

  /** A `FlexStr` whose content is UTF-8 text. */
  predicate IsFlexStr(x: FlexStrInner) {
    Valid(x) && ValidUtf8(AsStrType(x))
  }

  /** `PartialEq` between two `FlexStr`s (any `HEAP` on either side), and
      against `&FlexStr`, `&str`, `str` and `String`: `str::eq` on the
      dereferenced text. */
  predicate Eq(a: FlexStrInner, b: FlexStrInner)
    requires Valid(a) && Valid(b)
  {
    AsStrType(a) == AsStrType(b)
  }

  predicate EqStr(a: FlexStrInner, s: seq<byte>)
    requires Valid(a)
  {
    AsStrType(a) == s
  }

  /** `Ord::cmp` (and `PartialOrd` against `FlexStr`, `str` and `String`,
      which wrap it in `Some`): `str::cmp`, byte-lexicographic. */
  function Cmp(a: FlexStrInner, b: FlexStrInner): (r: Ordering)
    requires Valid(a) && Valid(b)
    ensures r == Equal <==> Eq(a, b)
    ensures r.Reverse() == Compare(AsStrType(b), AsStrType(a))
  {
    CompareEqualIff(AsStrType(a), AsStrType(b));
    CompareAntisymmetric(AsStrType(a), AsStrType(b));
    Compare(AsStrType(a), AsStrType(b))
  }

  /** `PartialOrd::partial_cmp`: the order is total, so there is always an
      answer; it is `Equal` exactly for equal values and reverses when the
      operands swap. */
  function PartialCmp(a: FlexStrInner, b: FlexStrInner): (r: Option<Ordering>)
    requires Valid(a) && Valid(b)
    ensures r.Some? && (r.value == Equal <==> Eq(a, b))
    ensures r.Some? && r.value.Reverse() == Cmp(b, a)
  {
    CmpConsistentWithEq(a, b, b);
    Some(Cmp(a, b))
  }

  function PartialCmpStr(a: FlexStrInner, s: seq<byte>): (r: Option<Ordering>)
    requires Valid(a)
    ensures r.Some? && (r.value == Equal <==> EqStr(a, s))
  {
    CompareEqualIff(AsStrType(a), s);
    Some(Compare(AsStrType(a), s))
  }

  /** What `str::hash` feeds the hasher: the bytes, then the `0xFF`
      terminator. */
  function HashInput(a: FlexStrInner): (h: seq<byte>)
    requires Valid(a)
    ensures |h| == |AsStrType(a)| + 1 && h[|h| - 1] == 0xFF
    ensures h[..|h| - 1] == AsStrType(a)
  {
    AsStrType(a) + [0xFF]
  }

  /** `Eq` and `Ord` agree: `cmp` answers `Equal` exactly for equal values,
      reverses when the operands swap, and orders transitively. */
  lemma CmpConsistentWithEq(a: FlexStrInner, b: FlexStrInner, c: FlexStrInner)
    requires Valid(a) && Valid(b) && Valid(c)
    ensures Cmp(a, b) == Equal <==> Eq(a, b)
    ensures Cmp(b, a) == Cmp(a, b).Reverse()
    ensures Cmp(a, b) == Less && Cmp(b, c) == Less ==> Cmp(a, c) == Less
  {
    CompareEqualIff(AsStrType(a), AsStrType(b));
    CompareAntisymmetric(AsStrType(a), AsStrType(b));
    if Cmp(a, b) == Less && Cmp(b, c) == Less {
      CompareTransitive(AsStrType(a), AsStrType(b), AsStrType(c));
    }
  }

  /** `Hash` agrees with `Eq`: equal values feed the hasher the same bytes,
      and different values different bytes. */
  lemma HashConsistentWithEq(a: FlexStrInner, b: FlexStrInner)
    requires Valid(a) && Valid(b)
    ensures Eq(a, b) <==> HashInput(a) == HashInput(b)
  {
    if HashInput(a) == HashInput(b) {
      assert AsStrType(a) == HashInput(a)[..|HashInput(a)| - 1];
      assert AsStrType(b) == HashInput(b)[..|HashInput(b)| - 1];
    }
  }

  /** `Default`: the static empty string. */
  function Default(cfg: Config): (r: FlexStrInner)
    requires VariantSizesAreValid(cfg)
    ensures IsFlexStr(r) && IsStatic(r) && Len(Str, r) == 0 && IsEmpty(Str, r)
  {
    FromStatic(cfg, [])
  }

  /** `From<&str>` (and `From<String>`, `From<&String>`, which delegate to
      it): `from_ref`. */
  function FromStrRef(cfg: Config, d: Discipline, s: seq<byte>, uninit: seq<byte>): (r: FlexStrInner)
    requires ValidUtf8(s) && |uninit| == cfg.size && FromRefCanBuild(cfg, Str, s)
    ensures IsFlexStr(r) && EqStr(r, s)
    ensures IsStatic(r) <==> |s| == 0
    ensures IsInline(r) <==> 0 < |s| <= cfg.size
    ensures IsHeap(r) <==> |s| > cfg.size
  {
    FromRef(cfg, Str, d, s, uninit)
  }

  /** `FromStr`: never fails (`Infallible`); `Ok(s.into())`. */
  function FromStr(cfg: Config, d: Discipline, s: seq<byte>, uninit: seq<byte>): (r: Result<FlexStrInner, ()>)
    requires ValidUtf8(s) && |uninit| == cfg.size && FromRefCanBuild(cfg, Str, s)
    ensures r.Ok? && IsFlexStr(r.value) && EqStr(r.value, s)
  {
    Ok(FromStrRef(cfg, d, s, uninit))
  }

  /** Conversion from text is independent of the `HEAP` type: a `LocalStr`
      and a `SharedStr` made from the same text compare equal, in both
      directions, and order as `Equal`. */
  lemma EqAcrossHeapTypes(cfg: Config, d1: Discipline, d2: Discipline, s: seq<byte>, uninit: seq<byte>)
    requires ValidUtf8(s) && |uninit| == cfg.size && FromRefCanBuild(cfg, Str, s)
    ensures Eq(FromStrRef(cfg, d1, s, uninit), FromStrRef(cfg, d2, s, uninit))
    ensures Cmp(FromStrRef(cfg, d1, s, uninit), FromStrRef(cfg, d2, s, uninit)) == Equal
  {
    CompareEqualIff(s, s);
  }

  /** `From<char>`: `from_char`, taken as `from_ref` of the character's
      UTF-8 encoding. A character is never empty, so the result is inline
      when its one to four bytes fit `SIZE` and on the heap otherwise; every
      predefined `SIZE` holds four bytes, so there it is always inline. */
  function FromChar(cfg: Config, d: Discipline, c: char, uninit: seq<byte>): (r: FlexStrInner)
    requires |uninit| == cfg.size
    requires VariantSizesAreValid(cfg) && InlineSizeIsValid(cfg.size)
    ensures IsFlexStr(r) && EqStr(r, EncodeChar(c))
    ensures IsInline(r) <==> |EncodeChar(c)| <= cfg.size
    ensures IsHeap(r) <==> |EncodeChar(c)| > cfg.size
    ensures cfg.size >= 4 ==> IsInline(r)
  {
    EncodeCharValid(c);
    FromStrRef(cfg, d, EncodeChar(c), uninit)
  }
}
