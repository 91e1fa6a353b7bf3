/** The per-kind constructors of static values (flexstr/src/string): the
    `EMPTY` constants and `try_from_static_raw`, which vets `'static` bytes
    and wraps them without copying. */
module FlexStatic {
  import opened RustTypes
  import opened Utf8
  import opened NulScan
  import opened FlexKinds
  import opened FlexStorage
  import opened FlexInner

  /** `FlexStr::EMPTY`, `FlexRawStr::EMPTY` and `FlexCStr::EMPTY`: the kind's
      empty constant as a static value. */
  function EmptyValue(cfg: Config, kind: Kind): (r: FlexStrInner)
    requires VariantSizesAreValid(cfg)
    ensures Valid(r) && IsStatic(r) && IsEmpty(kind, r)
    ensures AsStrType(r) == EmptyConst(kind) && WellFormed(kind, AsStrType(r))
    ensures |TextBytes(kind, AsStrType(r))| == 0
  {
    FromStatic(cfg, EmptyConst(kind))
  }

  /** `FlexStr::try_from_static_raw`: UTF-8 bytes become a static value, any
      other bytes the `from_utf8` error. */
  function TryFromStaticRawStr(cfg: Config, s: seq<byte>): (r: Result<FlexStrInner, Utf8Error>)
    requires VariantSizesAreValid(cfg)
    ensures r.Ok? <==> ValidUtf8(s)
    ensures r.Ok? ==> Valid(r.value) && IsStatic(r.value) && AsStrType(r.value) == s
    ensures r.Err? ==> r.error.validUpTo < |s| && ValidUtf8(s[..r.error.validUpTo])
  {
    var v :- FromUtf8(s);
    Ok(FromStatic(cfg, v))
  }

  /** `FlexCStr::try_from_static_raw`: NUL-terminated bytes without an
      interior NUL become a static value; otherwise the scanner's error. */
  function TryFromStaticRawCStr(cfg: Config, s: seq<byte>): (r: Result<FlexStrInner, CStrNulError>)
    requires VariantSizesAreValid(cfg)
    ensures r.Ok? <==> IsCStr(s)
    ensures r.Ok? ==> Valid(r.value) && IsStatic(r.value) && AsStrType(r.value) == s
    ensures r.Err? ==> r == Err(TryFromRaw(s).error)
  {
    match TryFromRaw(s)
    case Ok(v) => Ok(FromStatic(cfg, v))
    case Err(e) => Err(e)
  }
}
