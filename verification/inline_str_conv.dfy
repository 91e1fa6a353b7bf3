/** The fallible conversions into an inline `str` (inline_flexstr/src/str.rs,
    and the same impls in src/str.rs): text is inlined when it fits, and
    bytes are checked for UTF-8 before their length is. */
module InlineStrConv {
  import opened RustTypes
  import opened Utf8
  import opened SupportBytes
  import opened InlineCodec

  /** `TooLongOrUtf8Error`. */
  datatype TooLongOrUtf8Error = TooLong(tooLong: TooLongForInlining) | BadUtf8(utf8: Utf8Error)

  /** `TryFrom<&str>` (and `FromStr`, which calls the same
      `try_from_type`): text is inlined exactly when its bytes fit. */
  function TryFromStr(s: StrRef): (r: Result<InlineStr, TooLongForInlining>)
    requires s.kind == Str && WellFormed(s)
    ensures r.Ok? <==> |SelfAsBytes(s)| <= INLINE_CAPACITY
    ensures r.Ok? ==> Valid(r.value) && r.value.kind == Str && AsBytes(r.value) == SelfAsBytes(s)
    ensures r.Err? ==> r.error == TooLongForInlining(|SelfAsBytes(s)|, INLINE_CAPACITY)
  {
    TryFromTypeChecked(s)
  }

  /** `TryFrom<&[u8]>`: `str::from_utf8` first, then `try_from_type`, so
      ill-formed bytes are reported as such whatever their length, and only
      well-formed bytes can be too long. */
  function TryFromBytes(b: seq<byte>): (r: Result<InlineStr, TooLongOrUtf8Error>)
    ensures r.Ok? <==> ValidUtf8(b) && |b| <= INLINE_CAPACITY
    ensures r.Ok? ==> Valid(r.value) && r.value.kind == Str && AsBytes(r.value) == b
    ensures !ValidUtf8(b) ==> r == Err(BadUtf8(Utf8Error(ValidUpTo(b))))
    ensures ValidUtf8(b) && |b| > INLINE_CAPACITY ==>
      r == Err(TooLong(TooLongForInlining(|b|, INLINE_CAPACITY)))
  {
    match FromUtf8(b)
    case Ok(t) =>
      (match TryFromStr(StrRef(Str, t))
       case Ok(x) => Ok(x)
       case Err(e) => Err(TooLong(e)))
    case Err(e) => Err(BadUtf8(e))
  }

  /** An `OsStr`, by its bytes (the Unix representation). */
  datatype OsStr = OsStr(bytes: seq<byte>)

  /** A `Path`, by the `OsStr` it wraps. */
  datatype Path = Path(os: OsStr)

  /** `TryFrom<&OsStr>`: `OsStr::to_str` is the same UTF-8 check, done
      before the length check. */
  function TryFromOsStr(o: OsStr): (r: Result<InlineStr, TooLongOrUtf8Error>)
    ensures r.Ok? <==> ValidUtf8(o.bytes) && |o.bytes| <= INLINE_CAPACITY
    ensures r.Ok? ==> Valid(r.value) && r.value.kind == Str && AsBytes(r.value) == o.bytes
    ensures !ValidUtf8(o.bytes) ==> r.Err? && r.error.BadUtf8?
    ensures r == TryFromBytes(o.bytes)
  {
    TryFromBytes(o.bytes)
  }

  /** `TryFrom<&Path>`: the path's `OsStr` converted as above. */
  function TryFromPath(p: Path): (r: Result<InlineStr, TooLongOrUtf8Error>)
    ensures r.Ok? <==> ValidUtf8(p.os.bytes) && |p.os.bytes| <= INLINE_CAPACITY
    ensures r == TryFromBytes(p.os.bytes)
  {
    TryFromOsStr(p.os)
  }

  /** A concrete case of the check order: 23 bytes that are not UTF-8 are
      too long for the array, yet the error reported is the UTF-8 one. */
  lemma InvalidLongBytesReportUtf8()
    ensures TryFromBytes(seq(INLINE_CAPACITY + 1, _ => 0xFF)).error.BadUtf8?
  {
    var b: seq<byte> := seq(INLINE_CAPACITY + 1, _ => 0xFF);
    assert HeadWidth(b) == 0;
    assert !ValidUtf8(b);
  }
}
