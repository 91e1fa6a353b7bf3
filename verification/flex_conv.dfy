/** The conversions into the newer generation's `FlexStr<S, R>` that
    src/str.rs, src/cstr.rs and src/bytes.rs define. They hand their input
    to one of two constructors, `from_borrowed` or `from_owned`, whose
    bodies live outside this model, so a built value is recorded by the
    constructor used and the value passed to it. */
module FlexConv {
  import opened RustTypes
  import opened Utf8
  import opened NulScan
  import opened SupportBytes
  import InlineStrConv

  /** A `FlexStr` as built by the conversions. */
  datatype FlexStr = FromBorrowed(value: StrRef) | FromOwned(value: StrRef)

  /** `into_owned`: an owned value with the same content. */
  function IntoOwned(f: FlexStr): (r: FlexStr)
    ensures r.FromOwned? && r.value == f.value
  {
    FromOwned(f.value)
  }

  /** `FromStr for FlexStr<str>`: `from_borrowed(s).into_owned()`; the
      error type is `Infallible`, so it always succeeds, with the input's
      content. */
  function FromStr(s: StrRef): (r: Result<FlexStr, ()>)
    requires s.kind == Str && WellFormed(s)
    ensures r.Ok? && r.value.FromOwned?
    ensures r.value.value == s
  {
    Ok(IntoOwned(FromBorrowed(s)))
  }

  /** `TryFrom<&[u8]> for FlexStr<str>`: `str::from_utf8` and then a
      borrow of the same bytes. */
  function TryFromBytes(b: seq<byte>): (r: Result<FlexStr, Utf8Error>)
    ensures r.Ok? <==> ValidUtf8(b)
    ensures r.Ok? ==> r.value == FromBorrowed(StrRef(Str, b))
    ensures r.Err? ==> r.error.validUpTo < |b| && ValidUtf8(b[..r.error.validUpTo])
  {
    var t :- FromUtf8(b);
    Ok(FromBorrowed(StrRef(Str, t)))
  }

  /** `TryFrom<&OsStr> for FlexStr<str>`: `OsStr::to_str` is the same
      UTF-8 check, and the borrow is of the same bytes. */
  function TryFromOsStr(o: InlineStrConv.OsStr): (r: Result<FlexStr, Utf8Error>)
    ensures r.Ok? <==> ValidUtf8(o.bytes)
    ensures r.Ok? ==> r.value == FromBorrowed(StrRef(Str, o.bytes))
    ensures r == TryFromBytes(o.bytes)
  {
    TryFromBytes(o.bytes)
  }

  /** `TryFrom<&Path> for FlexStr<str>`: the path's `OsStr` converted as
      above. */
  function TryFromPath(p: InlineStrConv.Path): (r: Result<FlexStr, Utf8Error>)
    ensures r.Ok? <==> ValidUtf8(p.os.bytes)
    ensures r.Ok? ==> r.value == FromBorrowed(StrRef(Str, p.os.bytes))
    ensures r == TryFromOsStr(p.os)
  {
    TryFromOsStr(p.os)
  }

  /** `String::from_utf8`'s `FromUtf8Error`: the rejected bytes and why. */
  datatype FromUtf8Error = FromUtf8Error(bytes: seq<byte>, utf8: Utf8Error)

  /** `TryFrom<Vec<u8>> for FlexStr<str>`: the vector becomes a `String`
      when it is UTF-8 and is then owned; otherwise the bytes come back in
      the error. */
  function TryFromVec(b: seq<byte>): (r: Result<FlexStr, FromUtf8Error>)
    ensures r.Ok? <==> ValidUtf8(b)
    ensures r.Ok? ==> r.value == FromOwned(StrRef(Str, b))
    ensures r.Err? ==> r.error.bytes == b && r.error.utf8.validUpTo < |b|
    ensures r.Err? ==> ValidUtf8(b[..r.error.utf8.validUpTo])
  {
    match FromUtf8(b)
    case Ok(t) => Ok(FromOwned(StrRef(Str, t)))
    case Err(e) => Err(FromUtf8Error(b, e))
  }

  /** `CString::into_string`'s `IntoStringError`: the C string back and
      why it is not text. */
  datatype IntoStringError = IntoStringError(inner: StrRef, utf8: Utf8Error)

  /** `TryFrom<CString> for FlexStr<str>`: the C string's bytes without
      the terminator become a `String` when they are UTF-8. */
  function TryFromCString(c: StrRef): (r: Result<FlexStr, IntoStringError>)
    requires c.kind == CStr && WellFormed(c)
    ensures r.Ok? <==> ValidUtf8(SelfAsBytes(c))
    ensures r.Ok? ==> r.value.FromOwned? && r.value.value.kind == Str
    ensures r.Ok? ==> SelfAsRawBytes(r.value.value) + [NUL] == SelfAsRawBytes(c)
    ensures r.Err? ==> r.error.inner == c
  {
    match FromUtf8(SelfAsBytes(c))
    case Ok(t) => Ok(FromOwned(StrRef(Str, t)))
    case Err(e) => Err(IntoStringError(c, e))
  }

  /** `as_bytes_with_nul` of a `CStr` `FlexStr` (src/cstr.rs): its raw
      bytes, terminator included. */
  function AsBytesWithNul(f: FlexStr): (b: seq<byte>)
    requires f.value.kind == CStr && WellFormed(f.value)
    ensures b == SelfAsBytes(f.value) + [NUL]
    ensures IsCStr(b)
    ensures BytesAsSelf(CStr, b) == Some(f.value)
  {
    RawBytesRoundTrip(f.value);
    SelfAsRawBytes(f.value)
  }
}
