/** The string kinds a `FlexStrInner` can hold (the `Str` trait of
    flexstr/src/string): `str`, raw `[u8]` and `CStr`. A value of a kind is
    modelled by its storage bytes (`as_heap_type`): the UTF-8 bytes of a
    `str`, the bytes of a `[u8]`, and the bytes of a `CStr` including its
    trailing NUL. */
module FlexKinds {
  import opened RustTypes
  import opened Utf8
  import opened NulScan

  datatype Kind = Str | Raw | CStr

  /** The type invariant of each kind's references. */
  predicate WellFormed(kind: Kind, s: seq<byte>) {
    match kind
    case Str => ValidUtf8(s)
    case Raw => true
    case CStr => IsCStr(s)
  }

  /** `Str::length`: the storage length in bytes; for `CStr` it counts the
      trailing NUL. */
  function Length(kind: Kind, s: seq<byte>): nat {
    |s|
  }

  /** The length `Str::empty` treats as empty: 0, or 1 for a `CStr`, whose
      only byte is then its terminator. */
  function EmptyLength(kind: Kind): nat {
    if kind == CStr then 1 else 0
  }

  /** The `EMPTY` constant of each kind: `""`, `b""` and `b"\0"`. */
  function EmptyConst(kind: Kind): (e: seq<byte>)
    ensures WellFormed(kind, e)
    ensures Length(kind, e) == EmptyLength(kind)
  {
    match kind
    case Str => []
    case Raw => []
    case CStr => [NUL]
  }

  /** `Str::empty`: the kind's static empty value when `s` is empty. */
  function Empty(kind: Kind, s: seq<byte>): (r: Option<seq<byte>>)
    ensures r.Some? <==> Length(kind, s) == EmptyLength(kind)
    ensures r.Some? ==> WellFormed(kind, r.value) && Length(kind, r.value) == Length(kind, s)
  {
    if Length(kind, s) == EmptyLength(kind) then Some(EmptyConst(kind)) else None
  }

  /** Substituting the static empty value never changes the content of a
      well-formed value (a one-byte `CStr` can only be `b"\0"`). */
  lemma EmptyIsSameValue(kind: Kind, s: seq<byte>)
    requires WellFormed(kind, s) && Empty(kind, s).Some?
    ensures Empty(kind, s).value == s
  {
    if kind == CStr {
      IsCStrShape(s);
    }
  }

  /** The bytes a value stands for as text: a `CStr` without its terminator
      (`CStr::to_bytes`), every other kind as stored. */
  function TextBytes(kind: Kind, s: seq<byte>): (t: seq<byte>)
    requires WellFormed(kind, s)
    ensures kind == CStr ==> NoNul(t) && s == t + [NUL]
    ensures kind != CStr ==> t == s
  {
    if kind == CStr then
      IsCStrShape(s);
      assert s == s[..|s| - 1] + [NUL];
      s[..|s| - 1]
    else s
  }

  /** The error of the `CStr` kind (c_str/mod.rs). */
  datatype CStrNulError = NoNulByteFound | InteriorNulByte(pos: nat)

  /** `try_from_raw` of c_str/mod.rs: the bytes are a C string exactly when
      the first NUL is the last byte; a NUL earlier is reported with its
      position, no NUL at all (the empty slice included) as missing. */
  function TryFromRaw(s: seq<byte>): (r: Result<seq<byte>, CStrNulError>)
    ensures r.Ok? <==> IsCStr(s)
    ensures r.Ok? ==> r.value == s
    ensures r == Err(NoNulByteFound) <==> NoNul(s)
    ensures r.Err? && r.error.InteriorNulByte? ==>
      r.error.pos < |s| - 1 && s[r.error.pos] == NUL && NoNul(s[..r.error.pos])
  {
    match FirstNul(s)
    case Some(pos) =>
      if pos == |s| - 1 then Ok(s) else Err(InteriorNulByte(pos))
    case None => Err(NoNulByteFound)
  }

  /** The conversion error of each kind (`Str::ConvertError`); `[u8]` has
      none (`Infallible`). */
  datatype ConvertError = BadUtf8(utf8: Utf8Error) | BadNul(nul: CStrNulError)

  /** `Str::try_from_raw_data`: vetting raw bytes as a value of the kind. */
  function TryFromRawData(kind: Kind, bytes: seq<byte>): (r: Result<seq<byte>, ConvertError>)
    ensures r.Ok? <==> WellFormed(kind, bytes)
    ensures r.Ok? ==> r.value == bytes
    ensures kind == Raw ==> r.Ok?
    ensures r.Err? && kind == Str ==> r.error.BadUtf8?
    ensures r.Err? && kind == CStr ==> r.error.BadNul?
  {
    match kind
    case Str =>
      (match FromUtf8(bytes)
       case Ok(v) => Ok(v)
       case Err(e) => Err(BadUtf8(e)))
    case Raw => Ok(bytes)
    case CStr =>
      (match TryFromRaw(bytes)
       case Ok(v) => Ok(v)
       case Err(e) => Err(BadNul(e)))
  }

  /** `Str::try_to_str`: a `str` is already text; a `CStr` is text when its
      bytes without the terminator are UTF-8 (`CStr::to_str`). The `[u8]`
      kind has no such method. */
  function TryToStr(kind: Kind, s: seq<byte>): (r: Result<seq<byte>, Utf8Error>)
    requires kind != Raw && WellFormed(kind, s)
    ensures r.Ok? <==> ValidUtf8(TextBytes(kind, s))
    ensures r.Ok? ==> r.value == TextBytes(kind, s)
    ensures kind == Str ==> r == Ok(s)
  {
    if kind == Str then Ok(s) else FromUtf8(TextBytes(kind, s))
  }
}
