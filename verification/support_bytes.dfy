/** The byte views of the support crate (flexstr_support): the
    `StringToFromBytes` conversions between a string type and its bytes, the
    `StringLike` length defaults built on them, and `InteriorNulError`.
    A borrowed string is modelled by its kind and its NUL-free `as_bytes`
    view; the raw view of a `CStr` adds the terminator back. */
module SupportBytes {
  import opened RustTypes
  import opened Utf8
  import opened NulScan

  /** The string types of the newer generation: `str`, `[u8]` and `CStr`. */
  datatype StrKind = Str | Bytes | CStr

  /** A borrowed `&S`, by the bytes `self_as_bytes` returns for it. */
  datatype StrRef = StrRef(kind: StrKind, text: seq<byte>)

  /** The type invariant of each kind: a `str` holds UTF-8, a `CStr` holds no
      NUL before its terminator, a `[u8]` holds anything. */
  predicate WellFormed(v: StrRef) {
    match v.kind
    case Str => ValidUtf8(v.text)
    case Bytes => true
    case CStr => NoNul(v.text)
  }

  /** The raw bytes of a kind that `bytes_as_self` accepts. */
  predicate ValidRaw(kind: StrKind, raw: seq<byte>) {
    match kind
    case Str => ValidUtf8(raw)
    case Bytes => true
    case CStr => IsCStr(raw)
  }

  /** `self_as_bytes`: the default returns the raw bytes; `CStr` overrides it
      with `to_bytes`, which stops before the terminator. */
  function SelfAsBytes(v: StrRef): (b: seq<byte>)
    ensures WellFormed(v) && v.kind == Str ==> ValidUtf8(b)
    ensures WellFormed(v) && v.kind == CStr ==> NoNul(b)
  {
    v.text
  }

  /** `self_as_raw_bytes`: `as_bytes` of a `str`, the slice itself for
      `[u8]`, `to_bytes_with_nul` for a `CStr`. */
  function SelfAsRawBytes(v: StrRef): (raw: seq<byte>)
    ensures v.kind != CStr ==> raw == SelfAsBytes(v)
    ensures v.kind == CStr ==> raw == SelfAsBytes(v) + [NUL]
    ensures WellFormed(v) ==> ValidRaw(v.kind, raw)
  {
    if v.kind == CStr then
      var raw := v.text + [NUL];
      assert raw[..|raw| - 1] == v.text;
      IsCStrShape(raw);
      raw
    else v.text
  }

  /** `bytes_as_self` in its checked build: `str::from_utf8(..).expect(..)`,
      the slice itself, `CStr::from_bytes_with_nul(..).expect(..)`. `None`
      stands for the panic on bytes the kind rejects. */
  function BytesAsSelf(kind: StrKind, raw: seq<byte>): (r: Option<StrRef>)
    ensures r.Some? <==> ValidRaw(kind, raw)
    ensures r.Some? ==> r.value.kind == kind && WellFormed(r.value) && SelfAsRawBytes(r.value) == raw
  {
    match kind
    case Str => if ValidUtf8(raw) then Some(StrRef(Str, raw)) else None
    case Bytes => Some(StrRef(Bytes, raw))
    case CStr =>
      IsCStrShape(raw);
      if IsCStr(raw) then
        assert raw == raw[..|raw| - 1] + [NUL];
        Some(StrRef(CStr, raw[..|raw| - 1]))
      else None
  }

  /** The raw view identifies a well-formed value: converting it back gives
      the same value, so `bytes_as_self` inverts `self_as_raw_bytes`. */
  lemma RawBytesRoundTrip(v: StrRef)
    requires WellFormed(v)
    ensures BytesAsSelf(v.kind, SelfAsRawBytes(v)) == Some(v)
  {
    var raw := SelfAsRawBytes(v);
    var r := BytesAsSelf(v.kind, raw);
    assert r.Some?;
    if v.kind == CStr {
      assert r.value.text + [NUL] == v.text + [NUL];
      assert r.value.text == (r.value.text + [NUL])[..|r.value.text|];
    }
  }

  /** `StringLike::len`: the length of `as_bytes`, so a `CStr` measures one
      less than its raw bytes. */
  function Len(v: StrRef): (n: nat)
    ensures v.kind == CStr ==> n == |SelfAsRawBytes(v)| - 1
    ensures v.kind != CStr ==> n == |SelfAsRawBytes(v)|
  {
    |SelfAsBytes(v)|
  }

  /** `StringLike::is_empty`: whether `as_bytes` is empty; the empty `CStr`
      is the one whose raw bytes are just `b"\0"`. */
  function IsEmpty(v: StrRef): (b: bool)
    ensures b <==> Len(v) == 0
    ensures v.kind == CStr ==> (b <==> SelfAsRawBytes(v) == [NUL])
  {
    |SelfAsBytes(v)| == 0
  }

  /** `StringLike::to_string` / `into_string` on a `str`: the owned
      `String` holds the same bytes, which stay UTF-8. */
  function IntoString(v: StrRef): (s: seq<byte>)
    requires v.kind == Str && WellFormed(v)
    ensures ValidUtf8(s)
    ensures BytesAsSelf(Str, s) == Some(v)
  {
    RawBytesRoundTrip(v);
    SelfAsRawBytes(v)
  }

  /** `InteriorNulError`: the position of a NUL byte found before the end. */
  datatype InteriorNulError = InteriorNulError(position: nat)

  const MessagePrefix: string := "Interior NUL byte found at position "

  predicate IsDigits(s: string) {
    forall i :: 0 <= i < |s| ==> '0' <= s[i] <= '9'
  }

  function DigitChar(d: nat): (c: char)
    requires d < 10
    ensures '0' <= c <= '9' && c as int - '0' as int == d
  {
    (48 + d) as char
  }

  /** The decimal rendering `{}` gives a `usize`: no leading zero, at least
      one digit. */
  function Decimal(n: nat): (s: string)
    ensures |s| > 0 && IsDigits(s)
    ensures s[0] == '0' <==> n == 0
    decreases n
  {
    if n < 10 then [DigitChar(n)] else Decimal(n / 10) + [DigitChar(n % 10)]
  }

  /** Reading a digit string back as a number. */
  function ParseDecimal(s: string): nat
    requires IsDigits(s)
  {
    if |s| == 0 then 0
    else ParseDecimal(s[..|s| - 1]) * 10 + (s[|s| - 1] as int - '0' as int)
  }

  lemma {:induction false} ParseDecimalInverse(n: nat)
    ensures ParseDecimal(Decimal(n)) == n
    decreases n
  {
    if n >= 10 {
      var s := Decimal(n);
      assert s[..|s| - 1] == Decimal(n / 10);
      ParseDecimalInverse(n / 10);
    }
  }

  /** The `Display` text of `InteriorNulError`. */
  function Message(e: InteriorNulError): (m: string)
    ensures |m| > |MessagePrefix| && m[..|MessagePrefix|] == MessagePrefix
    ensures IsDigits(m[|MessagePrefix|..])
  {
    var m := MessagePrefix + Decimal(e.position);
    assert m[|MessagePrefix|..] == Decimal(e.position);
    m
  }

  /** The message carries the position: the digits after the fixed prefix
      read back as it, so distinct positions give distinct messages. */
  lemma MessageRecordsPosition(e: InteriorNulError)
    ensures ParseDecimal(Message(e)[|MessagePrefix|..]) == e.position
  {
    assert Message(e)[|MessagePrefix|..] == Decimal(e.position);
    ParseDecimalInverse(e.position);
  }
}
