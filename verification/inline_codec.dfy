/** The inline buffer of the newer generation (src/inline.rs): a fixed array
    of `INLINE_CAPACITY` bytes with a `u8` length, holding the raw bytes of a
    value of any kind (a `CStr`'s terminator included). */
module InlineCodec {
  import opened RustTypes
  import opened NulScan
  import opened SupportBytes

  /** `size_of::<String>()` on a 64-bit target: pointer, capacity, length. */
  const STRING_SIZE: nat := 3 * 8

  /** The array size: a `String` less one byte of length and one of enum
      discriminant. */
  const INLINE_CAPACITY: nat := STRING_SIZE - 2

  /** `InlineStr<S>`: the array, the length byte and the kind marker. */
  datatype InlineStr = InlineStr(kind: StrKind, inline: seq<byte>, len: byte)

  /** What every constructor establishes: a full-size array whose first
      `len` bytes are the raw bytes of a value of the kind. */
  predicate Valid(x: InlineStr) {
    |x.inline| == INLINE_CAPACITY && x.len as int <= INLINE_CAPACITY
    && ValidRaw(x.kind, x.inline[..x.len])
  }

  function Zeros(n: nat): (z: seq<byte>)
    ensures |z| == n && forall i :: 0 <= i < n ==> z[i] == 0
  {
    seq(n, _ => 0)
  }

  /** `from_bytes`, both builds: the slice goes into the front of the array,
      zeros fill the rest, and the length is cast to `u8` (lossless, since the
      callers only pass slices that fit). */
  function FromBytes(kind: StrKind, s: seq<byte>): (r: InlineStr)
    requires |s| <= INLINE_CAPACITY
    ensures r.kind == kind && |r.inline| == INLINE_CAPACITY && r.len as int == |s|
    ensures r.inline[..|s|] == s
    ensures forall i :: |s| <= i < INLINE_CAPACITY ==> r.inline[i] == 0
  {
    var r := InlineStr(kind, s + Zeros(INLINE_CAPACITY - |s|), |s| as byte);
    assert r.inline[..|s|] == s;
    r
  }

  /** `as_raw_bytes`: the first `len` bytes of the array. */
  function AsRawBytes(x: InlineStr): (raw: seq<byte>)
    requires x.len as int <= |x.inline|
    ensures |raw| == x.len as int
    ensures forall i :: 0 <= i < |raw| ==> raw[i] == x.inline[i]
  {
    x.inline[..x.len]
  }

  /** Reading back what `from_bytes` stored gives the bytes that went in. */
  lemma FromBytesRoundTrip(kind: StrKind, s: seq<byte>)
    requires |s| <= INLINE_CAPACITY
    ensures AsRawBytes(FromBytes(kind, s)) == s
    ensures ValidRaw(kind, s) ==> Valid(FromBytes(kind, s))
  {
  }

  /** `as_borrowed_type`: `bytes_as_self` on the raw bytes. */
  function AsBorrowedType(x: InlineStr): (v: StrRef)
    requires Valid(x)
    ensures v.kind == x.kind && WellFormed(v)
    ensures SelfAsRawBytes(v) == AsRawBytes(x)
  {
    BytesAsSelf(x.kind, AsRawBytes(x)).value
  }

  /** `as_bytes`: the kind's `self_as_bytes` view of the borrowed value,
      which leaves out a `CStr`'s terminator. */
  function AsBytes(x: InlineStr): (b: seq<byte>)
    requires Valid(x)
    ensures x.kind != CStr ==> b == AsRawBytes(x)
    ensures x.kind == CStr ==> b + [NUL] == AsRawBytes(x) && NoNul(b)
  {
    SelfAsBytes(AsBorrowedType(x))
  }

  /** `len`: measured on `as_bytes`, so one less than the stored length for
      a `CStr`. */
  function Len(x: InlineStr): (n: nat)
    requires Valid(x)
    ensures x.kind != CStr ==> n == x.len as int
    ensures x.kind == CStr ==> n + 1 == x.len as int
  {
    |AsBytes(x)|
  }

  /** `is_empty`: `as_bytes` is empty; an inline `CStr` holding only its
      terminator is empty although its stored length is 1. */
  function IsEmpty(x: InlineStr): (b: bool)
    requires Valid(x)
    ensures b <==> Len(x) == 0
    ensures b <==> x.len as int == (if x.kind == CStr then 1 else 0)
  {
    |AsBytes(x)| == 0
  }

  /** `try_from_type`: inline the value's raw bytes when they fit, otherwise
      hand back the same reference. */
  function TryFromType(v: StrRef): (r: Result<InlineStr, StrRef>)
    requires WellFormed(v)
    ensures r.Ok? <==> |SelfAsRawBytes(v)| <= INLINE_CAPACITY
    ensures r.Err? ==> r.error == v
    ensures r.Ok? ==> Valid(r.value) && r.value.kind == v.kind
    ensures r.Ok? ==> AsRawBytes(r.value) == SelfAsRawBytes(v) && AsBorrowedType(r.value) == v
  {
    var bytes := SelfAsRawBytes(v);
    if |bytes| <= INLINE_CAPACITY then
      var x := FromBytes(v.kind, bytes);
      assert AsRawBytes(x) == bytes;
      RawBytesRoundTrip(v);
      Ok(x)
    else Err(v)
  }

  /** `TooLongForInlining`: the raw length that did not fit and the
      capacity it was measured against. */
  datatype TooLongForInlining = TooLongForInlining(length: nat, inlineCapacity: nat)

  /** `try_from_type` of `InlineFlexStr`, which reports a failure as
      `TooLongForInlining` instead of returning the reference. */
  function TryFromTypeChecked(v: StrRef): (r: Result<InlineStr, TooLongForInlining>)
    requires WellFormed(v)
    ensures r.Ok? <==> |SelfAsRawBytes(v)| <= INLINE_CAPACITY
    ensures r.Ok? ==> Valid(r.value) && r.value.kind == v.kind && AsBorrowedType(r.value) == v
    ensures r.Err? ==> r.error == TooLongForInlining(|SelfAsRawBytes(v)|, INLINE_CAPACITY)
  {
    match TryFromType(v)
    case Ok(x) => Ok(x)
    case Err(_) => Err(TooLongForInlining(|SelfAsRawBytes(v)|, INLINE_CAPACITY))
  }

  /** `clone`: copies the array and the length, so the clone reads back the
      same raw bytes and borrows as the same value. */
  function Clone(x: InlineStr): (r: InlineStr)
    requires Valid(x)
    ensures Valid(r) && r.kind == x.kind
    ensures AsRawBytes(r) == AsRawBytes(x) && AsBorrowedType(r) == AsBorrowedType(x)
  {
    InlineStr(x.kind, x.inline, x.len)
  }

  /** `append_nul_zero` of `InlineFlexStr<CStr>`: writes a 0 just past the
      stored bytes and counts it. */
  function AppendNulZero(x: InlineStr): (r: InlineStr)
    requires |x.inline| == INLINE_CAPACITY && x.len as int < INLINE_CAPACITY
    ensures r.kind == x.kind && |r.inline| == INLINE_CAPACITY
    ensures r.len as int == x.len as int + 1
    ensures AsRawBytes(r) == AsRawBytes(x) + [NUL]
  {
    var r := InlineStr(x.kind, x.inline[x.len as int := NUL], x.len + 1);
    assert AsRawBytes(r) == AsRawBytes(x) + [NUL];
    r
  }

  /** `as_bytes_with_nul` of an inline `CStr` (src/cstr.rs and
      inline_flexstr/src/cstr.rs): the raw bytes, terminator included. */
  function AsBytesWithNul(x: InlineStr): (b: seq<byte>)
    requires Valid(x) && x.kind == CStr
    ensures b == AsBytes(x) + [NUL]
    ensures IsCStr(b)
  {
    AsRawBytes(x)
  }
}
