/** The inline `CStr` constructors (inline_flexstr/src/cstr.rs): bytes are
    accepted with or without a terminating NUL, an interior NUL is reported
    with its position, and bytes that do not fit are reported as too long. */
module InlineCStr {
  import opened RustTypes
  import opened NulScan
  import opened SupportBytes
  import opened InlineCodec

  /** `core::ffi::FromBytesWithNulError`. */
  datatype FromBytesWithNulError = NotNulTerminated | InteriorNul(position: nat)

  /** `CStr::from_bytes_with_nul`: the same scan as the crate's own
      `try_from_raw` — the first NUL must be the last byte. */
  function FromBytesWithNul(b: seq<byte>): (r: Result<StrRef, FromBytesWithNulError>)
    ensures r.Ok? <==> IsCStr(b)
    ensures r.Ok? ==> r.value.kind == CStr && WellFormed(r.value) && SelfAsRawBytes(r.value) == b
    ensures r == Err(NotNulTerminated) <==> NoNul(b)
    ensures r.Err? && r.error.InteriorNul? ==>
      r.error.position < |b| - 1 && FirstNul(b) == Some(r.error.position)
  {
    match FirstNul(b)
    case Some(p) =>
      if p == |b| - 1 then
        assert b == b[..p] + [NUL];
        Ok(StrRef(CStr, b[..p]))
      else Err(InteriorNul(p))
    case None => Err(NotNulTerminated)
  }

  /** `TooLongOrNulError`. */
  datatype TooLongOrNulError = TooLong(tooLong: TooLongForInlining) | NulError(nul: InteriorNulError)

  /** `try_from_bytes_without_nul`: bytes with no NUL at all are inlined
      with a terminator appended, which needs one spare byte, so they must
      be strictly shorter than the capacity. */
  function TryFromBytesWithoutNul(b: seq<byte>): (r: Result<InlineStr, TooLongOrNulError>)
    requires NoNul(b)
    ensures r.Ok? <==> |b| < INLINE_CAPACITY
    ensures r.Ok? ==> Valid(r.value) && r.value.kind == CStr
    ensures r.Ok? ==> AsBytesWithNul(r.value) == b + [NUL] && AsBytes(r.value) == b
    ensures r.Err? ==> r.error == TooLong(TooLongForInlining(|b|, INLINE_CAPACITY))
  {
    if |b| < INLINE_CAPACITY then
      var x := AppendNulZero(FromBytes(CStr, b));
      FromBytesRoundTrip(CStr, b);
      var raw := AsRawBytes(x);
      assert raw == b + [NUL];
      assert raw[..|raw| - 1] == b;
      IsCStrShape(raw);
      Ok(x)
    else
      Err(TooLong(TooLongForInlining(|b|, INLINE_CAPACITY)))
  }

  /** `try_from_bytes_with_or_without_nul`: terminated bytes go through
      `try_from_type`, unterminated ones through
      `try_from_bytes_without_nul`, and an interior NUL is an error. */
  function TryFromBytesWithOrWithoutNul(b: seq<byte>): (r: Result<InlineStr, TooLongOrNulError>)
  {
    match FromBytesWithNul(b)
    case Ok(c) =>
      (match TryFromTypeChecked(c)
       case Ok(x) => Ok(x)
       case Err(e) => Err(TooLong(e)))
    case Err(NotNulTerminated) => TryFromBytesWithoutNul(b)
    case Err(InteriorNul(p)) => Err(NulError(InteriorNulError(p)))
  }

  /** The C-string text `b` stands for: the bytes before the terminator when
      it has one. */
  function CText(b: seq<byte>): seq<byte> {
    if |b| > 0 && b[|b| - 1] == NUL then b[..|b| - 1] else b
  }

  /** Every outcome of `try_from_bytes_with_or_without_nul`:
      success exactly when the bytes are a C string that fits or are NUL-free
      with room for the terminator, and then the stored C string is the text
      of `b`; an interior NUL is reported at the first NUL's position
      whatever the length; anything else is too long, measured as `|b|`. */
  lemma TryFromBytesWithOrWithoutNulOutcomes(b: seq<byte>)
    ensures var r := TryFromBytesWithOrWithoutNul(b);
      r.Ok? <==> (IsCStr(b) && |b| <= INLINE_CAPACITY) || (NoNul(b) && |b| < INLINE_CAPACITY)
    ensures var r := TryFromBytesWithOrWithoutNul(b);
      r.Ok? ==> Valid(r.value) && r.value.kind == CStr && AsBytes(r.value) == CText(b)
    ensures var r := TryFromBytesWithOrWithoutNul(b);
      r.Ok? ==> AsBytesWithNul(r.value) == CText(b) + [NUL]
    ensures forall p: nat :: TryFromBytesWithOrWithoutNul(b) == Err(NulError(InteriorNulError(p))) <==>
      FirstNul(b) == Some(p) && p < |b| - 1
    ensures var r := TryFromBytesWithOrWithoutNul(b);
      r.Err? && r.error.TooLong? ==> r.error.tooLong == TooLongForInlining(|b|, INLINE_CAPACITY)
  {
    IsCStrShape(b);
    var r := TryFromBytesWithOrWithoutNul(b);
    match FromBytesWithNul(b)
    case Ok(c) =>
      assert c.text == CText(b);
    case Err(NotNulTerminated) =>
      assert CText(b) == b;
    case Err(InteriorNul(p)) =>
  }

  /** `TryFrom<&CStr>`: a C string is inlined by `try_from_type`. */
  function TryFromCStr(c: StrRef): (r: Result<InlineStr, TooLongForInlining>)
    requires c.kind == CStr && WellFormed(c)
    ensures r.Ok? <==> |SelfAsBytes(c)| < INLINE_CAPACITY
    ensures r.Ok? ==> Valid(r.value) && r.value.kind == CStr
    ensures r.Ok? ==> AsBytesWithNul(r.value) == SelfAsRawBytes(c) && AsBorrowedType(r.value) == c
    ensures r.Err? ==> r.error.length == |SelfAsBytes(c)| + 1
  {
    TryFromTypeChecked(c)
  }

  /** `TryFrom<&str>` and `FromStr`: the string's bytes are read as a C
      string with or without terminator. */
  function TryFromStr(s: StrRef): (r: Result<InlineStr, TooLongOrNulError>)
    requires s.kind == Str
    ensures r == TryFromBytesWithOrWithoutNul(SelfAsBytes(s))
    ensures r.Ok? ==> AsBytes(r.value) == CText(SelfAsBytes(s))
  {
    TryFromBytesWithOrWithoutNulOutcomes(SelfAsBytes(s));
    TryFromBytesWithOrWithoutNul(SelfAsBytes(s))
  }

  /** The crate's test example `b"test"`: unterminated, so it gains a
      terminator. */
  lemma UnterminatedExample()
    ensures var r := TryFromBytesWithOrWithoutNul([0x74, 0x65, 0x73, 0x74]);
      r.Ok? && AsBytesWithNul(r.value) == [0x74, 0x65, 0x73, 0x74, 0]
  {
    var test: seq<byte> := [0x74, 0x65, 0x73, 0x74];
    assert NoNul(test);
    TryFromBytesWithOrWithoutNulOutcomes(test);
  }

  /** The crate's test example `b"te\0st"`: the interior NUL is reported at
      position 2. */
  lemma InteriorNulExample()
    ensures TryFromBytesWithOrWithoutNul([0x74, 0x65, 0, 0x73, 0x74]) == Err(NulError(InteriorNulError(2)))
  {
    var inner: seq<byte> := [0x74, 0x65, 0, 0x73, 0x74];
    assert inner[..2] == [0x74, 0x65];
    FirstNulUnique(inner, 2);
  }

  /** The crate's test example of `INLINE_CAPACITY` bytes without a NUL:
      no room for the terminator, so too long by exactly the capacity. */
  lemma TooLongExample()
    ensures TryFromBytesWithOrWithoutNul(seq(INLINE_CAPACITY, _ => 0x78))
      == Err(TooLong(TooLongForInlining(INLINE_CAPACITY, INLINE_CAPACITY)))
  {
    var long: seq<byte> := seq(INLINE_CAPACITY, _ => 0x78);
    assert NoNul(long);
  }
}
