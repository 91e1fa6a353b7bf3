/** The earlier `CStr` kind of flexstr/src/string/c_str.rs: the same vetting
    as the later one, with its own error type and with `try_from_raw` run as
    the `const fn` index loop. */
module FlexCStrOld {
  import opened RustTypes
  import opened NulScan
  import opened FlexKinds
  import opened FlexStorage
  import opened FlexInner

  datatype CStrNullError = NoNullByteFound | InteriorNullByte(pos: nat)

  /** `try_from_raw`: scan for the first NUL, then accept it only as the
      last byte. */
  method TryFromRaw(s: seq<byte>) returns (r: Result<seq<byte>, CStrNullError>)
    ensures r.Ok? <==> IsCStr(s)
    ensures r.Ok? ==> r.value == s
    ensures r == Err(NoNullByteFound) <==> NoNul(s)
    ensures r.Err? && r.error.InteriorNullByte? ==>
      r.error.pos < |s| - 1 && s[r.error.pos] == NUL && NoNul(s[..r.error.pos])
  {
    var pos := ScanFirstNul(s);
    if pos.Some? {
      if pos.value == |s| - 1 {
        r := Ok(s);
      } else {
        r := Err(InteriorNullByte(pos.value));
      }
    } else {
      r := Err(NoNullByteFound);
    }
  }

  /** Both generations of the scanner accept and reject the same inputs and
      report the same interior position. */
  method TryFromRawAgrees(s: seq<byte>) returns (r: Result<seq<byte>, CStrNullError>)
    ensures r.Ok? <==> FlexKinds.TryFromRaw(s).Ok?
    ensures r.Err? && r.error.InteriorNullByte? <==>
      FlexKinds.TryFromRaw(s).Err? && FlexKinds.TryFromRaw(s).error.InteriorNulByte?
    ensures r.Err? && r.error.InteriorNullByte? ==> r.error.pos == FlexKinds.TryFromRaw(s).error.pos
  {
    r := TryFromRaw(s);
    if r.Err? && r.error.InteriorNullByte? {
      FirstNulUnique(s, r.error.pos);
    }
  }

  /** `FlexCStr::from_static`: wraps a `'static` C string. */
  function FromStatic(cfg: Config, s: seq<byte>): (r: FlexStrInner)
    requires VariantSizesAreValid(cfg) && IsCStr(s)
    ensures Valid(r) && IsStatic(r) && AsStrType(r) == s
  {
    FlexInner.FromStatic(cfg, s)
  }

  /** `FlexCStr::try_from_static_raw`. */
  method TryFromStaticRaw(cfg: Config, s: seq<byte>) returns (r: Result<FlexStrInner, CStrNullError>)
    requires VariantSizesAreValid(cfg)
    ensures r.Ok? <==> IsCStr(s)
    ensures r.Ok? ==> Valid(r.value) && IsStatic(r.value) && AsStrType(r.value) == s
    ensures r == Err(NoNullByteFound) <==> NoNul(s)
    ensures r.Err? && r.error.InteriorNullByte? ==>
      r.error.pos < |s| - 1 && FirstNul(s) == Some(r.error.pos)
  {
    var raw := TryFromRaw(s);
    if raw.Err? && raw.error.InteriorNullByte? {
      FirstNulUnique(s, raw.error.pos);
    }
    match raw
    case Ok(v) => r := Ok(FromStatic(cfg, v));
    case Err(e) => r := Err(e);
  }
}
