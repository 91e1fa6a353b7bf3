/** `FlexStrInner` (flexstr/src/inner.rs): a union of four struct fields that
    all end in a `StorageType` marker at the same offset. The model keeps the
    active field as the datatype variant and reads the marker from it, so an
    operation can branch on the marker exactly as the source does. */
module FlexInner {
  import opened RustTypes
  import opened FlexKinds
  import opened FlexStorage
  import Utf8

  datatype FlexStrInner =
    | StaticField(static_str: BorrowStr)
    | InlineField(inline_str: InlineStr)
    | HeapField(heap_str: HeapStr)
    | BorrowField(borrow_str: BorrowStr)

  /** The marker byte, read through whichever field is active. */
  function Marker(x: FlexStrInner): StorageType {
    match x
    case StaticField(b) => b.marker
    case InlineField(i) => i.marker
    case HeapField(h) => h.marker
    case BorrowField(b) => b.marker
  }

  /** The union's safety invariant: the marker names the active field, and
      an inline field's length lies within its array. */
  predicate Valid(x: FlexStrInner) {
    match x
    case StaticField(b) => b.marker == Static
    case InlineField(i) => i.marker == Inline && i.len as nat <= |i.data|
    case HeapField(h) => h.marker == Heap
    case BorrowField(b) => b.marker == Borrow
  }

  predicate IsStatic(x: FlexStrInner) { Marker(x) == Static }
  predicate IsInline(x: FlexStrInner) { Marker(x) == Inline }
  predicate IsHeap(x: FlexStrInner) { Marker(x) == Heap }
  predicate IsBorrow(x: FlexStrInner) { Marker(x) == Borrow }

  /** Exactly one storage query holds of a valid value, and it names the
      active field. */
  lemma StorageQueriesExclusive(x: FlexStrInner)
    requires Valid(x)
    ensures IsStatic(x) <==> x.StaticField?
    ensures IsInline(x) <==> x.InlineField?
    ensures IsHeap(x) <==> x.HeapField?
    ensures IsBorrow(x) <==> x.BorrowField?
  {
  }

  /** `as_str_type`: the value the active field holds. */
  function AsStrType(x: FlexStrInner): seq<byte>
    requires Valid(x)
  {
    match Marker(x)
    case Static => x.static_str.str
    case Inline => InlineAsStrType(x.inline_str)
    case Heap => x.heap_str.heap.bytes
    case Borrow => x.borrow_str.str
  }

  /** `from_static`: wraps a `'static` reference; panics unless the variant
      sizes are valid. */
  function FromStatic(cfg: Config, s: seq<byte>): (r: FlexStrInner)
    requires VariantSizesAreValid(cfg)
    ensures Valid(r) && IsStatic(r) && AsStrType(r) == s
  {
    StaticField(BorrowFromStatic(s))
  }

  /** `from_borrow`: wraps a borrowed reference. */
  function FromBorrow(cfg: Config, s: seq<byte>): (r: FlexStrInner)
    requires VariantSizesAreValid(cfg)
    ensures Valid(r) && IsBorrow(r) && AsStrType(r) == s
  {
    BorrowField(BorrowFromBorrow(s))
  }

  /** `try_inline`: an inline value when `s` fits `SIZE` bytes, otherwise
      `s` handed back. Both size checks only run on the inline path. */
  function TryInline(cfg: Config, kind: Kind, s: seq<byte>, uninit: seq<byte>): (r: Result<FlexStrInner, seq<byte>>)
    requires |uninit| == cfg.size
    requires Length(kind, s) <= cfg.size ==> InlineSizeIsValid(cfg.size) && VariantSizesAreValid(cfg)
    ensures r.Ok? <==> Length(kind, s) <= cfg.size
    ensures r.Ok? ==> Valid(r.value) && IsInline(r.value) && AsStrType(r.value) == s
    ensures r.Ok? ==> |r.value.inline_str.data| == cfg.size
    ensures r.Err? ==> r.error == s
  {
    match InlineTryNew(cfg.size, kind, s, uninit)
    case Ok(i) => Ok(InlineField(i))
    case Err(s) => Err(s)
  }

  /** `from_ref_heap`: a new `HEAP` handle owning a copy of `s`. */
  function FromRefHeap(cfg: Config, d: Discipline, s: seq<byte>): (r: FlexStrInner)
    requires VariantSizesAreValid(cfg)
    ensures Valid(r) && IsHeap(r) && AsStrType(r) == s
    ensures r.heap_str.heap.discipline == d
  {
    HeapField(HeapFromRef(d, s))
  }

  /** The condition under which `from_ref` cannot panic: valid variant sizes,
      and a valid inline size whenever the inline path is taken. */
  predicate FromRefCanBuild(cfg: Config, kind: Kind, s: seq<byte>) {
    VariantSizesAreValid(cfg)
    && (Empty(kind, s).None? && Length(kind, s) <= cfg.size ==> InlineSizeIsValid(cfg.size))
  }

  /** `from_ref`: the static empty value for an empty input, else inline if
      it fits, else a heap copy. */
  function FromRef(cfg: Config, kind: Kind, d: Discipline, s: seq<byte>, uninit: seq<byte>): (r: FlexStrInner)
    requires WellFormed(kind, s) && |uninit| == cfg.size
    requires FromRefCanBuild(cfg, kind, s)
    ensures Valid(r) && AsStrType(r) == s
    ensures IsStatic(r) <==> Length(kind, s) == EmptyLength(kind)
    ensures IsInline(r) <==> Length(kind, s) != EmptyLength(kind) && Length(kind, s) <= cfg.size
    ensures IsHeap(r) <==> Length(kind, s) != EmptyLength(kind) && Length(kind, s) > cfg.size
    ensures !IsBorrow(r)
    ensures IsHeap(r) ==> r.heap_str.heap.discipline == d
  {
    match Empty(kind, s)
    case Some(empty) =>
      EmptyIsSameValue(kind, s);
      FromStatic(cfg, empty)
    case None =>
      match TryInline(cfg, kind, s, uninit)
      case Ok(v) => v
      case Err(s) => FromRefHeap(cfg, d, s)
  }

  /** `Clone`: the static, inline and borrow fields are copied bit for bit;
      the heap field is rebuilt around a clone of its handle. */
  function Clone(x: FlexStrInner): (r: FlexStrInner)
    requires Valid(x)
    ensures Valid(r) && Marker(r) == Marker(x) && AsStrType(r) == AsStrType(x)
    ensures !IsHeap(x) ==> r == x
  {
    match Marker(x)
    case Static => StaticField(x.static_str)
    case Inline => InlineField(x.inline_str)
    case Heap => HeapField(HeapFromHeap(HeapClone(x.heap_str.heap)))
    case Borrow => BorrowField(x.borrow_str)
  }

  /** `len`: the inline field answers from its own length byte, the others
      from the length of the value they refer to. */
  function Len(kind: Kind, x: FlexStrInner): (n: nat)
    requires Valid(x)
    ensures n == Length(kind, AsStrType(x))
  {
    match Marker(x)
    case Static => Length(kind, x.static_str.str)
    case Inline => InlineLen(x.inline_str)
    case Heap => Length(kind, x.heap_str.heap.bytes)
    case Borrow => Length(kind, x.borrow_str.str)
  }

  /** `is_empty`, as written: `len() == 0`. */
  predicate IsEmptyAsWritten(kind: Kind, x: FlexStrInner)
    requires Valid(x)
  {
    Len(kind, x) == 0
  }

  /** For a C string the length counts the terminator, so `is_empty` as
      written is false even for the kind's own `EMPTY` value. */
  lemma CStrEmptyIsNotEmptyAsWritten(cfg: Config)
    requires VariantSizesAreValid(cfg)
    ensures !IsEmptyAsWritten(CStr, FromStatic(cfg, EmptyConst(CStr)))
    ensures Len(CStr, FromStatic(cfg, EmptyConst(CStr))) == 1
  {
  }

  /** `is_empty` as evidently intended: the value holds no text, which is
      the same test `Str::empty` makes. */
  predicate IsEmpty(kind: Kind, x: FlexStrInner)
    requires Valid(x)
  {
    Len(kind, x) == EmptyLength(kind)
  }

  /** The intended `is_empty` holds exactly when the text bytes are empty,
      for every kind. */
  lemma IsEmptyMeansNoText(kind: Kind, x: FlexStrInner)
    requires Valid(x) && WellFormed(kind, AsStrType(x))
    ensures IsEmpty(kind, x) <==> |TextBytes(kind, AsStrType(x))| == 0
    ensures kind != CStr ==> (IsEmpty(kind, x) <==> IsEmptyAsWritten(kind, x))
  {
  }

  /** `StorageType` mismatch reported by `try_as_static_str`. */
  datatype WrongStorageType = WrongStorageType(expected: StorageType, actual: StorageType)

  /** `try_as_static_str`: the `'static` reference of a static value, and
      otherwise the actual marker. */
  function TryAsStaticStr(x: FlexStrInner): (r: Result<seq<byte>, WrongStorageType>)
    requires Valid(x)
    ensures r.Ok? <==> IsStatic(x)
    ensures r.Ok? ==> r.value == AsStrType(x)
    ensures r.Err? ==> r.error.expected == Static && r.error.actual == Marker(x) && r.error.actual != Static
  {
    match Marker(x)
    case Static => Ok(x.static_str.str)
    case actual => Err(WrongStorageType(Static, actual))
  }

  /** `try_to_str`, forwarded to the kind. */
  function TryToStr(kind: Kind, x: FlexStrInner): (r: Result<seq<byte>, Utf8.Utf8Error>)
    requires Valid(x) && kind != Raw && WellFormed(kind, AsStrType(x))
    ensures r.Ok? <==> Utf8.ValidUtf8(TextBytes(kind, AsStrType(x)))
    ensures r.Ok? ==> r.value == TextBytes(kind, AsStrType(x))
  {
    FlexKinds.TryToStr(kind, AsStrType(x))
  }
}
