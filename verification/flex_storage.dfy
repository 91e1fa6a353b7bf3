/** The three storage structs of a `FlexStrInner` (flexstr/src/storage) and
    the layout arithmetic its size checks perform, for a 64-bit target. */
module FlexStorage {
  import opened RustTypes
  import opened FlexKinds

  /** `StorageType`, the marker byte every union field ends with. */
  datatype StorageType = Static | Inline | Heap | Borrow

  /** Pointer width in bytes (`target_pointer_width = "64"`). */
  const WORD: nat := 8

  /** `size_of::<String>() - 2` (`STRING_SIZED_INLINE`). */
  const STRING_SIZED_INLINE: nat := 3 * WORD - 2

  /** `size_of::<*const ()>() - 1` (`PTR_SIZED_PAD`). */
  const PTR_SIZED_PAD: nat := WORD - 1

  /** `n` rounded up to a multiple of the word, as a word-aligned `repr(C)`
      struct is padded. */
  function RoundUpToWord(n: nat): (r: nat)
    ensures r >= n && r % WORD == 0 && r < n + WORD
  {
    ((n + WORD - 1) / WORD) * WORD
  }

  /** The layout parameters of one `FlexStrInner` instantiation: the inline
      capacity `SIZE`, the paddings `BPAD` and `HPAD`, and the size and
      alignment of the `HEAP` handle. */
  datatype Config = Config(size: nat, bpad: nat, hpad: nat, heapSize: nat, heapAlign: nat)

  /** `InlineStr<SIZE>`: `SIZE` data bytes, the `u8` length and the marker,
      aligned to a word. */
  function InlineStrSize(size: nat): nat { RoundUpToWord(size + 2) }

  /** `HeapStr<HPAD, HEAP>` is aligned to the larger of a word and the
      handle's alignment; when that is a word, its size is the handle, the
      pad and the marker rounded up to a word. */
  function HeapStrAlign(cfg: Config): nat { if cfg.heapAlign > WORD then cfg.heapAlign else WORD }

  function WordAlignedHeapStrSize(cfg: Config): nat { RoundUpToWord(cfg.heapSize + cfg.hpad + 1) }

  /** `BorrowStr<BPAD, &STR>`: a two-word reference, the pad and the marker. */
  function BorrowStrSize(cfg: Config): nat { RoundUpToWord(2 * WORD + cfg.bpad + 1) }

  /** `InlineStr::IS_VALID_SIZE`: the struct fits in `u8::MAX` plus the marker
      plus one byte. */
  predicate InlineSizeIsValid(size: nat) {
    InlineStrSize(size) <= 255 + 1 + 1
  }

  /** The inline check admits exactly the capacities up to 254: one below the
      255 its panic message names, because the struct is padded to a word. */
  lemma InlineSizeIsValidIff(size: nat)
    ensures InlineSizeIsValid(size) <==> size <= 254
  {
  }

  /** `FlexStrInner::IS_VALID_SIZE`: the heap and borrow fields have exactly
      the alignment (a word) and the size of the inline field. */
  predicate VariantSizesAreValid(cfg: Config) {
    HeapStrAlign(cfg) == WORD
    && WordAlignedHeapStrSize(cfg) == InlineStrSize(cfg.size)
    && BorrowStrSize(cfg) == InlineStrSize(cfg.size)
  }

  /** The configuration of the predefined types (`TwoWordHeapStringSize`):
      `String`-sized inline storage, word-minus-one paddings and a two-word
      heap handle such as `Rc<str>`. */
  const STRING_SIZED: Config :=
    Config(STRING_SIZED_INLINE, PTR_SIZED_PAD, PTR_SIZED_PAD, 2 * WORD, WORD)

  lemma StringSizedIsValid()
    ensures VariantSizesAreValid(STRING_SIZED)
    ensures InlineSizeIsValid(STRING_SIZED.size)
    ensures InlineStrSize(STRING_SIZED.size) == 3 * WORD
  {
  }

  /** With the predefined paddings a one-word heap handle does not fit the
      union: construction panics. */
  lemma OneWordHeapIsRejected()
    ensures !VariantSizesAreValid(STRING_SIZED.(heapSize := WORD))
  {
  }

  /** `BorrowStr`: a reference to the value plus the marker; `from_static`
      and `from_borrow` differ only in the marker. */
  datatype BorrowStr = BorrowStr(str: seq<byte>, marker: StorageType)

  function BorrowFromStatic(s: seq<byte>): BorrowStr { BorrowStr(s, Static) }

  function BorrowFromBorrow(s: seq<byte>): BorrowStr { BorrowStr(s, Borrow) }

  /** Which `HEAP` handle type holds the heap value. */
  datatype Discipline = Rc | Arc | Box

  /** A `HEAP` handle: an owner of a heap copy of the value. */
  datatype HeapHandle = HeapHandle(discipline: Discipline, bytes: seq<byte>)

  /** `HEAP::clone`: a reference-counted handle shares the allocation and a
      box copies it; either way the clone holds the same bytes. */
  function HeapClone(h: HeapHandle): (r: HeapHandle)
    ensures r.discipline == h.discipline && r.bytes == h.bytes
  {
    h
  }

  /** `HeapStr`: a heap handle plus the marker. */
  datatype HeapStr = HeapStr(heap: HeapHandle, marker: StorageType)

  function HeapFromHeap(t: HeapHandle): HeapStr { HeapStr(t, Heap) }

  /** `HeapStr::from_ref`: a new handle of the given discipline owning a copy
      of `s`. */
  function HeapFromRef(d: Discipline, s: seq<byte>): HeapStr { HeapFromHeap(HeapHandle(d, s)) }

  /** `InlineStr<SIZE>`: the `SIZE`-byte array (only the first `len` bytes
      initialised), the `u8` length and the marker. */
  datatype InlineStr = InlineStr(data: seq<byte>, len: byte, marker: StorageType)

  /** `len as u8`: truncation to the low eight bits. */
  function AsU8(n: nat): byte { (n % 256) as byte }

  /** The cast cannot lose bits for a length within a valid capacity. */
  lemma AsU8Lossless(size: nat, n: nat)
    requires InlineSizeIsValid(size) && n <= size
    ensures AsU8(n) as nat == n
  {
    InlineSizeIsValidIff(size);
  }

  /** `InlineStr::new`: copy the first `len` bytes of `s` over an array whose
      other bytes are whatever `uninit` holds. */
  function InlineNew(size: nat, s: seq<byte>, len: nat, uninit: seq<byte>): (r: InlineStr)
    requires len <= |s| && len <= size && |uninit| == size
    requires InlineSizeIsValid(size)
    ensures |r.data| == size && r.len as nat == len && r.marker == Inline
    ensures r.data[..len] == s[..len]
  {
    AsU8Lossless(size, len);
    InlineStr(s[..len] + uninit[len..], AsU8(len), Inline)
  }

  /** `InlineStr::len`. */
  function InlineLen(i: InlineStr): nat { i.len as nat }

  /** `InlineStr::as_str_type`: the initialised prefix. */
  function InlineAsStrType(i: InlineStr): seq<byte>
    requires i.len as nat <= |i.data|
  {
    i.data[..i.len]
  }

  /** `InlineStr::try_new`: copies `s` when its length fits the capacity and
      hands it back unchanged otherwise. The size check only runs, and can
      only panic, on the copying path. */
  function InlineTryNew(size: nat, kind: Kind, s: seq<byte>, uninit: seq<byte>): (r: Result<InlineStr, seq<byte>>)
    requires |uninit| == size
    requires Length(kind, s) <= size ==> InlineSizeIsValid(size)
    ensures r.Ok? <==> Length(kind, s) <= size
    ensures r.Ok? ==> |r.value.data| == size && r.value.marker == Inline
    ensures r.Ok? ==> InlineLen(r.value) == Length(kind, s) && InlineAsStrType(r.value) == s
    ensures r.Err? ==> r.error == s
  {
    var len := Length(kind, s);
    if len <= size then Ok(InlineNew(size, s, len, uninit)) else Err(s)
  }
}
