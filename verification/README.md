# flexstr in Dafny

A model of the core of the Rust crate `flexstr`, an immutable string type
that chooses its own storage. It keeps short text inline in a
`String`-sized value, puts long text on the heap behind `Rc`/`Arc`, and
wraps `'static` literals and borrowed references without copying. The
repository holds three generations of the crate side by side. Each is
modelled in its own modules.

- **The const-generic union** (`flexstr/src`). `FlexStrInner` is a union of
  Static, Inline, Heap and Borrow fields, each ending in a `StorageType`
  marker. It is generic over the string kind (`str`, `[u8]`, `CStr`).
  - Modules: `FlexKinds` (the per-kind `Str` rules), `FlexStorage` (the
    storage structs and their size checks, for a 64-bit target),
    `FlexInner` (the union), `FlexStatic` (static constructors),
    `FlexCStrOld` (the earlier `CStr` file), `FlexImpls` (the std trait
    impls) and `FlexBuilder` (the formatting builder).
- **The kind-generic types** (`src/`, `inline_flexstr/`, `flexstr_support/`).
  These are built on `INLINE_CAPACITY` = 22 bytes.
  - Modules: `SupportBytes` (byte views and `StringLike` defaults),
    `InlineCodec` (the inline buffer), `InlineCStr` and `InlineStrConv` (the
    fallible inline constructors) and `FlexConv` (the conversions into
    `FlexStr`).
- **The older builder and `ToFlex` generation** (`src/builder.rs`,
  `src/format.rs`, `src/traits.rs`).
  - Modules: `LegacyBuilder`, `FormatBuilder` and `LegacyFlex`.

Shared modules:

- `RustTypes`: `Option`, `Result` and `Ordering`, with a byte newtype.
- `Utf8`: the well-formed UTF-8 grammar of section 4 of RFC 3629, `from_utf8` with its `valid_up_to`, and `char` encoding as in section 3 of RFC 3629.
- `NulScan`: the first-NUL search behind every C-string check.
- `ByteOrder`: the lexicographic order of `str`.
- `BoundedBuffer`: the fixed-capacity stack buffer of the builders.
- `OwnedString`: `String` with its capacity.

A value of any kind is modelled by its bytes, as follows:

- the raw storage of the first generation includes a `CStr`'s terminating NUL;
- the `as_bytes` view of the newer one leaves it out.

Lengths are unbounded naturals. Where the source casts to `u8`, the cast is
written out, and the size checks that make it lossless become
preconditions. A panic on bytes a kind rejects is modelled as `None`.

## Model

| member | source | states |
|---|---|---|
| NulScan.FirstNul | flexstr/src/string/c_str/mod.rs:117-128 | the position found holds a NUL with none before it; there is no position exactly when the bytes hold no NUL |
| NulScan.FirstNulUnique | flexstr/src/string/c_str/mod.rs:121-126 | any NUL with no NUL before it is the position the scan reports |
| NulScan.IsCStrShape | flexstr/src/string/c_str/mod.rs:130-137 | "first NUL is the last byte" is the same as "non-empty, NUL-terminated, no interior NUL" |
| NulScan.ScanFirstNul | flexstr/src/string/c_str/mod.rs:117-128 | the `while idx < s.len()` loop with its `break` finds exactly the first NUL |
| FlexKinds.EmptyConst | flexstr/src/string/c_str/mod.rs:17 | each kind's `EMPTY` is well formed and has the length that kind's `empty()` treats as empty (1 for `b"\0"`) |
| FlexKinds.Length | flexstr/src/string/c_str/mod.rs:51-56 | the storage length in bytes, which for a `CStr` counts the trailing NUL |
| FlexKinds.Empty | flexstr/src/string/c_str/mod.rs:41-56 | `empty()` is `Some` exactly when `length` is 0, or 1 for a `CStr`, whose length counts the NUL (the older flexstr/src/string/c_str.rs:37-52 is the same code) |
| FlexKinds.EmptyIsSameValue | flexstr/src/inner.rs:140-143 | substituting the static `EMPTY` in `from_ref` never changes a well-formed value |
| FlexKinds.TextBytes | flexstr/src/string/c_str/mod.rs:51-61 | a `CStr`'s storage is its NUL-free text plus the terminator; other kinds store their text as is (likewise the older flexstr/src/string/c_str.rs:47-52) |
| FlexKinds.TryFromRaw | flexstr/src/string/c_str/mod.rs:113-141 | Ok exactly when the first NUL is last; `NoNulByteFound` exactly when there is no NUL (empty slice included); otherwise the position of the first, interior NUL |
| FlexKinds.TryFromRawData | flexstr/src/string/std_str/mod.rs:31-34 | Ok exactly when the bytes are well formed for the kind: UTF-8 for `str`, always for `[u8]`, a C string for `CStr`; the error names the failed check |
| FlexKinds.TryToStr | flexstr/src/string/c_str/mod.rs:74-80 | Ok exactly when the text without the terminator is UTF-8; a `str` is always Ok with itself |
| FlexStorage.RoundUpToWord | flexstr/src/storage/inline.rs:9-20 | the padded size is the least multiple of the word at or above the field sizes |
| FlexStorage.InlineSizeIsValid | flexstr/src/storage/inline.rs:37-44 | `InlineStr::IS_VALID_SIZE`: the word-padded inline struct is at most `u8::MAX` plus the marker plus one byte |
| FlexStorage.InlineSizeIsValidIff | flexstr/src/storage/inline.rs:38-44 | the inline size check admits exactly capacities up to 254 |
| FlexStorage.VariantSizesAreValid | flexstr/src/inner.rs:107-120 | `FlexStrInner::IS_VALID_SIZE`: the heap and borrow fields have the inline field's size and word alignment |
| FlexStorage.StringSizedIsValid | flexstr/src/custom.rs:46-55 | the predefined configuration (22-byte inline, word-minus-one pads, two-word handle) passes both size checks and is three words |
| FlexStorage.OneWordHeapIsRejected | flexstr/src/inner.rs:108-119 | with a one-word heap handle the variant sizes differ, so construction panics |
| FlexStorage.HeapClone | flexstr/src/inner.rs:55-59 | a cloned heap handle has the same discipline and bytes |
| FlexStorage.AsU8 | flexstr/src/storage/inline.rs:81 | `len as u8`: truncation to the low eight bits |
| FlexStorage.AsU8Lossless | flexstr/src/storage/inline.rs:69-84 | under the size check the `len as u8` cast keeps every length up to the capacity |
| FlexStorage.InlineNew | flexstr/src/storage/inline.rs:68-89 | the array's first `len` bytes are the input's, the length byte is `len` and the marker is Inline |
| FlexStorage.InlineTryNew | flexstr/src/storage/inline.rs:54-65 | Ok exactly when `length(s) <= SIZE`, and then reads back `s` with that length; otherwise `s` unchanged |
| FlexInner.StorageQueriesExclusive | flexstr/src/inner.rs:260-281 | each `is_*` query holds exactly for its own field, so exactly one holds |
| FlexInner.FromStatic | flexstr/src/inner.rs:122-131 | under the size check, a static value that reads back its input |
| FlexInner.FromBorrow | flexstr/src/inner.rs:152-160 | under the size check, a borrow value that reads back its input |
| FlexInner.TryInline | flexstr/src/inner.rs:174-179 | Ok exactly when the value fits `SIZE`, then an inline value reading back the input; otherwise the input returned |
| FlexInner.FromRefHeap | flexstr/src/inner.rs:182-190 | a heap value of the requested handle type that reads back the input |
| FlexInner.FromRef | flexstr/src/inner.rs:140-149 | Static exactly for the kind's empty value, Inline exactly for other values that fit, Heap otherwise, never Borrow, content kept |
| FlexInner.Clone | flexstr/src/inner.rs:43-65 | same marker and same content; every field except Heap is copied unchanged |
| FlexInner.Len | flexstr/src/inner.rs:245-257 | every field, the inline one through its own length byte, answers the `length` of `as_str_type` |
| FlexInner.IsEmptyAsWritten | flexstr/src/inner.rs:240-242 | `is_empty` as written: the kind's `length` is 0, which for a `CStr` counts the terminator |
| FlexInner.CStrEmptyIsNotEmptyAsWritten | flexstr/src/inner.rs:240-242 | as written, `is_empty` of the `CStr` `EMPTY` value is false because its length is 1 |
| FlexInner.IsEmpty | flexstr/src/inner.rs:240-242 | corrected `is_empty`: the length is the kind's empty length, 1 for a `CStr` and 0 otherwise |
| FlexInner.IsEmptyMeansNoText | flexstr/src/inner.rs:240-242 | the corrected `is_empty` holds exactly when the text is empty, and agrees with `len() == 0` for `str` and `[u8]` |
| FlexInner.TryAsStaticStr | flexstr/src/inner.rs:193-204 | Ok with the content exactly for a static value; otherwise `expected: Static` and the actual marker |
| FlexInner.TryToStr | flexstr/src/inner.rs:225-228 | Ok exactly when the text without a `CStr` terminator is UTF-8, with that text |
| FlexStatic.EmptyValue | flexstr/src/string/std_str/mod.rs:76-80 | the `EMPTY` constants are static, hold the kind's empty storage and no text |
| FlexStatic.TryFromStaticRawStr | flexstr/src/string/std_str/mod.rs:93-97 | a static value exactly for UTF-8 bytes; otherwise a `Utf8Error` whose valid prefix is UTF-8 |
| FlexStatic.TryFromStaticRawCStr | flexstr/src/string/c_str/mod.rs:163-169 | a static value exactly for C strings; otherwise the scanner's error unchanged |
| FlexCStrOld.TryFromRaw | flexstr/src/string/c_str.rs:92-122 | the same three-way outcome as the later scanner |
| FlexCStrOld.TryFromRawAgrees | flexstr/src/string/c_str.rs:92-122 | the two generations' scanners accept the same bytes and report the same interior position |
| FlexCStrOld.FromStatic | flexstr/src/string/c_str.rs:145-153 | a static value holding the C string |
| FlexCStrOld.TryFromStaticRaw | flexstr/src/string/c_str.rs:166-172 | a static value exactly for C strings; `NoNullByteFound` exactly when there is no NUL; otherwise `InteriorNullByte` at the first NUL, which is not the last byte |
| FlexImpls.Eq | flexstr/src/impls.rs:102-113 | `PartialEq` between any two heap types: equal exactly when the dereferenced texts are equal, whatever the storage variant |
| FlexImpls.Cmp | flexstr/src/impls.rs:248-250 | `Ord::cmp` is `str::cmp`: `Equal` exactly for `Eq` values, and the reverse of the answer with the operands swapped |
| FlexImpls.HashInput | flexstr/src/impls.rs:89-91 | `str::hash` feeds the text's bytes followed by the `0xFF` terminator |
| FlexImpls.PartialCmp | flexstr/src/impls.rs:212-214 | `partial_cmp` always answers; `Equal` exactly for equal values, and swapping the operands reverses the answer |
| FlexImpls.PartialCmpStr | flexstr/src/impls.rs:224-226 | against a `str`: always `Some`, and `Equal` exactly when the texts are equal |
| FlexImpls.CmpConsistentWithEq | flexstr/src/impls.rs:248-250 | `cmp` is `Equal` exactly for equal values, reverses under swapping, and `Less` is transitive |
| FlexImpls.HashConsistentWithEq | flexstr/src/impls.rs:89-91 | two values hash the same input exactly when they are equal |
| FlexImpls.Default | flexstr/src/impls.rs:328-330 | the static empty string, of length 0 |
| FlexImpls.FromStrRef | flexstr/src/impls.rs:428-430 | equal to the input; static exactly when empty, inline when it fits, heap when longer |
| FlexImpls.FromStr | flexstr/src/impls.rs:339-344 | never fails, and the result equals the input |
| FlexImpls.EqAcrossHeapTypes | flexstr/src/impls.rs:102-113 | the same text under two heap types compares equal both as `eq` and as `cmp` |
| FlexImpls.FromChar | flexstr/src/impls.rs:440-449 | the character's UTF-8 encoding; inline exactly when its one to four bytes fit `SIZE`, otherwise on the heap, so always inline at every `SIZE` of at least 4 |
| BoundedBuffer.New | flexstr/src/builder.rs:26-41 | an empty buffer of the given capacity |
| BoundedBuffer.Write | flexstr/src/builder.rs:91-108 | appends exactly when the free space holds `s`; otherwise nothing changes; the capacity is kept |
| BoundedBuffer.WriteKeepsUtf8 | flexstr/src/builder.rs:111-127 | writing text keeps the buffer's content UTF-8, as its `Deref` to `str` needs |
| BoundedBuffer.ToStringBuffer | flexstr/src/builder.rs:80-88 | a `String` holding the buffer's content, with the requested capacity |
| FlexBuilder.BufferNew | flexstr/src/builder.rs:26-41 | `buffer_new!` gives an empty `BUFFER_SIZE` buffer |
| FlexBuilder.BuilderNew | flexstr/src/builder.rs:197-208 | the stack buffer exactly when no capacity or at most `BUFFER_SIZE` is asked; otherwise a `String` of that capacity |
| FlexBuilder.WriteStr | flexstr/src/builder.rs:160-181 | the content becomes old ++ s; the builder stays in the buffer exactly when it fits; a promotion gets capacity 2·(len+\|s\|) |
| FlexBuilder.CharWrite | flexstr/src/builder.rs:152-155 | appends the character's UTF-8 encoding |
| FlexBuilder.WriteAllAppends | flexstr/src/builder.rs:143-150 | a run of writes appends every piece in order and never leaves the `String` |
| FlexBuilder.BuilderInto | flexstr/src/builder.rs:213-231 | `from_array` exactly when the builder never left its buffer and the content fits `N`; the text is the content on every path |
| FlexBuilder.PromotionExample | flexstr/src/builder.rs:271-286 | 36 bytes stay in the buffer, 1024 more promote, and the result holds both |
| OwnedString.WithCapacity | src/builder.rs:144 | an empty `String` of the given capacity |
| OwnedString.PushStr | src/builder.rs:203 | appends, and never shrinks the capacity |
| SupportBytes.SelfAsBytes | flexstr_support/src/cstr.rs:40-43 | the NUL-free view: UTF-8 for a well-formed `str`, no NUL for a well-formed `CStr` (the default of flexstr_support/src/traits.rs:22-25 returns the raw bytes for other kinds) |
| SupportBytes.SelfAsRawBytes | flexstr_support/src/cstr.rs:40-48 | a `CStr`'s raw bytes are its `as_bytes` plus NUL, other kinds' raw bytes are `as_bytes`; a well-formed value's raw bytes are accepted back |
| SupportBytes.BytesAsSelf | flexstr_support/src/cstr.rs:26-38 | succeeds exactly on raw bytes the kind accepts, with a value whose raw bytes are the input |
| SupportBytes.RawBytesRoundTrip | flexstr_support/src/traits.rs:22-28 | `bytes_as_self(self_as_raw_bytes(v)) == v` for every well-formed value |
| SupportBytes.Len | flexstr_support/src/traits.rs:67-69 | the length of `as_bytes`: one less than the raw bytes for a `CStr` |
| SupportBytes.IsEmpty | flexstr_support/src/traits.rs:62-64 | empty exactly when `len` is 0; a `CStr` is empty exactly when its raw bytes are `b"\0"` |
| SupportBytes.IntoString | flexstr_support/src/traits.rs:107-112 | the owned `String` holds UTF-8 that converts back to the same value |
| SupportBytes.Decimal | flexstr_support/src/cstr.rs:15-19 | the position is printed as non-empty decimal digits with no leading zero |
| SupportBytes.ParseDecimalInverse | flexstr_support/src/cstr.rs:15-19 | the printed digits read back as the number |
| SupportBytes.Message | flexstr_support/src/cstr.rs:15-19 | the message is the fixed prefix followed by digits |
| SupportBytes.MessageRecordsPosition | flexstr_support/src/cstr.rs:9-19 | the position can be read back from the message |
| InlineCodec.FromBytes | src/inline.rs:33-75 | the slice at the front, zeros after it, and the length byte equal to its length |
| InlineCodec.AsRawBytes | src/inline.rs:89-98 | the first `len` bytes of the array |
| InlineCodec.FromBytesRoundTrip | src/inline.rs:89-98 | `as_raw_bytes(from_bytes(s)) == s` |
| InlineCodec.AsBorrowedType | src/inline.rs:101-103 | a well-formed value of the same kind whose raw bytes are the stored ones |
| InlineCodec.AsBytes | src/inline.rs:106-108 | the stored bytes, less the terminator for a `CStr` |
| InlineCodec.Len | src/inline.rs:83-85 | measured on `as_bytes`: the stored length, or one less for a `CStr` |
| InlineCodec.IsEmpty | src/inline.rs:78-80 | empty exactly when `len` is 0, i.e. a stored length of 0, or 1 for a `CStr` |
| InlineCodec.TryFromType | src/inline.rs:22-30 | Ok exactly when the raw bytes fit 22, then borrows back as the same value; otherwise the same reference, which is also what `TryFrom<&CStr>` of src/cstr.rs:92-99 returns |
| InlineCodec.TryFromTypeChecked | inline_flexstr/src/cstr.rs:74-81 | as above, with a failure reported as `TooLongForInlining{length: raw length, inline_capacity: 22}` |
| InlineCodec.Clone | src/inline.rs:113-121 | the clone has the same raw bytes and borrows as the same value |
| InlineCodec.AppendNulZero | inline_flexstr/src/cstr.rs:42-44 | the raw bytes gain one trailing NUL |
| InlineCodec.AsBytesWithNul | src/cstr.rs:39-41 | `as_bytes` plus NUL, which is a C string |
| InlineCStr.FromBytesWithNul | inline_flexstr/src/cstr.rs:55-61 | `CStr::from_bytes_with_nul` is the same three-way scan: Ok exactly for C strings, `NotNulTerminated` exactly without NUL, else the first NUL's position |
| InlineCStr.TryFromBytesWithoutNul | inline_flexstr/src/cstr.rs:40-51 | NUL-free bytes inline exactly when shorter than 22, stored with a NUL appended; otherwise `TooLong{length: \|bytes\|}` |
| InlineCStr.TryFromBytesWithOrWithoutNul | inline_flexstr/src/cstr.rs:54-62 | terminated bytes through `try_from_type`, unterminated ones through `try_from_bytes_without_nul`, an interior NUL an error; its outcomes are stated by the lemma below |
| InlineCStr.TryFromBytesWithOrWithoutNulOutcomes | inline_flexstr/src/cstr.rs:54-62 | Ok exactly for a fitting C string or fitting NUL-free bytes, holding the C-string text; `NulError(p)` exactly when the first NUL is interior at `p`; TooLong carries the input length |
| InlineCStr.TryFromCStr | inline_flexstr/src/cstr.rs:74-81 | Ok exactly when the text leaves room for the NUL, then the same C string; the error carries the raw length |
| InlineCStr.TryFromStr | inline_flexstr/src/cstr.rs:83-99 | `TryFrom<&str>` and `FromStr` are `try_from_bytes_with_or_without_nul` of the string's bytes |
| InlineCStr.UnterminatedExample | inline_flexstr/src/cstr.rs:40-51 | `b"test"` is stored as `b"test\0"` |
| InlineCStr.InteriorNulExample | inline_flexstr/src/cstr.rs:58-60 | `b"te\0st"` reports an interior NUL at position 2 |
| InlineCStr.TooLongExample | inline_flexstr/src/cstr.rs:46-49 | 22 NUL-free bytes are too long, by length 22 against capacity 22 |
| InlineStrConv.TryFromStr | inline_flexstr/src/str.rs:41-48 | Ok exactly when the text fits 22, holding it; otherwise `TooLongForInlining` with its length |
| InlineStrConv.TryFromBytes | inline_flexstr/src/str.rs:50-60 | Ok exactly for UTF-8 that fits; ill-formed bytes give the UTF-8 error whatever their length; only well-formed bytes are too long |
| InlineStrConv.TryFromOsStr | inline_flexstr/src/str.rs:62-73 | Ok exactly when the `OsStr`'s bytes are UTF-8 and fit 22, holding those bytes; ill-formed bytes give the UTF-8 error; the same outcome as the byte conversion |
| InlineStrConv.TryFromPath | inline_flexstr/src/str.rs:76-86 | the same outcome as the byte conversion of the path's bytes |
| InlineStrConv.InvalidLongBytesReportUtf8 | src/str.rs:179-189 | 23 bytes of 0xFF report the UTF-8 error, not the length |
| FlexConv.IntoOwned | src/str.rs:251-257 | an owned value with the same content |
| FlexConv.FromStr | src/str.rs:251-257 | never fails, and the owned result holds the input |
| FlexConv.TryFromBytes | src/str.rs:120-127 | a borrow of the same bytes exactly when they are UTF-8; otherwise an error with a UTF-8 valid prefix |
| FlexConv.TryFromOsStr | src/str.rs:130-137 | a borrow of the `OsStr`'s bytes exactly when they are UTF-8; the same outcome as the byte conversion |
| FlexConv.TryFromPath | src/str.rs:140-146 | a borrow of the path's bytes exactly when they are UTF-8, the same as converting its `OsStr` |
| FlexConv.TryFromVec | src/str.rs:149-156 | owned exactly when UTF-8; otherwise the bytes come back in the error |
| FlexConv.TryFromCString | src/str.rs:158-167 | owned text exactly when the C string's text is UTF-8, with that text; otherwise the C string comes back |
| FlexConv.AsBytesWithNul | src/cstr.rs:31-33 | the raw bytes: the text plus NUL, which convert back to the same C string |
| ByteOrder.CompareEqualIff | flexstr/src/impls.rs:248-250 | byte order answers `Equal` exactly for equal sequences |
| ByteOrder.CompareAntisymmetric | flexstr/src/impls.rs:248-250 | swapping the operands reverses the answer |
| ByteOrder.CompareTransitive | flexstr/src/impls.rs:248-250 | `Less` is transitive |
| ByteOrder.ComparePrefix | flexstr/src/impls.rs:248-250 | a proper prefix orders first |
| Utf8.HeadWidth | flexstr/src/string/std_str/mod.rs:31-34 | the length of the well-formed character at the front, 1 exactly for ASCII |
| Utf8.ValidConcat | flexstr/src/builder.rs:111-127 | the concatenation of two UTF-8 sequences is UTF-8 |
| Utf8.ValidUpTo | flexstr/src/string/c_str/mod.rs:74-80 | `Utf8Error::valid_up_to`: a length within the input, the prefix of well-formed characters read head first |
| Utf8.ValidUpToSpec | flexstr/src/string/c_str/mod.rs:74-80 | `valid_up_to` marks a UTF-8 prefix, and reaches the end exactly for UTF-8 |
| Utf8.FromUtf8 | flexstr/src/string/std_str/mod.rs:31-34 | Ok with the same bytes exactly for UTF-8; the error's valid prefix is UTF-8 and short of the end |
| Utf8.EncodeChar | src/builder.rs:172-175 | one to four bytes, one exactly for ASCII, every byte high otherwise |
| Utf8.EncodeCharValid | src/builder.rs:172-175 | a character's encoding is one well-formed UTF-8 character |
| Utf8.EncodeStringValid | src/traits.rs:126-136 | the encoding of a character sequence is UTF-8 |
| Utf8.AsciiUpperChar | src/traits.rs:129-131 | upper-cases `a`-`z` and keeps every other character |
| Utf8.AsciiLowerChar | src/traits.rs:147-149 | lower-cases `A`-`Z` and keeps every other character |
| Utf8.Map | src/traits.rs:126-136 | a map over bytes or characters keeps the length and maps each element in place |
| Utf8.MapConcat | src/traits.rs:126-136 | an element-wise map distributes over concatenation |
| Utf8.EncodeAsciiUpper | src/traits.rs:129-131 | upper-casing a character is upper-casing its encoded bytes |
| Utf8.EncodeAsciiLower | src/traits.rs:147-149 | lower-casing a character is lower-casing its encoded bytes |
| Utf8.EncodeStringAsciiUpper | src/traits.rs:126-136 | upper-casing the characters is upper-casing the encoded bytes, so the byte length is kept |
| Utf8.EncodeStringAsciiLower | src/traits.rs:144-154 | lower-casing the characters is lower-casing the encoded bytes, so the byte length is kept |
| LegacyBuilder.ToLargeBuffer | src/builder.rs:53-74 | a buffer of the larger capacity holding the same content |
| LegacyBuilder.NewBuilder | src/builder.rs:131-135 | starts Small and empty |
| LegacyBuilder.WithCapacity | src/builder.rs:138-146 | Small exactly up to 22, Regular exactly up to 1024, Large (of that capacity) beyond |
| LegacyBuilder.CreateStringAndWrite | src/builder.rs:148-160 | Large holding old ++ s with capacity 2·(len+\|s\|) |
| LegacyBuilder.WriteStrAsWritten | src/builder.rs:179-205 | never moves back a stage; appends except on the lost Small-to-Regular write, where the content is unchanged |
| LegacyBuilder.AsWrittenDropsWrite | src/builder.rs:184-188 | 10 bytes then a 1020-byte write leaves only the 10 bytes |
| LegacyBuilder.WriteStr | src/builder.rs:179-205 | corrected: always old ++ s; Small exactly when it fits 22, stays Regular exactly when it fits 1024, Large stays Large |
| LegacyBuilder.AsWrittenAgrees | src/builder.rs:184-188 | the written and corrected `write_str` agree exactly when the write is not lost, so on every write up to 1002 bytes |
| LegacyBuilder.CharWrite | src/builder.rs:172-175 | appends the character's encoding (never lost: at most four bytes) |
| LegacyBuilder.PromotionExample | src/builder.rs:260-280 | 4, 51 and 1024 bytes move Small, Regular, Large and keep all of it |
| FormatBuilder.ToLargerBufferAsWritten | src/format.rs:49-68 | as written, the larger buffer reads as empty, whatever was copied |
| FormatBuilder.ToStringBufferAsWritten | src/format.rs:70-90 | as written, the `String` reads as empty, whatever was copied |
| FormatBuilder.WriteStrAsWritten | src/format.rs:136-170 | the written transitions (Small to Regular exactly when \|s\| <= 1024, Regular to Large); without promotion it appends, with one only `s` remains |
| FormatBuilder.AsWrittenLosesPrefix | src/format.rs:142-146 | "test" then 51 bytes leaves Regular holding only the 51 bytes |
| FormatBuilder.AsWrittenLosesPrefixOnHeap | src/format.rs:156-166 | Regular with 100 bytes then a 1024-byte write leaves only the 1024 bytes |
| FormatBuilder.ToLargerBuffer | src/format.rs:49-68 | corrected: the larger buffer holds the same content, as `to_large_buffer` of src/builder.rs does, and differs from the as-written result whenever there was content |
| FormatBuilder.WriteStr | src/format.rs:136-170 | corrected: always old ++ s, never back a stage, Regular or Large by the combined length |
| FormatBuilder.WriteStrMatchesBuilder | src/format.rs:136-170 | corrected, it is the same state machine as the corrected src/builder.rs one |
| FormatBuilder.WriteAll | src/format.rs:199-207 | a run of writes keeps the builder valid |
| FormatBuilder.WriteAllAppends | src/format.rs:199-207 | corrected: a run of corrected writes appends every piece in order and never moves back a stage |
| FormatBuilder.IntoFlexStr | src/format.rs:173-183 | the text written, inline exactly when it fits 22, never static |
| FormatBuilder.ConcatValid | src/format.rs:199-207 | the concatenation of formatted pieces is UTF-8 |
| FormatBuilder.WriteStrAsWrittenSuffix | src/format.rs:136-170 | one write as written leaves a tail of old ++ s, and UTF-8 stays UTF-8 |
| FormatBuilder.WriteAllAsWrittenKeepsSuffix | src/format.rs:199-207 | as written, a run of writes leaves a tail of the full text, never more |
| FormatBuilder.WriteAllAsWrittenValid | src/format.rs:199-207 | as written, a run of UTF-8 writes leaves UTF-8 content |
| FormatBuilder.FormatAsWritten | src/format.rs:199-216 | as written, the result is valid, never static, and its text only ends the concatenation of the pieces |
| FormatBuilder.FormatAsWrittenLosesPrefix | src/format.rs:199-216 | the pieces "test" and 51 more bytes give only the 51 bytes as written, all 55 when corrected |
| FormatBuilder.Format | src/format.rs:199-216 | corrected: from an empty Small builder, the result's text is the concatenation of the pieces, inline exactly when it fits |
| LegacyFlex.StrToFlex | src/traits.rs:204-209 | Inlined exactly when the text fits 22, Heap of the target handle otherwise, same text |
| LegacyFlex.IntoFlex | src/traits.rs:253-265 | the variant and text are kept; only a heap value gets a new handle of the target type |
| LegacyFlex.ToFlex | src/traits.rs:184-186 | clone then `into_flex`: variant and text kept |
| LegacyFlex.IntoFlexRoundTrip | src/traits.rs:253-265 | converting to the other handle type and back gives the value back |
| LegacyFlex.StaticIntoFlex | src/traits.rs:268-280 | a literal becomes the static variant whatever its length |
| LegacyFlex.FromString | src/traits.rs:283-299 | a `String` is inline exactly when it fits, never static |
| LegacyFlex.CharIntoFlex | src/traits.rs:301-316 | a character becomes an inline string of its encoding |
| LegacyFlex.BuilderInto | src/traits.rs:318-326 | a builder converts to its text, never static |
| LegacyFlex.MapIntoBuilder | src/traits.rs:126-136 | the builder loop writes exactly the encoding of the mapped characters |
| LegacyFlex.EncodeStringSnoc | src/traits.rs:129-133 | encoding one more character appends its bytes |
| LegacyFlex.ToAsciiUpper | src/traits.rs:126-136 | the text is the encoded input with ASCII lower-case letters upper-cased and all else kept; inline exactly when it fits |
| LegacyFlex.ToAsciiLower | src/traits.rs:144-154 | the same with upper-case letters lower-cased |
| LegacyFlex.LowerExample | src/traits.rs:138-143 | "TEST" lower-cased is the inline "test" |

## Left out

- Memory layout is not modelled. This covers union punning, `ManuallyDrop`, `MaybeUninit` and padding bytes, and the `size_of` assertions. The size checks appear only as preconditions, for a 64-bit target. Bytes left uninitialised are a caller-supplied parameter.
- Reference counting, `Drop` and the `Rc`/`Arc` atomicity are not modelled. A heap handle is a value holding its bytes.
- Unicode `to_upper` / `to_lower`, `to_string_lossy` and `to_string_type` are left out. They depend on std's character tables and allocation; only the ASCII mappings are modelled.
- `Utf8Error` is modelled by `valid_up_to` only. The `error_len` that `CStr::try_to_str` also copies is left out.
- Serde, ufmt, sqlx, `Debug` / `Display` (except the `InteriorNulError` message), `Index`, `Add` and `FromIterator` are left out as formatting and glue. `From<&FlexStr>` of the first generation is also left out.
- The `OsStr`, `Path` and `BStr` adapters are left out because they are platform wrappers. `OsStr` appears only as its Unix bytes in the `TryFrom<&OsStr>` / `TryFrom<&Path>` conversions.
- The four-variant `FlexStr` of the newer generation has no source in this model. Its `from_borrowed`, `from_owned` and `into_owned` are recorded by which constructor was used and the value passed. `From<String>`, `From<CString>` and `From<Vec<u8>>` hand their input straight to `from_owned`, so they are that record and nothing more.
- `FlexConv.IntoOwned`: states only that the content is kept, not the storage `into_owned` picks, because that code is not part of this model.
- `TooLongForInlining` and `append_nul_zero` come from inline_flexstr/src/inline.rs, which is not part of this model. Their fields and effect are taken from how inline_flexstr/src/cstr.rs uses them.
- The older `MAX_INLINE` is imported from a file that is not part of this model. It is taken as 22, the same `String`-sized capacity.
- The builder `into` conversion of src/traits.rs:318-326 depends on a `From<FlexStrBuilder>` that is not part of this model. It is taken to convert the text as `From<String>` does.
- The `ToFlexStr`, `IntoFlexStr`, `ToAFlexStr` and `IntoAFlexStr` traits of src/traits.rs are `ToFlex` / `IntoFlex` at a fixed handle type, so they are covered by those.
- `IntoAFlexStr for FlexStrBuilder` and `a_format` are covered by `FormatBuilder.IntoFlexStr`, `FormatBuilder.Format` and `FormatBuilder.FormatAsWritten` with the `Arc` handle kind.
- FlexImpls.FromChar: `From<char>` calls `from_char`, which is not part of this model. It is taken to be `from_ref` of the character's UTF-8 encoding. The contract therefore states inline only when the encoding fits `SIZE`; that a `char` is always inline holds only for `SIZE` of at least 4, which every predefined `SIZE` is.
- LegacyFlex.StaticIntoFlex: the `From<&'static str>` it stands for (src/traits.rs:279) is not part of this model. "Static whatever its length" comes from the doc-test at src/traits.rs:268-276.
- LegacyFlex.FromString: the `From<String>` it stands for (src/traits.rs:297) is not part of this model. "Inline exactly when it fits" comes from the doc-test and from the `str` rule of src/traits.rs:204-209.
- LegacyFlex.CharIntoFlex: the `From<char>` it stands for (src/traits.rs:314) is not part of this model. "Always inline" comes from the doc-test at src/traits.rs:305-311.
- The mutable views (`bytes_as_self_mut`) are the identity on the same bytes, as their immutable counterparts are.
- The `from_inline_data` and `from_heap_data` views of `[u8]` are the identity as well.
- `String`'s growth policy beyond "at least what is needed, never smaller" is not modelled as a promise.

## Findings

| source | as written | input that shows it | evidently intended | confidence | as-written member | corrected member |
|---|---|---|---|---|---|---|
| src/builder.rs:184-188 | Small-to-Regular promotion ignores whether `buffer.write(s)` succeeded | Small holding 10 bytes, then a 1020-byte write: 1020 <= 1024 picks Regular, 10 + 1020 > 1024 makes that write fail, and `s` is dropped | go on to `create_string_and_write` when the Regular write fails | high (not executed) | LegacyBuilder.AsWrittenDropsWrite | LegacyBuilder.WriteStr |
| src/format.rs:49-68 | `to_larger_buffer` copies the bytes but never sets the new buffer's `len` | "test" then a 51-byte write: the builder becomes Regular holding only the 51 bytes | set `len` after the copy, as `to_large_buffer` in src/builder.rs does | high (not executed) | FormatBuilder.AsWrittenLosesPrefix | FormatBuilder.ToLargerBuffer |
| src/format.rs:70-90 | `to_string_buffer` copies through a raw pointer into spare capacity but never sets the `String`'s length | Regular holding 100 bytes, then a 1024-byte write: the `String` holds only the 1024 bytes | push the content (or set the length), as src/builder.rs does | high (not executed) | FormatBuilder.AsWrittenLosesPrefixOnHeap | FormatBuilder.WriteStr |
| src/format.rs:199-216 | `format` and `a_format` run the `write_str` of src/format.rs:135-171, so they inherit both copy bugs above | the pieces "test" and 51 more bytes: the result holds only the 51 bytes | the concatenation of every piece | high (not executed) | FormatBuilder.FormatAsWrittenLosesPrefix | FormatBuilder.Format |
| flexstr/src/inner.rs:240-242 | `is_empty` is `len() == 0`, but the `CStr` length counts the terminator | `FlexCStr::EMPTY`: its length is 1, so `is_empty()` is false | compare against the kind's empty length, as `Str::empty` does | medium (not executed) | FlexInner.CStrEmptyIsNotEmptyAsWritten | FlexInner.IsEmptyMeansNoText |
