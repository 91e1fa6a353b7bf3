/** The three-stage formatting builder of src/builder.rs: a `MAX_INLINE`
    stack buffer (Small), then a `BUFFER_SIZE` stack buffer (Regular), then
    a heap `String` (Large). A write that does not fit moves the builder one
    or two stages on, never back. */
module LegacyBuilder {
  import opened RustTypes
  import opened Utf8
  import opened OwnedString
  import opened BoundedBuffer

  /** `crate::inline::MAX_INLINE`: the inline capacity of the older
      `FlexStr`, a 24-byte `String` less its length and tag bytes. */
  const MAX_INLINE: nat := 22

  const BUFFER_SIZE: nat := 1024

  /** `StringBuffer::to_large_buffer`: a fresh buffer of capacity `n2` with
      the content and length copied over. The source leaves `n2 >= len` to
      its callers. */
  function ToLargeBuffer(b: StringBuffer, n2: nat): (r: StringBuffer)
    requires BoundedBuffer.Valid(b) && Len(b) <= n2
    ensures BoundedBuffer.Valid(r) && r.cap == n2 && r.content == b.content
  {
    if Len(b) != 0 then StringBuffer(n2, b.content) else New(n2)
  }

  /** `FlexStrBuilder`. */
  datatype Builder = Small(small: StringBuffer) | Regular(regular: StringBuffer) | Large(large: RString)

  predicate Valid(b: Builder) {
    match b
    case Small(buf) => BoundedBuffer.Valid(buf) && buf.cap == MAX_INLINE
    case Regular(buf) => BoundedBuffer.Valid(buf) && buf.cap == BUFFER_SIZE
    case Large(st) => OwnedString.Valid(st)
  }

  /** The text written so far. */
  function Content(b: Builder): seq<byte> {
    match b
    case Small(buf) => buf.content
    case Regular(buf) => buf.content
    case Large(st) => st.content
  }

  /** The stage order Small < Regular < Large. */
  function Stage(b: Builder): nat {
    match b
    case Small(_) => 0
    case Regular(_) => 1
    case Large(_) => 2
  }

  /** `FlexStrBuilder::new`: an empty Small buffer. */
  function NewBuilder(): (r: Builder)
    ensures Valid(r) && r.Small? && Content(r) == []
  {
    Small(New(MAX_INLINE))
  }

  /** `with_capacity`: the smallest stage whose buffer holds `cap` bytes,
      or a `String` of capacity `cap`. */
  function WithCapacity(cap: nat): (r: Builder)
    ensures Valid(r) && Content(r) == []
    ensures r.Small? <==> cap <= MAX_INLINE
    ensures r.Regular? <==> MAX_INLINE < cap <= BUFFER_SIZE
    ensures r.Large? <==> BUFFER_SIZE < cap
    ensures r.Large? ==> r.large.capacity == cap
  {
    if cap <= MAX_INLINE then Small(New(MAX_INLINE))
    else if cap <= BUFFER_SIZE then Regular(New(BUFFER_SIZE))
    else Large(OwnedString.WithCapacity(cap))
  }

  /** `create_string_and_write`: the content moves to a `String` with twice
      the capacity now required, and `s` is appended there. */
  function CreateStringAndWrite(buf: StringBuffer, s: seq<byte>): (r: Builder)
    requires BoundedBuffer.Valid(buf)
    ensures Valid(r) && r.Large? && Content(r) == buf.content + s
    ensures r.large.capacity == 2 * (Len(buf) + |s|)
  {
    var requiredCap := Len(buf) + |s|;
    Large(PushStr(ToStringBuffer(buf, requiredCap * 2), s))
  }

  /** The Small-to-Regular move loses the write exactly when the Small
      buffer is short of room, `s` is at most `BUFFER_SIZE` bytes, and the
      content plus `s` exceeds `BUFFER_SIZE`. */
  predicate LosesWrite(b: Builder, s: seq<byte>) {
    b.Small? && |s| <= BUFFER_SIZE && |Content(b)| + |s| > BUFFER_SIZE
  }

  /** `write_str` as written: after promoting Small to Regular it ignores
      whether the write into the Regular buffer took place. */
  function WriteStrAsWritten(b: Builder, s: seq<byte>): (r: Builder)
    requires Valid(b)
    ensures Valid(r) && Stage(r) >= Stage(b)
    ensures !LosesWrite(b, s) ==> Content(r) == Content(b) + s
    ensures LosesWrite(b, s) ==> r.Regular? && Content(r) == Content(b)
  {
    match b
    case Small(buf) =>
      var w := Write(buf, s);
      if w.written then Small(w.buffer)
      else if |s| <= BUFFER_SIZE then
        Regular(Write(ToLargeBuffer(buf, BUFFER_SIZE), s).buffer)
      else CreateStringAndWrite(buf, s)
    case Regular(buf) =>
      var w := Write(buf, s);
      if w.written then Regular(w.buffer) else CreateStringAndWrite(buf, s)
    case Large(st) => Large(PushStr(st, s))
  }

  /** The input that shows the loss: a Small buffer holding 10 bytes, then a
      1020-byte write. Small has no room, 1020 <= `BUFFER_SIZE` picks
      Regular, but 10 + 1020 > 1024, so the Regular write fails too and `s`
      is dropped. */
  lemma AsWrittenDropsWrite(ten: seq<byte>, s: seq<byte>)
    requires |ten| == 10 && |s| == 1020
    ensures var b := Small(StringBuffer(MAX_INLINE, ten));
      Content(WriteStrAsWritten(b, s)) == ten && Content(WriteStrAsWritten(b, s)) != ten + s
  {
    var b := Small(StringBuffer(MAX_INLINE, ten));
    assert LosesWrite(b, s);
    assert |ten + s| != |ten|;
  }

  /** `write_str` as intended: when the Regular buffer cannot take `s`
      either, the content goes on to a `String` as in the other arms. */
  function WriteStr(b: Builder, s: seq<byte>): (r: Builder)
    requires Valid(b)
    ensures Valid(r) && Content(r) == Content(b) + s
    ensures Stage(r) >= Stage(b)
    ensures r.Small? <==> b.Small? && |Content(b)| + |s| <= MAX_INLINE
    ensures b.Regular? && r.Regular? <==> b.Regular? && |Content(b)| + |s| <= BUFFER_SIZE
    ensures b.Large? ==> r.Large?
  {
    match b
    case Small(buf) =>
      var w := Write(buf, s);
      if w.written then Small(w.buffer)
      else if |s| <= BUFFER_SIZE then
        var w2 := Write(ToLargeBuffer(buf, BUFFER_SIZE), s);
        if w2.written then Regular(w2.buffer) else CreateStringAndWrite(buf, s)
      else CreateStringAndWrite(buf, s)
    case Regular(buf) =>
      var w := Write(buf, s);
      if w.written then Regular(w.buffer) else CreateStringAndWrite(buf, s)
    case Large(st) => Large(PushStr(st, s))
  }

  /** The two agree on every write that cannot be lost, in particular on
      every write of at most `BUFFER_SIZE - MAX_INLINE` bytes. */
  lemma AsWrittenAgrees(b: Builder, s: seq<byte>)
    requires Valid(b)
    ensures !LosesWrite(b, s) <==> WriteStrAsWritten(b, s) == WriteStr(b, s)
    ensures |s| <= BUFFER_SIZE - MAX_INLINE ==> !LosesWrite(b, s)
  {
    if LosesWrite(b, s) {
      assert Content(WriteStr(b, s)) != Content(WriteStrAsWritten(b, s)) by {
        assert |Content(b) + s| != |Content(b)|;
      }
    }
  }

  /** `char_write`: `write_char`, i.e. `write_str` of the character's
      UTF-8 encoding. A character is at most four bytes, so the
      as-written `write_str` never loses it. */
  function CharWrite(b: Builder, c: char): (r: Builder)
    requires Valid(b)
    ensures Valid(r) && Content(r) == Content(b) + EncodeChar(c)
    ensures Stage(r) >= Stage(b)
  {
    AsWrittenAgrees(b, EncodeChar(c));
    WriteStrAsWritten(b, EncodeChar(c))
  }

  /** The promotion test of builder.rs: 4 bytes stay Small, 51 more move to
      Regular, `BUFFER_SIZE` more move to Large, and all of it is kept. */
  lemma PromotionExample(w1: seq<byte>, w2: seq<byte>, w3: seq<byte>)
    requires |w1| == 4 && |w2| == 51 && |w3| == BUFFER_SIZE
    ensures var b1 := WriteStrAsWritten(NewBuilder(), w1);
      var b2 := WriteStrAsWritten(b1, w2);
      var b3 := WriteStrAsWritten(b2, w3);
      b1.Small? && b2.Regular? && b3.Large? && Content(b3) == w1 + w2 + w3
  {
    var b1 := WriteStrAsWritten(NewBuilder(), w1);
    var b2 := WriteStrAsWritten(b1, w2);
    assert !LosesWrite(b1, w2);
    assert Content(b2) == w1 + w2;
  }
}
