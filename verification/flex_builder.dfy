/** The formatting builder of flexstr/src/builder.rs: writes go to a
    `BUFFER_SIZE` stack buffer while they fit and move to a `String` the
    first time one does not; the result is inline when the buffer's content
    fits the inline capacity `N`. */
module FlexBuilder {
  import opened RustTypes
  import opened Utf8
  import opened OwnedString
  import BoundedBuffer
  import FlexStorage

  const BUFFER_SIZE: nat := 1024

  type StringBuffer = BoundedBuffer.StringBuffer

  /** `buffer_new!`: an empty stack buffer of `BUFFER_SIZE` bytes. */
  function BufferNew(): (r: StringBuffer)
    ensures BoundedBuffer.Valid(r) && r.cap == BUFFER_SIZE && r.content == []
  {
    BoundedBuffer.New(BUFFER_SIZE)
  }

  /** `is_inline_candidate`: the content fits the inline capacity `N`. */
  predicate IsInlineCandidate(b: StringBuffer, n: nat) {
    BoundedBuffer.Len(b) <= n
  }

  /** `FlexStrBuilder`: still in the stack buffer, or promoted to a `String`. */
  datatype FlexStrBuilder = InlineBuffer(buffer: StringBuffer) | StringBuffer(owned: RString)

  predicate Valid(b: FlexStrBuilder) {
    match b
    case InlineBuffer(buf) => BoundedBuffer.Valid(buf)
    case StringBuffer(st) => OwnedString.Valid(st)
  }

  /** The text written so far (`Deref` of either arm). */
  function Content(b: FlexStrBuilder): seq<byte> {
    match b
    case InlineBuffer(buf) => buf.content
    case StringBuffer(st) => st.content
  }

  /** `builder_new!`: the stack buffer, unless a capacity above
      `BUFFER_SIZE` is requested, which gets a `String` of that capacity. */
  function BuilderNew(cap: Option<nat>): (r: FlexStrBuilder)
    ensures Valid(r) && Content(r) == []
    ensures r.InlineBuffer? <==> cap.None? || cap.value <= BUFFER_SIZE
    ensures r.InlineBuffer? ==> r.buffer.cap == BUFFER_SIZE
    ensures r.StringBuffer? ==> r.owned.capacity == cap.value
  {
    match cap
    case None => InlineBuffer(BufferNew())
    case Some(c) =>
      if c <= BUFFER_SIZE then InlineBuffer(BufferNew()) else StringBuffer(WithCapacity(c))
  }

  /** `Write::write_str`: the stack buffer takes `s` if it has room; if not,
      the content moves to a `String` with twice the capacity now required
      and `s` is appended there. A `String` just appends. */
  function WriteStr(b: FlexStrBuilder, s: seq<byte>): (r: FlexStrBuilder)
    requires Valid(b)
    ensures Valid(r) && Content(r) == Content(b) + s
    ensures r.InlineBuffer? <==> b.InlineBuffer? && |Content(b)| + |s| <= b.buffer.cap
    ensures r.InlineBuffer? ==> r.buffer.cap == b.buffer.cap
    ensures b.InlineBuffer? && r.StringBuffer? ==> r.owned.capacity == 2 * (|Content(b)| + |s|)
  {
    match b
    case InlineBuffer(buffer) =>
      var w := BoundedBuffer.Write(buffer, s);
      if w.written then InlineBuffer(w.buffer)
      else
        var requiredCap := BoundedBuffer.Len(buffer) + |s|;
        var st := BoundedBuffer.ToStringBuffer(buffer, requiredCap * 2);
        StringBuffer(PushStr(st, s))
    case StringBuffer(st) => StringBuffer(PushStr(st, s))
  }

  /** `char_write`: `write_char`, i.e. `write_str` of the UTF-8 encoding. */
  function CharWrite(b: FlexStrBuilder, c: char): (r: FlexStrBuilder)
    requires Valid(b)
    ensures Valid(r) && Content(r) == Content(b) + EncodeChar(c)
  {
    WriteStr(b, EncodeChar(c))
  }

  /** The writes a `format_args!` expansion performs, in order. */
  function WriteAll(b: FlexStrBuilder, pieces: seq<seq<byte>>): FlexStrBuilder
    requires Valid(b)
    decreases |pieces|
  {
    if |pieces| == 0 then b else WriteAll(WriteStr(b, pieces[0]), pieces[1..])
  }

  /** A run of writes loses and reorders nothing, and once promoted the
      builder stays a `String`. */
  lemma {:induction false} WriteAllAppends(b: FlexStrBuilder, pieces: seq<seq<byte>>)
    requires Valid(b)
    ensures Valid(WriteAll(b, pieces))
    ensures Content(WriteAll(b, pieces)) == Content(b) + BoundedBuffer.Concat(pieces)
    ensures b.StringBuffer? ==> WriteAll(b, pieces).StringBuffer?
    decreases |pieces|
  {
    if |pieces| > 0 {
      var b1 := WriteStr(b, pieces[0]);
      WriteAllAppends(b1, pieces[1..]);
      assert Content(b) + pieces[0] + BoundedBuffer.Concat(pieces[1..]) == Content(b) + BoundedBuffer.Concat(pieces);
    }
  }

  /** What `builder_into!` builds from: an inline string from the stack
      array (`from_array` with `len as u8`), `to_flex` of the buffer's text,
      or `into` of the `String`. */
  datatype Built =
    | FromArray(bytes: seq<byte>, len: byte)
    | ToFlex(text: seq<byte>)
    | FromString(owned: RString)

  function BuiltText(r: Built): seq<byte>
    requires r.FromArray? ==> r.len as nat <= |r.bytes|
  {
    match r
    case FromArray(bytes, len) => bytes[..len]
    case ToFlex(text) => text
    case FromString(st) => st.content
  }

  /** `builder_into!`: inline exactly when the builder never left its stack
      buffer and the content fits `N`. The `len as u8` cast keeps the low
      eight bits, so the text is the same on every path once `N` is at most
      255 (the default `N` is 22). */
  function BuilderInto(b: FlexStrBuilder, n: nat): (r: Built)
    requires Valid(b)
    ensures r.FromArray? <==> b.InlineBuffer? && |Content(b)| <= n
    ensures r.FromArray? ==> r.bytes == Content(b) && r.len as nat == |r.bytes| % 256
    ensures r.FromArray? && n <= 255 ==> BuiltText(r) == Content(b)
    ensures !r.FromArray? ==> BuiltText(r) == Content(b)
  {
    match b
    case InlineBuffer(buffer) =>
      if IsInlineCandidate(buffer, n) then
        FromArray(buffer.content, FlexStorage.AsU8(BoundedBuffer.Len(buffer)))
      else ToFlex(buffer.content)
    case StringBuffer(st) => FromString(st)
  }

  /** The promotion test of builder.rs: a 36-byte write stays in the buffer,
      a following `BUFFER_SIZE`-byte write promotes, and the result holds
      both. */
  lemma PromotionExample(w1: seq<byte>, w2: seq<byte>)
    requires |w1| == 36 && |w2| == BUFFER_SIZE
    ensures WriteStr(BuilderNew(None), w1).InlineBuffer?
    ensures WriteStr(WriteStr(BuilderNew(None), w1), w2).StringBuffer?
    ensures Content(WriteStr(WriteStr(BuilderNew(None), w1), w2)) == w1 + w2
  {
  }
}
