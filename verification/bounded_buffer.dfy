/** The fixed-capacity stack buffer (`StringBuffer`) the builders format
    into before deciding on storage. Only its first `len` bytes are ever
    initialised or read, so the model keeps just those bytes. */
module BoundedBuffer {
  import opened RustTypes
  import opened Utf8
  import opened OwnedString

  datatype StringBuffer = StringBuffer(cap: nat, content: seq<byte>)

  predicate Valid(b: StringBuffer) { |b.content| <= b.cap }

  /** A new buffer: `len` 0, array uninitialised. */
  function New(cap: nat): (r: StringBuffer)
    ensures Valid(r) && r.cap == cap && r.content == []
  {
    StringBuffer(cap, [])
  }

  function Len(b: StringBuffer): nat { |b.content| }

  /** Outcome of `write`: whether it copied, and the buffer after. */
  datatype WriteResult = WriteResult(written: bool, buffer: StringBuffer)

  /** `StringBuffer::write`: appends `s` when the remaining capacity
      (`capacity() - len`) holds it, and otherwise changes nothing. */
  function Write(b: StringBuffer, s: seq<byte>): (r: WriteResult)
    requires Valid(b)
    ensures Valid(r.buffer) && r.buffer.cap == b.cap
    ensures r.written <==> |s| <= b.cap - |b.content|
    ensures r.written ==> r.buffer.content == b.content + s
    ensures !r.written ==> r.buffer == b
  {
    var len := Len(b);
    if b.cap - len >= |s| then WriteResult(true, StringBuffer(b.cap, b.content + s))
    else WriteResult(false, b)
  }

  /** Writing `&str` data keeps the buffer's `Deref` to `str` sound: its
      initialised prefix stays UTF-8. */
  lemma WriteKeepsUtf8(b: StringBuffer, s: seq<byte>)
    requires Valid(b) && ValidUtf8(b.content) && ValidUtf8(s)
    ensures ValidUtf8(Write(b, s).buffer.content)
  {
    if Write(b, s).written {
      ValidConcat(b.content, s);
    }
  }

  /** `to_string_buffer`: a `String` of the requested capacity holding a copy
      of the buffer's content. */
  function ToStringBuffer(b: StringBuffer, cap: nat): (r: RString)
    requires Valid(b)
    ensures OwnedString.Valid(r) && r.content == b.content
    ensures |b.content| <= cap ==> r.capacity == cap
  {
    var st := WithCapacity(cap);
    if Len(b) != 0 then PushStr(st, b.content) else st
  }

  /** The text a run of writes hands over, in order. */
  function Concat(pieces: seq<seq<byte>>): seq<byte> {
    if |pieces| == 0 then [] else pieces[0] + Concat(pieces[1..])
  }
}
