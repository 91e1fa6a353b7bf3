/** The formatting builder of src/format.rs, the predecessor of
    src/builder.rs with the same Small / Regular / Large stages. Its two
    copying helpers move the bytes but never record how many there are, so
    a promotion starts from empty; both are modelled as written and as
    intended. */
module FormatBuilder {
  import opened RustTypes
  import opened Utf8
  import opened OwnedString
  import opened BoundedBuffer
  import opened LegacyBuilder
  import LegacyFlex

  /** `to_larger_buffer` as written: the bytes are copied into the new
      array, but its `len` is never set, so the new buffer reads as empty. */
  function ToLargerBufferAsWritten(b: StringBuffer, n2: nat): (r: StringBuffer)
    requires BoundedBuffer.Valid(b) && Len(b) <= n2
    ensures BoundedBuffer.Valid(r) && r.cap == n2 && r.content == []
  {
    New(n2)
  }

  /** `to_string_buffer` as written: the bytes are copied into the
      `String`'s spare capacity through a raw pointer, but its length is
      never set, so the `String` reads as empty. */
  function ToStringBufferAsWritten(b: StringBuffer, cap: nat): (r: RString)
    requires BoundedBuffer.Valid(b) && Len(b) <= cap
    ensures OwnedString.Valid(r) && r.capacity == cap && r.content == []
  {
    OwnedString.WithCapacity(cap)
  }

  /** Whether `write_str` has to leave the builder's current stage. */
  predicate Promotes(b: Builder, s: seq<byte>)
    requires LegacyBuilder.Valid(b)
  {
    match b
    case Small(buf) => |buf.content| + |s| > MAX_INLINE
    case Regular(buf) => |buf.content| + |s| > BUFFER_SIZE
    case Large(_) => false
  }

  /** `write_str` as written. Small moves to Regular when `s` is at most
      `BUFFER_SIZE` bytes and to Large otherwise; Regular moves to Large.
      Every promotion goes through one of the two helpers above, so it keeps
      `s` and loses everything written before. */
  function WriteStrAsWritten(b: Builder, s: seq<byte>): (r: Builder)
    requires LegacyBuilder.Valid(b)
    ensures LegacyBuilder.Valid(r) && Stage(r) >= Stage(b)
    ensures !Promotes(b, s) ==> Content(r) == Content(b) + s && Stage(r) == Stage(b)
    ensures Promotes(b, s) ==> Content(r) == s
    ensures b.Small? && Promotes(b, s) ==> (r.Regular? <==> |s| <= BUFFER_SIZE)
    ensures b.Regular? && Promotes(b, s) ==> r.Large?
  {
    match b
    case Small(buf) =>
      var w := Write(buf, s);
      if w.written then Small(w.buffer)
      else if |s| <= BUFFER_SIZE then
        Regular(Write(ToLargerBufferAsWritten(buf, BUFFER_SIZE), s).buffer)
      else
        var requiredCap := Len(buf) + |s|;
        Large(PushStr(ToStringBufferAsWritten(buf, requiredCap * 2), s))
    case Regular(buf) =>
      var w := Write(buf, s);
      if w.written then Regular(w.buffer)
      else
        var requiredCap := Len(buf) + |s|;
        Large(PushStr(ToStringBufferAsWritten(buf, requiredCap * 2), s))
    case Large(st) => Large(PushStr(st, s))
  }

  /** The input that shows the loss: "test" then a 51-byte piece, as in
      `format!("{}{}", ..)`. The second piece promotes Small to Regular and
      the builder then holds only that piece. */
  lemma AsWrittenLosesPrefix(w1: seq<byte>, w2: seq<byte>)
    requires |w1| == 4 && |w2| == 51
    ensures var b := WriteStrAsWritten(WriteStrAsWritten(Small(New(MAX_INLINE)), w1), w2);
      b.Regular? && Content(b) == w2 && Content(b) != w1 + w2
  {
    assert |w1 + w2| != |w2|;
  }

  /** The same loss through `to_string_buffer`: a Regular builder holding
      text, then a write that does not fit, leaves a `String` holding only
      that write. */
  lemma AsWrittenLosesPrefixOnHeap(w1: seq<byte>, w2: seq<byte>)
    requires |w1| == 100 && |w2| == BUFFER_SIZE
    ensures var b := WriteStrAsWritten(Regular(StringBuffer(BUFFER_SIZE, w1)), w2);
      b.Large? && Content(b) == w2 && Content(b) != w1 + w2
  {
    assert |w1 + w2| != |w2|;
  }

  /** `to_larger_buffer` as intended: the content comes along, which is
      what `to_large_buffer` of src/builder.rs does by also setting `len`. */
  function ToLargerBuffer(b: StringBuffer, n2: nat): (r: StringBuffer)
    requires BoundedBuffer.Valid(b) && Len(b) <= n2
    ensures BoundedBuffer.Valid(r) && r.cap == n2 && r.content == b.content
    ensures r == LegacyBuilder.ToLargeBuffer(b, n2)
    ensures Len(b) > 0 ==> r != ToLargerBufferAsWritten(b, n2)
  {
    var copy := New(n2);
    if Len(b) != 0 then copy.(content := b.content) else copy
  }

  /** `write_str` as intended: promotions carry the content over (with the
      copying `to_string_buffer`), and a Small-to-Regular move whose write
      still does not fit goes on to a `String`. */
  function WriteStr(b: Builder, s: seq<byte>): (r: Builder)
    requires LegacyBuilder.Valid(b)
    ensures LegacyBuilder.Valid(r) && Content(r) == Content(b) + s
    ensures Stage(r) >= Stage(b)
    ensures !Promotes(b, s) ==> Stage(r) == Stage(b)
    ensures b.Small? && Promotes(b, s) && |Content(b)| + |s| <= BUFFER_SIZE ==> r.Regular?
    ensures Promotes(b, s) && |Content(b)| + |s| > BUFFER_SIZE ==> r.Large?
  {
    match b
    case Small(buf) =>
      var w := Write(buf, s);
      if w.written then Small(w.buffer)
      else if |s| <= BUFFER_SIZE then
        var w2 := Write(ToLargerBuffer(buf, BUFFER_SIZE), s);
        if w2.written then Regular(w2.buffer)
        else
          var requiredCap := Len(buf) + |s|;
          Large(PushStr(ToStringBuffer(buf, requiredCap * 2), s))
      else
        var requiredCap := Len(buf) + |s|;
        Large(PushStr(ToStringBuffer(buf, requiredCap * 2), s))
    case Regular(buf) =>
      var w := Write(buf, s);
      if w.written then Regular(w.buffer)
      else
        var requiredCap := Len(buf) + |s|;
        Large(PushStr(ToStringBuffer(buf, requiredCap * 2), s))
    case Large(st) => Large(PushStr(st, s))
  }

  /** Repaired, the format builder is the src/builder.rs builder with its
      own repair: the same state after every write. */
  lemma WriteStrMatchesBuilder(b: Builder, s: seq<byte>)
    requires LegacyBuilder.Valid(b)
    ensures WriteStr(b, s) == LegacyBuilder.WriteStr(b, s)
  {
  }

  /** The writes a `format_args!` expansion performs, in order. */
  function WriteAll(b: Builder, pieces: seq<seq<byte>>): (r: Builder)
    requires LegacyBuilder.Valid(b)
    ensures LegacyBuilder.Valid(r)
    decreases |pieces|
  {
    if |pieces| == 0 then b else WriteAll(WriteStr(b, pieces[0]), pieces[1..])
  }

  /** A run of repaired writes loses and reorders nothing and never moves
      back a stage. */
  lemma {:induction false} WriteAllAppends(b: Builder, pieces: seq<seq<byte>>)
    requires LegacyBuilder.Valid(b)
    ensures Content(WriteAll(b, pieces)) == Content(b) + Concat(pieces)
    ensures Stage(WriteAll(b, pieces)) >= Stage(b)
    decreases |pieces|
  {
    if |pieces| > 0 {
      WriteAllAppends(WriteStr(b, pieces[0]), pieces[1..]);
      assert Content(b) + pieces[0] + Concat(pieces[1..]) == Content(b) + Concat(pieces);
    }
  }

  /** `into_flexstr`: Small and Regular go through `to_flexstr` of their
      text, Large through `into` of the `String`; both are inline exactly
      when the text fits. */
  function IntoFlexStr(b: Builder, k: LegacyFlex.RefKind): (r: LegacyFlex.Flex)
    requires LegacyBuilder.Valid(b) && ValidUtf8(Content(b))
    ensures LegacyFlex.Valid(r) && r.text == Content(b) && !r.Static?
    ensures r.Inlined? <==> |Content(b)| <= MAX_INLINE
  {
    match b
    case Small(buf) => LegacyFlex.StrToFlex(buf.content, k)
    case Regular(buf) => LegacyFlex.StrToFlex(buf.content, k)
    case Large(st) => LegacyFlex.FromString(st.content, k)
  }

  lemma {:induction false} ConcatValid(pieces: seq<seq<byte>>)
    requires forall i :: 0 <= i < |pieces| ==> ValidUtf8(pieces[i])
    ensures ValidUtf8(Concat(pieces))
    decreases |pieces|
  {
    if |pieces| > 0 {
      ConcatValid(pieces[1..]);
      ValidConcat(pieces[0], Concat(pieces[1..]));
    }
  }

  /** Whether `a` ends `b`. */
  predicate IsSuffix(a: seq<byte>, b: seq<byte>) {
    |a| <= |b| && b[|b| - |a|..] == a
  }

  /** The writes of a `format_args!` expansion with `write_str` as written. */
  function WriteAllAsWritten(b: Builder, pieces: seq<seq<byte>>): (r: Builder)
    requires LegacyBuilder.Valid(b)
    ensures LegacyBuilder.Valid(r)
    decreases |pieces|
  {
    if |pieces| == 0 then b else WriteAllAsWritten(WriteStrAsWritten(b, pieces[0]), pieces[1..])
  }

  lemma SuffixAppend(a: seq<byte>, b: seq<byte>, t: seq<byte>)
    requires IsSuffix(a, b)
    ensures IsSuffix(a + t, b + t)
  {
    assert (b + t)[|b + t| - |a + t|..] == b[|b| - |a|..] + t;
  }

  lemma SuffixTrans(a: seq<byte>, b: seq<byte>, c: seq<byte>)
    requires IsSuffix(a, b) && IsSuffix(b, c)
    ensures IsSuffix(a, c)
  {
    assert c[|c| - |a|..] == c[|c| - |b|..][|b| - |a|..];
  }

  /** A tail of a tail of the text after one more piece ends the whole. */
  lemma SuffixChain(c0: seq<byte>, p: seq<byte>, c1: seq<byte>, rest: seq<byte>, c: seq<byte>)
    requires IsSuffix(c1, c0 + p) && IsSuffix(c, c1 + rest)
    ensures IsSuffix(c, c0 + (p + rest))
  {
    SuffixAppend(c1, c0 + p, rest);
    assert c0 + p + rest == c0 + (p + rest);
    SuffixTrans(c, c1 + rest, c0 + (p + rest));
  }

  /** One write as written keeps a tail of the text, and keeps it UTF-8. */
  lemma WriteStrAsWrittenSuffix(b: Builder, s: seq<byte>)
    requires LegacyBuilder.Valid(b)
    ensures IsSuffix(Content(WriteStrAsWritten(b, s)), Content(b) + s)
    ensures ValidUtf8(Content(b)) && ValidUtf8(s) ==> ValidUtf8(Content(WriteStrAsWritten(b, s)))
  {
    var c := Content(b) + s;
    if Promotes(b, s) {
      assert c[|c| - |s|..] == s;
    } else {
      assert c[|c| - |c|..] == c;
    }
    if ValidUtf8(Content(b)) && ValidUtf8(s) {
      ValidConcat(Content(b), s);
    }
  }

  /** As written, a run of writes keeps only a tail of what was written. */
  lemma {:induction false} WriteAllAsWrittenKeepsSuffix(b: Builder, pieces: seq<seq<byte>>)
    requires LegacyBuilder.Valid(b)
    ensures IsSuffix(Content(WriteAllAsWritten(b, pieces)), Content(b) + Concat(pieces))
    decreases |pieces|
  {
    if |pieces| == 0 {
      var c := Content(b);
      assert c + Concat(pieces) == c && c[|c| - |c|..] == c;
    } else {
      var b1 := WriteStrAsWritten(b, pieces[0]);
      WriteAllAsWrittenKeepsSuffix(b1, pieces[1..]);
      WriteStrAsWrittenSuffix(b, pieces[0]);
      SuffixChain(Content(b), pieces[0], Content(b1), Concat(pieces[1..]),
        Content(WriteAllAsWritten(b1, pieces[1..])));
    }
  }

  /** As written, a run of UTF-8 writes leaves UTF-8 content. */
  lemma {:induction false} WriteAllAsWrittenValid(b: Builder, pieces: seq<seq<byte>>)
    requires LegacyBuilder.Valid(b) && ValidUtf8(Content(b))
    requires forall i :: 0 <= i < |pieces| ==> ValidUtf8(pieces[i])
    ensures ValidUtf8(Content(WriteAllAsWritten(b, pieces)))
    decreases |pieces|
  {
    if |pieces| > 0 {
      WriteStrAsWrittenSuffix(b, pieces[0]);
      WriteAllAsWrittenValid(WriteStrAsWritten(b, pieces[0]), pieces[1..]);
    }
  }

  /** `format` / `a_format` as written: the same steps with `write_str` as
      written. The text is UTF-8 and ends the concatenation of the pieces,
      but it is the whole concatenation only when no write promoted. */
  function FormatAsWritten(pieces: seq<seq<byte>>, k: LegacyFlex.RefKind): (r: LegacyFlex.Flex)
    requires forall i :: 0 <= i < |pieces| ==> ValidUtf8(pieces[i])
    ensures LegacyFlex.Valid(r) && !r.Static?
    ensures IsSuffix(r.text, Concat(pieces))
  {
    var start := Small(New(MAX_INLINE));
    WriteAllAsWrittenKeepsSuffix(start, pieces);
    WriteAllAsWrittenValid(start, pieces);
    assert Content(start) + Concat(pieces) == Concat(pieces);
    IntoFlexStr(WriteAllAsWritten(start, pieces), k)
  }

  /** The input that shows the loss through `format` itself: the pieces
      "test" and 51 more bytes give only the 51 bytes, where the repaired
      `format` gives all 55. */
  lemma FormatAsWrittenLosesPrefix(w1: seq<byte>, w2: seq<byte>, k: LegacyFlex.RefKind)
    requires |w1| == 4 && |w2| == 51 && ValidUtf8(w1) && ValidUtf8(w2)
    ensures FormatAsWritten([w1, w2], k).text == w2
    ensures Format([w1, w2], k).text == w1 + w2 != w2
  {
    var start := Small(New(MAX_INLINE));
    WriteAllAsWrittenTwo(start, w1, w2);
    AsWrittenLosesPrefix(w1, w2);
    ConcatTwo(w1, w2);
    assert |w1 + w2| != |w2|;
  }

  lemma WriteAllAsWrittenTwo(b: Builder, s1: seq<byte>, s2: seq<byte>)
    requires LegacyBuilder.Valid(b)
    ensures WriteAllAsWritten(b, [s1, s2]) == WriteStrAsWritten(WriteStrAsWritten(b, s1), s2)
  {
    var b1 := WriteStrAsWritten(b, s1);
    assert [s1, s2][1..] == [s2];
    assert WriteAllAsWritten(b, [s1, s2]) == WriteAllAsWritten(b1, [s2]);
    assert [s2][1..] == [];
    assert WriteAllAsWritten(b1, [s2]) == WriteAllAsWritten(WriteStrAsWritten(b1, s2), []);
  }

  lemma ConcatTwo(s1: seq<byte>, s2: seq<byte>)
    ensures Concat([s1, s2]) == s1 + s2
  {
    assert [s1, s2][1..] == [s2];
    assert [s2][1..] == [];
    assert Concat([s2]) == s2 + Concat([]);
  }

  /** `format` / `a_format`, with the repaired builder: start from an empty
      Small builder, write every formatted piece, convert. The result is the
      concatenation of the pieces. */
  function Format(pieces: seq<seq<byte>>, k: LegacyFlex.RefKind): (r: LegacyFlex.Flex)
    requires forall i :: 0 <= i < |pieces| ==> ValidUtf8(pieces[i])
    ensures LegacyFlex.Valid(r) && r.text == Concat(pieces)
    ensures r.Inlined? <==> |Concat(pieces)| <= MAX_INLINE
  {
    var start := Small(New(MAX_INLINE));
    var b := WriteAll(start, pieces);
    WriteAllAppends(start, pieces);
    assert Content(start) + Concat(pieces) == Concat(pieces);
    ConcatValid(pieces);
    IntoFlexStr(b, k)
  }
}
