/** Lexicographic byte order: the order `str` and `[u8]` implement through
    `Ord`, which the string types of the crate forward to. */
module ByteOrder {
  import opened RustTypes

  /** Lexicographic comparison, first differing byte deciding and a proper
      prefix ordering first. */
  function Compare(a: seq<byte>, b: seq<byte>): Ordering
  {
    if |a| == 0 && |b| == 0 then Equal
    else if |a| == 0 then Less
    else if |b| == 0 then Greater
    else if a[0] < b[0] then Less
    else if a[0] > b[0] then Greater
    else Compare(a[1..], b[1..])
  }

  /** `Equal` exactly for equal sequences. */
  lemma {:induction false} CompareEqualIff(a: seq<byte>, b: seq<byte>)
    ensures Compare(a, b) == Equal <==> a == b
  {
    if |a| > 0 && |b| > 0 && a[0] == b[0] {
      CompareEqualIff(a[1..], b[1..]);
      if a[1..] == b[1..] {
        assert a == [a[0]] + a[1..] && b == [b[0]] + b[1..];
      }
    }
  }

  /** Swapping the operands reverses the answer. */
  lemma {:induction false} CompareAntisymmetric(a: seq<byte>, b: seq<byte>)
    ensures Compare(b, a) == Compare(a, b).Reverse()
  {
    if |a| > 0 && |b| > 0 && a[0] == b[0] {
      CompareAntisymmetric(a[1..], b[1..]);
    }
  }

  /** `Less` is transitive. */
  lemma {:induction false} CompareTransitive(a: seq<byte>, b: seq<byte>, c: seq<byte>)
    requires Compare(a, b) == Less && Compare(b, c) == Less
    ensures Compare(a, c) == Less
  {
    if |a| > 0 && |b| > 0 && |c| > 0 && a[0] == b[0] && b[0] == c[0] {
      CompareTransitive(a[1..], b[1..], c[1..]);
    }
  }

  /** A proper prefix orders first. */
  lemma {:induction false} ComparePrefix(a: seq<byte>, b: seq<byte>)
    requires |b| > 0
    ensures Compare(a, a + b) == Less
  {
    if |a| > 0 {
      assert (a + b)[1..] == a[1..] + b;
      ComparePrefix(a[1..], b);
    }
  }
}
