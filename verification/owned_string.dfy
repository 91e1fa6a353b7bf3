/** `alloc::string::String` as the builders use it: content plus capacity,
    growing by the amortised policy of `RawVec` (at least double, at least
    what is needed, at least 8 bytes) when a push does not fit. */
module OwnedString {
  import opened RustTypes

  datatype RString = RString(content: seq<byte>, capacity: nat)

  predicate Valid(st: RString) { |st.content| <= st.capacity }

  /** `String::with_capacity`. */
  function WithCapacity(cap: nat): (r: RString)
    ensures Valid(r) && r.content == [] && r.capacity == cap
  {
    RString([], cap)
  }

  function Max(a: nat, b: nat): nat { if a >= b then a else b }

  /** `String::push_str`; `fmt::Write::write_str` for `String` is the same
      push and always succeeds. */
  function PushStr(st: RString, s: seq<byte>): (r: RString)
    requires Valid(st)
    ensures Valid(r) && r.content == st.content + s
    ensures r.capacity >= st.capacity
    ensures |st.content| + |s| <= st.capacity ==> r.capacity == st.capacity
  {
    var needed := |st.content| + |s|;
    if needed <= st.capacity then RString(st.content + s, st.capacity)
    else RString(st.content + s, Max(Max(2 * st.capacity, needed), 8))
  }
}
