/** The search for the first NUL byte that every C-string check of the crate
    performs, as a reference definition and as the index loop the `const fn`
    scanners run. */
module NulScan {
  import opened RustTypes

  const NUL: byte := 0

  predicate NoNul(s: seq<byte>) {
    forall i :: 0 <= i < |s| ==> s[i] != NUL
  }

  /** Position of the first NUL byte of `s`, if any. */
  function FirstNul(s: seq<byte>): (r: Option<nat>)
    ensures r.Some? ==> r.value < |s| && s[r.value] == NUL && NoNul(s[..r.value])
    ensures r.None? <==> NoNul(s)
  {
    if |s| == 0 then None
    else if s[0] == NUL then Some(0)
    else match FirstNul(s[1..])
      case None => None
      case Some(p) =>
        assert s[..p + 1] == [s[0]] + s[1..][..p];
        Some(p + 1)
  }

  /** The first NUL is unique: any position holding NUL with no NUL before it. */
  lemma FirstNulUnique(s: seq<byte>, p: nat)
    requires p < |s| && s[p] == NUL && NoNul(s[..p])
    ensures FirstNul(s) == Some(p)
  {
  }

  /** A C string's storage: NUL-terminated, with no NUL before the end. */
  predicate IsCStr(s: seq<byte>) {
    FirstNul(s) == Some(|s| - 1)
  }

  lemma IsCStrShape(s: seq<byte>)
    ensures IsCStr(s) <==> |s| > 0 && s[|s| - 1] == NUL && NoNul(s[..|s| - 1])
  {
    if |s| > 0 && s[|s| - 1] == NUL && NoNul(s[..|s| - 1]) {
      FirstNulUnique(s, |s| - 1);
    }
  }

  /** The search loop of `try_from_raw`: walks `idx` up from 0 and stops at
      the first NUL byte. */
  method ScanFirstNul(s: seq<byte>) returns (pos: Option<nat>)
    ensures pos == FirstNul(s)
  {
    var idx := 0;
    pos := None;
    while idx < |s|
      invariant 0 <= idx <= |s|
      invariant NoNul(s[..idx])
      invariant pos.None?
    {
      if s[idx] == NUL {
        pos := Some(idx);
        break;
      }
      assert s[..idx + 1] == s[..idx] + [s[idx]];
      idx := idx + 1;
    }
    if pos.Some? {
      FirstNulUnique(s, pos.value);
    } else {
      assert s[..idx] == s;
    }
  }
}
