/** Text that is read from a position on. */
module Strings {

  /** From position `i` on, `s` reads `t`. */
  ghost predicate Reads(s: string, i: nat, t: string) {
    i + |t| == |s| && forall j :: 0 <= j < |t| ==> s[i + j] == t[j]
  }

  lemma ReadsOn(s: string, i: nat, a: string, t: string)
    requires Reads(s, i, a + t)
    ensures i + |a| <= |s| && s[i..i + |a|] == a && Reads(s, i + |a|, t)
    ensures forall j :: i <= j < i + |a| ==> s[j] == a[j - i]
  {
    var r := a + t;
    forall j | 0 <= j < |t|
      ensures s[i + |a| + j] == t[j]
    {
      assert s[i + (|a| + j)] == r[|a| + j];
    }
    forall j | i <= j < i + |a|
      ensures s[j] == a[j - i]
    {
      assert s[i + (j - i)] == r[j - i];
    }
  }

  /** A NUL-terminated string: there is always a character to look at. */
  function CharAt(s: string, i: nat): char { if i < |s| then s[i] else '\0' }
}
