/** Facts about sequences that the proofs use in many places, stated once over an
    arbitrary element type. */
module Sequences {

  /** A non-empty sequence is its front followed by its last element. */
  lemma InitLast<T>(s: seq<T>)
    requires s != []
    ensures s == s[..|s| - 1] + [s[|s| - 1]]
  {
    assert |s[..|s| - 1] + [s[|s| - 1]]| == |s|;
  }

  /** Cutting a sequence anywhere and joining the parts gives it back. */
  lemma TakeDrop<T>(s: seq<T>, m: nat)
    requires m <= |s|
    ensures s == s[..m] + s[m..]
  {
    assert |s[..m] + s[m..]| == |s|;
  }

  lemma AppendAssoc<T>(a: seq<T>, b: seq<T>, c: seq<T>)
    ensures (a + b) + c == a + (b + c)
  {
    assert |(a + b) + c| == |a + (b + c)|;
  }

  /** A slice of a suffix is a slice of the whole, shifted. */
  lemma SliceOfDrop<T>(s: seq<T>, m: nat, p: nat, e: nat)
    requires m <= |s| && p <= e <= |s| - m
    ensures s[m..][p..e] == s[m + p..m + e]
  {
    assert |s[m..][p..e]| == |s[m + p..m + e]|;
  }

  /** The prefix of a longer prefix. */
  lemma PrefixOfPrefix<T>(s: seq<T>, i: nat)
    requires i < |s|
    ensures s[..i + 1][..i] == s[..i]
    ensures s[..i + 1] == s[..i] + [s[i]]
  {
    assert |s[..i + 1][..i]| == i;
    assert |s[..i] + [s[i]]| == i + 1;
  }

  lemma TakeAll<T>(s: seq<T>)
    ensures s[..|s|] == s
  {
  }

  lemma DropOne<T>(s: seq<T>, j: nat)
    requires j < |s|
    ensures s[j..] != [] && s[j..][0] == s[j] && s[j..][1..] == s[j + 1..]
  {
    assert |s[j..][1..]| == |s[j + 1..]|;
  }
}
