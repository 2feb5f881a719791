/** Facts about slices of sequences that the proofs about byte positions share. */
module Slices {

  /** If a slice spells x ++ y ++ z then the three parts stand at their positions. */
  lemma Parts<T>(d: seq<T>, i: nat, x: seq<T>, y: seq<T>, z: seq<T>)
    requires i + |x| + |y| + |z| <= |d|
    requires d[i..i + |x| + |y| + |z|] == x + y + z
    ensures d[i..i + |x|] == x
    ensures d[i + |x|..i + |x| + |y|] == y
    ensures d[i + |x| + |y|..i + |x| + |y| + |z|] == z
  {
    var s := x + y + z;
    assert forall k :: 0 <= k < |s| ==> d[i + k] == d[i..i + |s|][k] == s[k];
    assert d[i..i + |x|] == s[..|x|];
    assert d[i + |x|..i + |x| + |y|] == s[|x|..|x| + |y|];
    assert d[i + |x| + |y|..i + |s|] == s[|x| + |y|..];
  }

  lemma TwoParts<T>(d: seq<T>, i: nat, x: seq<T>, y: seq<T>)
    requires i + |x| + |y| <= |d|
    requires d[i..i + |x| + |y|] == x + y
    ensures d[i..i + |x|] == x
    ensures d[i + |x|..i + |x| + |y|] == y
  {
    assert x + y == x + y + [];
    Parts(d, i, x, y, []);
  }

  /** Adjacent slices join. */
  lemma Join<T>(d: seq<T>, i: nat, j: nat, k: nat)
    requires i <= j <= k <= |d|
    ensures d[i..j] + d[j..k] == d[i..k]
  {
  }
}
