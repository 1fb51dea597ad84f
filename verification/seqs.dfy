/**
 * Regrouping facts about sequences, stated generically so that proofs about
 * encodings can use them without unfolding the encoders.
 */
module Seqs {
  lemma SplitFirst<T>(s: seq<T>)
    requires |s| > 0
    ensures [s[0]] + s[1..] == s
  {
  }

  lemma SplitLast<T>(s: seq<T>)
    requires |s| > 0
    ensures s[..|s| - 1] + [s[|s| - 1]] == s
  {
  }

  lemma SplitAt<T>(s: seq<T>, k: nat)
    requires k <= |s|
    ensures s[..k] + s[k..] == s
  {
  }

  lemma Assoc<T>(a: seq<T>, b: seq<T>, c: seq<T>)
    ensures a + b + c == a + (b + c)
  {
  }

  lemma Regroup<T>(a: seq<T>, b: seq<T>, c: seq<T>, d: seq<T>)
    ensures a + b + c + d == a + (b + (c + d))
  {
  }

  /** A slice lying wholly in the second part of a concatenation. */
  lemma SliceRight<T>(a: seq<T>, b: seq<T>, lo: nat, hi: nat)
    requires |a| <= lo <= hi <= |a| + |b|
    ensures (a + b)[lo..hi] == b[lo - |a|..hi - |a|]
  {
  }

  /** The parts of a seven-part concatenation, sliced back out at their offsets. */
  lemma Parts7<T>(p0: seq<T>, p1: seq<T>, p2: seq<T>, p3: seq<T>, p4: seq<T>, p5: seq<T>, p6: seq<T>)
    ensures var b := p0 + p1 + p2 + p3 + p4 + p5 + p6;
      var o1 := |p0|; var o2 := o1 + |p1|; var o3 := o2 + |p2|; var o4 := o3 + |p3|;
      var o5 := o4 + |p4|; var o6 := o5 + |p5|;
      && b[0..o1] == p0 && b[o1..o2] == p1 && b[o2..o3] == p2 && b[o3..o4] == p3
      && b[o4..o5] == p4 && b[o5..o6] == p5 && b[o6..o6 + |p6|] == p6
  {
  }

  /** A prefix of a concatenation that ends inside its first part. */
  lemma TakeLeft<T>(a: seq<T>, b: seq<T>, j: nat)
    requires j <= |a|
    ensures (a + b)[..j] == a[..j]
  {
  }

  /** A prefix of a concatenation that ends inside its second part. */
  lemma TakeRight<T>(a: seq<T>, b: seq<T>, j: nat)
    requires |a| <= j <= |a| + |b|
    ensures (a + b)[..j] == a + b[..j - |a|]
  {
  }

  /** Each part of a concatenation, recovered by slicing. */
  lemma Halves<T>(a: seq<T>, b: seq<T>)
    ensures (a + b)[..|a|] == a && (a + b)[|a|..] == b
  {
  }
}
