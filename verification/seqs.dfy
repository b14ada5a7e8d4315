/** Sequence helpers: selecting positions by a mask and picking elements at
    increasing positions, which is how every stage that drops columns or rows
    is expressed. */
module Seqs {

  ghost predicate StrictlyIncreasing(idx: seq<nat>)
  {
    forall a, b :: 0 <= a < b < |idx| ==> idx[a] < idx[b]
  }

  ghost predicate Distinct<T>(s: seq<T>)
  {
    forall a, b :: 0 <= a < b < |s| ==> s[a] != s[b]
  }

  /** The positions at which `keep` holds true, in increasing order. */
  function Selected(keep: seq<bool>): (idx: seq<nat>)
    ensures StrictlyIncreasing(idx)
    ensures forall k :: 0 <= k < |idx| ==> idx[k] < |keep| && keep[idx[k]]
    ensures forall j :: 0 <= j < |keep| && keep[j] ==> j in idx
    ensures |idx| <= |keep|
    decreases |keep|
  {
    if |keep| == 0 then []
    else
      var rest := Selected(keep[..|keep| - 1]);
      if keep[|keep| - 1] then rest + [|keep| - 1] else rest
  }

  /** The elements of `s` at the positions `idx`, in the order of `idx`. */
  function Pick<T>(s: seq<T>, idx: seq<nat>): (r: seq<T>)
    requires forall k :: 0 <= k < |idx| ==> idx[k] < |s|
    ensures |r| == |idx|
    ensures forall k :: 0 <= k < |idx| ==> r[k] == s[idx[k]]
  {
    seq(|idx|, k requires 0 <= k < |idx| => s[idx[k]])
  }

  /** The first position of `x` in `s`. */
  function IndexOf<T(==)>(s: seq<T>, x: T): (j: nat)
    requires x in s
    ensures j < |s| && s[j] == x
    ensures x !in s[..j]
  {
    if s[0] == x then 0
    else
      var j := 1 + IndexOf(s[1..], x);
      assert s[..j] == [s[0]] + s[1..][..j - 1];
      j
  }

  /** In a sequence without repetitions the position of an element is
      determined by the element. */
  lemma DistinctIndex<T>(s: seq<T>, k: nat)
    requires Distinct(s) && k < |s|
    ensures IndexOf(s, s[k]) == k
  {
  }

  /** A mask that keeps everything selects every position. */
  lemma {:induction false} SelectedAll(keep: seq<bool>)
    requires forall j :: 0 <= j < |keep| ==> keep[j]
    ensures Selected(keep) == seq(|keep|, j => j)
    decreases |keep|
  {
    if |keep| > 0 {
      var front := keep[..|keep| - 1];
      SelectedAll(front);
      assert Selected(keep) == seq(|front|, j => j) + [|keep| - 1];
    }
  }

  /** Picking at strictly increasing positions of a sequence without
      repetitions gives a sequence without repetitions. */
  lemma PickDistinct<T>(s: seq<T>, idx: seq<nat>)
    requires forall k :: 0 <= k < |idx| ==> idx[k] < |s|
    requires Distinct(s) && StrictlyIncreasing(idx)
    ensures Distinct(Pick(s, idx))
  {
    var r := Pick(s, idx);
    forall a, b | 0 <= a < b < |r|
      ensures r[a] != r[b]
    {
      assert idx[a] < idx[b];
    }
  }

  /** In a sequence without repetitions, the element at position `j` is
      picked exactly when the mask keeps position `j`. */
  lemma PickSelectedMember<T>(s: seq<T>, keep: seq<bool>, j: nat)
    requires Distinct(s) && |keep| == |s| && j < |s|
    ensures s[j] in Pick(s, Selected(keep)) <==> keep[j]
  {
    var idx := Selected(keep);
    var r := Pick(s, idx);
    if s[j] in r {
      var k :| 0 <= k < |r| && r[k] == s[j];
      assert idx[k] == j;
    }
    if keep[j] {
      var k :| 0 <= k < |idx| && idx[k] == j;
      assert r[k] == s[j];
    }
  }

  /** Occurrences in a concatenation add up. */
  lemma CountConcat<T>(a: seq<T>, b: seq<T>, x: T)
    ensures multiset(a + b)[x] == multiset(a)[x] + multiset(b)[x]
  {
  }
}
