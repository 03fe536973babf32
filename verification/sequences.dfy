/** Array operations the dashboard uses, over immutable sequences. */
module Sequences {

  /** The position `Array.prototype.splice(start, 1)` acts on: a negative
      `start` counts from the end, and the result is clamped to `[0, |s|]`. */
  function SpliceStart<T>(s: seq<T>, start: int): (k: nat)
    ensures k <= |s|
    ensures 0 <= start <= |s| ==> k == start
    ensures start > |s| ==> k == |s|
    ensures -|s| <= start < 0 ==> k == |s| + start
    ensures start < -|s| ==> k == 0
  {
    if start < 0 then (if |s| + start < 0 then 0 else |s| + start)
    else if start > |s| then |s| else start
  }

  /** `s.splice(start, 1)` applied to a copy of `s`: the element at the
      resolved position is removed, if there is one. */
  function RemoveAt<T>(s: seq<T>, start: int): (r: seq<T>)
    ensures SpliceStart(s, start) == |s| ==> r == s
    ensures SpliceStart(s, start) < |s| ==>
      var k := SpliceStart(s, start);
      && |r| == |s| - 1
      && (forall j :: 0 <= j < k ==> r[j] == s[j])
      && (forall j :: k <= j < |r| ==> r[j] == s[j + 1])
  {
    var k := SpliceStart(s, start);
    if k < |s| then s[..k] + s[k + 1..] else s
  }

  /** For an in-range position, the splice is the sequence with that one
      element cut out. */
  lemma RemoveAtInRange<T>(s: seq<T>, i: int)
    requires 0 <= i < |s|
    ensures RemoveAt(s, i) == s[..i] + s[i + 1..]
  {
    assert SpliceStart(s, i) == i;
  }

  /** Removing one in-range element removes exactly that element from the
      multiset of elements. */
  lemma RemoveAtMultiset<T>(s: seq<T>, i: int)
    requires 0 <= i < |s|
    ensures multiset(RemoveAt(s, i)) + multiset{s[i]} == multiset(s)
  {
    assert s == s[..i] + [s[i]] + s[i + 1..];
  }

  /** `a` is `b` with some elements left out, the rest in their order. */
  ghost predicate IsSubsequence<T>(a: seq<T>, b: seq<T>)
    decreases |b|
  {
    if |a| == 0 then true
    else if |b| == 0 then false
    else if a[0] == b[0] then IsSubsequence(a[1..], b[1..])
    else IsSubsequence(a, b[1..])
  }

  /** A subsequence of the tail is a subsequence of the whole. */
  lemma {:induction false} SubsequenceDropHead<T>(a: seq<T>, b: seq<T>)
    requires |b| > 0 && IsSubsequence(a, b[1..])
    ensures IsSubsequence(a, b)
    decreases |b|, |a|
  {
    if |a| > 0 && a[0] == b[0] {
      SubsequenceWeaken(a, b[1..]);
    }
  }

  /** Dropping the head of a subsequence keeps it a subsequence. */
  lemma {:induction false} SubsequenceWeaken<T>(a: seq<T>, b: seq<T>)
    requires |a| > 0 && IsSubsequence(a, b)
    ensures IsSubsequence(a[1..], b)
    decreases |b|, |a|
  {
    if a[0] != b[0] {
      SubsequenceWeaken(a, b[1..]);
      SubsequenceDropHead(a[1..], b);
    } else if |a| > 1 {
      SubsequenceDropHead(a[1..], b);
    }
  }
}
