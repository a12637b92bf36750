/** Sequence facts shared by the cleaning stages: counting flags, selecting positions,
    first occurrences (pandas' `duplicated` / `drop_duplicates` with `keep="first"`)
    and most frequent elements (pandas' `mode`). */
module Seqs {

  /** Number of `true` entries of a flag vector, as pandas sums a boolean Series. */
  function CountTrue(b: seq<bool>): (n: nat)
    ensures n <= |b|
    ensures n == 0 <==> (forall i :: 0 <= i < |b| ==> !b[i])
    ensures n == |b| <==> (forall i :: 0 <= i < |b| ==> b[i])
  {
    if |b| == 0 then 0
    else CountTrue(b[..|b| - 1]) + (if b[|b| - 1] then 1 else 0)
  }

  /** Complementary flag vectors share out the positions between them. */
  lemma {:induction false} CountTrueComplement(a: seq<bool>, b: seq<bool>)
    requires |a| == |b|
    requires forall i :: 0 <= i < |a| ==> a[i] == !b[i]
    ensures CountTrue(a) + CountTrue(b) == |a|
  {
    if |a| > 0 {
      CountTrueComplement(a[..|a| - 1], b[..|b| - 1]);
    }
  }

  ghost predicate Increasing(idx: seq<nat>) {
    forall k, l :: 0 <= k < l < |idx| ==> idx[k] < idx[l]
  }

  predicate InRange(idx: seq<nat>, n: nat) {
    forall k :: 0 <= k < |idx| ==> idx[k] < n
  }

  /** The positions whose flag is set, in increasing order. */
  function IndicesWhere(mask: seq<bool>): (idx: seq<nat>)
    ensures InRange(idx, |mask|)
    ensures Increasing(idx)
    ensures forall i :: 0 <= i < |mask| ==> (i in idx <==> mask[i])
    ensures |idx| == CountTrue(mask)
  {
    if |mask| == 0 then []
    else
      var p := IndicesWhere(mask[..|mask| - 1]);
      if mask[|mask| - 1] then p + [|mask| - 1] else p
  }

  /** The elements of `s` at the given positions. */
  function Select<T>(s: seq<T>, idx: seq<nat>): (r: seq<T>)
    requires InRange(idx, |s|)
    ensures |r| == |idx|
    ensures forall k :: 0 <= k < |idx| ==> r[k] == s[idx[k]]
  {
    seq(|idx|, k requires 0 <= k < |idx| => s[idx[k]])
  }

  /** `r` is `s` with some elements left out and the rest kept in their order. */
  ghost predicate IsSubsequence<T>(r: seq<T>, s: seq<T>) {
    exists idx :: InRange(idx, |s|) && Increasing(idx) && Select(s, idx) == r
  }

  /** A subsequence is no longer than the sequence it is taken from. */
  lemma SubsequenceNoLonger<T>(r: seq<T>, s: seq<T>)
    requires IsSubsequence(r, s)
    ensures |r| <= |s|
  {
    var idx :| InRange(idx, |s|) && Increasing(idx) && Select(s, idx) == r;
    IncreasingBounds(idx, |s|);
    if |idx| > 0 {
      assert idx[0] + |idx| <= |s|;
    }
  }

  /** Selecting the positions a mask flags keeps exactly the flagged elements, in order. */
  lemma FilterByMask<T>(s: seq<T>, mask: seq<bool>)
    requires |mask| == |s|
    ensures IsSubsequence(Select(s, IndicesWhere(mask)), s)
    ensures forall x :: x in Select(s, IndicesWhere(mask)) <==>
                        exists i :: 0 <= i < |s| && mask[i] && s[i] == x
  {
    var idx := IndicesWhere(mask);
    var r := Select(s, idx);
    forall x | x in r
      ensures exists i :: 0 <= i < |s| && mask[i] && s[i] == x
    {
      var k :| 0 <= k < |r| && r[k] == x;
      assert idx[k] in idx;
    }
    forall x | exists i :: 0 <= i < |s| && mask[i] && s[i] == x
      ensures x in r
    {
      var i :| 0 <= i < |s| && mask[i] && s[i] == x;
      assert i in idx;
      var k :| 0 <= k < |idx| && idx[k] == i;
      assert r[k] == x;
    }
  }

  predicate NoDuplicates<T(==)>(s: seq<T>) {
    forall k, l :: 0 <= k < l < |s| ==> s[k] != s[l]
  }

  /** pandas' `duplicated(keep="first")`: flags every element equal to an earlier one. */
  function Duplicated<T(==)>(s: seq<T>): (d: seq<bool>)
    ensures |d| == |s|
  {
    seq(|s|, i requires 0 <= i < |s| => s[i] in s[..i])
  }

  /** `duplicated()` flags exactly the elements equal to some earlier element. */
  lemma DuplicatedFlagsRepeats<T>(s: seq<T>)
    ensures forall i :: 0 <= i < |s| ==> (Duplicated(s)[i] <==> exists k :: 0 <= k < i && s[k] == s[i])
  {
  }

  /** No element repeats exactly when `duplicated()` flags nothing. */
  lemma NoDuplicatesIffNoneFlagged<T>(s: seq<T>)
    ensures NoDuplicates(s) <==> CountTrue(Duplicated(s)) == 0
  {
    if !NoDuplicates(s) {
      var k, l :| 0 <= k < l < |s| && s[k] == s[l];
      assert s[..l][k] == s[l];
      assert Duplicated(s)[l];
    }
  }

  /** The complement of `Duplicated`: flags the first occurrence of every value. */
  function FirstOccurrenceMask<T(==)>(s: seq<T>): (m: seq<bool>)
    ensures |m| == |s|
  {
    seq(|s|, i requires 0 <= i < |s| => s[i] !in s[..i])
  }

  /** `r` is `s` with the later repeats removed and the first occurrences kept, in order. */
  ghost predicate KeepsFirstOccurrences<T>(r: seq<T>, s: seq<T>) {
    exists idx ::
      && InRange(idx, |s|)
      && Increasing(idx)
      && Select(s, idx) == r
      && (forall i :: 0 <= i < |s| ==> (i in idx <==> s[i] !in s[..i]))
  }

  /** Every element of `s` has a first occurrence at or before any of its positions. */
  lemma {:induction false} FirstOccurrenceExists<T>(s: seq<T>, i: nat)
    requires i < |s|
    ensures exists j :: 0 <= j <= i && s[j] == s[i] && s[j] !in s[..j]
    decreases i
  {
    if s[i] in s[..i] {
      var i' :| 0 <= i' < i && s[..i][i'] == s[i];
      FirstOccurrenceExists(s, i');
    }
  }

  /** pandas' `drop_duplicates(keep="first")` on a sequence of rows. */
  function FirstOccurrences<T(==)>(s: seq<T>): (r: seq<T>)
    ensures KeepsFirstOccurrences(r, s)
    ensures |r| + CountTrue(Duplicated(s)) == |s|
  {
    var idx := IndicesWhere(FirstOccurrenceMask(s));
    CountTrueComplement(FirstOccurrenceMask(s), Duplicated(s));
    Select(s, idx)
  }

  /** No element repeats among the first occurrences. */
  lemma FirstOccurrencesAreDistinct<T>(s: seq<T>)
    ensures NoDuplicates(FirstOccurrences(s))
  {
    var idx := IndicesWhere(FirstOccurrenceMask(s));
    var r := FirstOccurrences(s);
    forall k, l | 0 <= k < l < |r|
      ensures r[k] != r[l]
    {
      assert idx[l] in idx;
      assert s[idx[l]] !in s[..idx[l]];
      assert s[..idx[l]][idx[k]] == r[k];
    }
  }

  /** Every element of the sequence has its first occurrence kept. */
  lemma FirstOccurrencesKeepAll<T>(s: seq<T>, i: nat)
    requires i < |s|
    ensures s[i] in FirstOccurrences(s)
  {
    var mask := FirstOccurrenceMask(s);
    var idx := IndicesWhere(mask);
    FirstOccurrenceExists(s, i);
    var j :| 0 <= j <= i && s[j] == s[i] && s[j] !in s[..j];
    assert mask[j];
    assert j in idx;
    var k :| 0 <= k < |idx| && idx[k] == j;
    assert FirstOccurrences(s)[k] == s[i];
  }

  /** The first occurrences hold every element of the sequence and nothing else. */
  lemma FirstOccurrencesSameElements<T>(s: seq<T>)
    ensures forall x :: x in FirstOccurrences(s) <==> x in s
  {
    var idx := IndicesWhere(FirstOccurrenceMask(s));
    var r := FirstOccurrences(s);
    forall x | x in r
      ensures x in s
    {
      var k :| 0 <= k < |r| && r[k] == x;
      assert s[idx[k]] == x;
    }
    forall x | x in s
      ensures x in r
    {
      var i :| 0 <= i < |s| && s[i] == x;
      FirstOccurrencesKeepAll(s, i);
    }
  }

  /** A sequence without repeats is its own first-occurrence list. */
  lemma FirstOccurrencesOfDistinct<T>(s: seq<T>)
    requires NoDuplicates(s)
    ensures FirstOccurrences(s) == s
  {
    var mask := FirstOccurrenceMask(s);
    forall i | 0 <= i < |s| ensures mask[i] {
      assert forall k :: 0 <= k < i ==> s[..i][k] == s[k] != s[i];
    }
    SelectAll(s, mask);
  }

  /** An increasing list of positions below `n` leaves room for its own length:
      entry `k` has `k` entries below it and `|idx| - k - 1` entries above it. */
  lemma {:induction false} IncreasingBounds(idx: seq<nat>, n: nat)
    requires InRange(idx, n) && Increasing(idx)
    ensures forall k :: 0 <= k < |idx| ==> k <= idx[k] && idx[k] + (|idx| - k) <= n
  {
    if |idx| > 0 {
      var p := idx[..|idx| - 1];
      var last := idx[|idx| - 1];
      assert InRange(p, last) by {
        forall k | 0 <= k < |p| ensures p[k] < last {
          assert idx[k] < idx[|idx| - 1];
        }
      }
      IncreasingBounds(p, last);
      forall k | 0 <= k < |idx|
        ensures k <= idx[k] && idx[k] + (|idx| - k) <= n
      {
        if k < |p| {
          assert p[k] == idx[k];
        } else if |p| > 0 {
          assert p[|p| - 1] == idx[|p| - 1] < last;
        }
      }
    }
  }

  /** A mask flagging every position selects the whole sequence. */
  lemma SelectAll<T>(s: seq<T>, mask: seq<bool>)
    requires |mask| == |s|
    requires forall i :: 0 <= i < |mask| ==> mask[i]
    ensures Select(s, IndicesWhere(mask)) == s
  {
    var idx := IndicesWhere(mask);
    IncreasingBounds(idx, |s|);
    forall k | 0 <= k < |s| ensures Select(s, idx)[k] == s[k] {
      assert idx[k] == k;
    }
  }

  /** Number of occurrences of `x` in `s`. */
  function Occurrences<T(==)>(s: seq<T>, x: T): (n: nat)
    ensures n <= |s|
    ensures n > 0 <==> x in s
  {
    if |s| == 0 then 0
    else Occurrences(s[..|s| - 1], x) + (if s[|s| - 1] == x then 1 else 0)
  }

  /** A candidate occurring in `s` at least as often as every other candidate; among
      equally frequent candidates, the earliest. */
  function MostFrequentAmong<T(==)>(s: seq<T>, cands: seq<T>): (m: T)
    requires |cands| > 0
    ensures m in cands
    ensures forall k :: 0 <= k < |cands| ==> Occurrences(s, cands[k]) <= Occurrences(s, m)
  {
    if |cands| == 1 then cands[0]
    else
      var rest := MostFrequentAmong(s, cands[1..]);
      if Occurrences(s, cands[0]) >= Occurrences(s, rest) then cands[0] else rest
  }

  /** A mode of a non-empty sequence: an element no other element outnumbers. */
  function MostFrequent<T(==,!new)>(s: seq<T>): (m: T)
    requires |s| > 0
    ensures m in s
    ensures forall x :: x in s ==> Occurrences(s, x) <= Occurrences(s, m)
  {
    MostFrequentAmong(s, s)
  }

  /** The distinct elements of a sequence. */
  function Elements<T(==)>(s: seq<T>): set<T> {
    set x | x in s
  }

  /** A sequence has at most as many distinct elements as entries, and none only when empty. */
  lemma {:induction false} ElementsCard<T>(s: seq<T>)
    ensures |Elements(s)| <= |s|
    ensures |Elements(s)| == 0 <==> |s| == 0
  {
    if |s| > 0 {
      var p := s[..|s| - 1];
      ElementsCard(p);
      assert Elements(s) == Elements(p) + {s[|s| - 1]} by {
        forall x | x in s ensures x in p || x == s[|s| - 1] {
          var i :| 0 <= i < |s| && s[i] == x;
          if i < |s| - 1 { assert p[i] == x; }
        }
      }
      assert s[|s| - 1] in Elements(s);
    }
  }
}
