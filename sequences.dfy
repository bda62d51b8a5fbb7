/** Order-preserving selection from a sequence, stated through the positions
    that were selected. Both scripts select in this sense: the sanitisers of
    code.py keep some characters of a string, and the matching loops keep some
    abstracts of a corpus. */
module Sequences {

  /** Positions listed in strictly increasing order. */
  ghost predicate StrictlyIncreasing(idx: seq<nat>)
  {
    forall j, k :: 0 <= j < k < |idx| ==> idx[j] < idx[k]
  }

  /** `r` is the sequence of the elements of `s` at the positions `idx`, in order. */
  ghost predicate SubsequenceAt<T>(r: seq<T>, s: seq<T>, idx: seq<nat>)
  {
    |idx| == |r| && StrictlyIncreasing(idx) &&
    forall k :: 0 <= k < |idx| ==> idx[k] < |s| && r[k] == s[idx[k]]
  }

  /** `r` is `s` with exactly the elements that satisfy `keep` retained, in their
      original order: the positions picked are precisely those whose element
      satisfies `keep`. */
  ghost predicate SelectsExactly<T>(r: seq<T>, s: seq<T>, keep: T -> bool, idx: seq<nat>)
  {
    SubsequenceAt(r, s, idx) &&
    forall i :: 0 <= i < |s| ==> (i in idx <==> keep(s[i]))
  }

  /** A strictly increasing list of positions below `n` has at most `n` entries,
      so a subsequence is never longer than the sequence it is taken from. */
  lemma {:induction false} IncreasingBounded(idx: seq<nat>, n: nat)
    requires StrictlyIncreasing(idx)
    requires forall k :: 0 <= k < |idx| ==> idx[k] < n
    ensures |idx| <= n
  {
    if idx != [] {
      var last := |idx| - 1;
      var init := idx[..last];
      assert forall k :: 0 <= k < |init| ==> init[k] < idx[last];
      IncreasingBounded(init, idx[last]);
    }
  }

  /** Any subsequence is at most as long as its source. */
  lemma SubsequenceNoLonger<T>(r: seq<T>, s: seq<T>, idx: seq<nat>)
    requires SubsequenceAt(r, s, idx)
    ensures |r| <= |s|
  {
    IncreasingBounded(idx, |s|);
  }

  /** Two selections of the same elements from the same sequence agree:
      `SelectsExactly` determines its result. */
  lemma {:induction false} SelectionIsUnique<T>(r1: seq<T>, r2: seq<T>, s: seq<T>, keep: T -> bool,
                                               idx1: seq<nat>, idx2: seq<nat>)
    requires SelectsExactly(r1, s, keep, idx1)
    requires SelectsExactly(r2, s, keep, idx2)
    ensures idx1 == idx2 && r1 == r2
  {
    IncreasingUnique(idx1, idx2);
  }

  /** Two strictly increasing lists holding the same positions are equal. */
  lemma {:induction false} IncreasingUnique(a: seq<nat>, b: seq<nat>)
    requires StrictlyIncreasing(a) && StrictlyIncreasing(b)
    requires forall i :: i in a <==> i in b
    ensures a == b
  {
    // Neither list can be empty while the other is not.
    assert a != [] ==> a[0] in b;
    assert b != [] ==> b[0] in a;
    if a != [] && b != [] {
      // The least entry of each list is the least position of the common set.
      assert a[0] == b[0] by {
        var j :| 0 <= j < |b| && b[j] == a[0];
        var k :| 0 <= k < |a| && a[k] == b[0];
        assert b[0] <= b[j];
        assert a[0] <= a[k];
      }
      forall i ensures i in a[1..] <==> i in b[1..] {
        if i in a[1..] {
          var k :| 1 <= k < |a| && a[k] == i;
          assert a[0] < i;
          assert i in b;
          var j :| 0 <= j < |b| && b[j] == i;
          assert j != 0;
          assert b[1..][j - 1] == i;
        }
        if i in b[1..] {
          var j :| 1 <= j < |b| && b[j] == i;
          assert b[0] < i;
          assert i in a;
          var k :| 0 <= k < |a| && a[k] == i;
          assert k != 0;
          assert a[1..][k - 1] == i;
        }
      }
      IncreasingUnique(a[1..], b[1..]);
      assert a == [a[0]] + a[1..];
      assert b == [b[0]] + b[1..];
    }
  }

  /** Every position moved one place to the right. */
  function Shift(idx: seq<nat>): (r: seq<nat>)
  {
    seq(|idx|, k requires 0 <= k < |idx| => idx[k] + 1)
  }

  /** A selection from `s[1..]` is one from `s` when `s[0]` is not wanted. */
  lemma SelectsSkipping<T>(r: seq<T>, s: seq<T>, keep: T -> bool, tail: seq<nat>) returns (idx: seq<nat>)
    requires s != [] && !keep(s[0])
    requires SelectsExactly(r, s[1..], keep, tail)
    ensures SelectsExactly(r, s, keep, idx)
  {
    idx := Shift(tail);
    forall i | 0 <= i < |s| ensures i in idx <==> keep(s[i]) {
      if i > 0 {
        assert s[i] == s[1..][i - 1];
        ShiftMembership(tail, i);
      }
    }
  }

  /** A selection from `s[1..]`, with `s[0]` put in front, is one from `s` when
      `s[0]` is wanted. */
  lemma SelectsTaking<T>(r: seq<T>, s: seq<T>, keep: T -> bool, tail: seq<nat>) returns (idx: seq<nat>)
    requires s != [] && keep(s[0])
    requires SelectsExactly(r, s[1..], keep, tail)
    ensures SelectsExactly([s[0]] + r, s, keep, idx)
  {
    var shifted := Shift(tail);
    idx := [0] + shifted;
    var q := [s[0]] + r;
    forall i | 0 <= i < |s| ensures i in idx <==> keep(s[i]) {
      if i > 0 {
        assert s[i] == s[1..][i - 1];
        ShiftMembership(tail, i);
      }
    }
    ShiftIncreasing(tail);
    forall k | 1 <= k < |idx| ensures idx[k] < |s| && q[k] == s[idx[k]] {
      assert idx[k] == tail[k - 1] + 1;
      assert q[k] == r[k - 1] == s[1..][tail[k - 1]];
    }
  }

  /** Shifting keeps the order, and position 0 can go in front. */
  lemma ShiftIncreasing(idx: seq<nat>)
    requires StrictlyIncreasing(idx)
    ensures StrictlyIncreasing([0] + Shift(idx))
  {
    var q := [0] + Shift(idx);
    forall j, k | 0 <= j < k < |q| ensures q[j] < q[k] {
      assert q[k] == idx[k - 1] + 1;
      if j > 0 { assert q[j] == idx[j - 1] + 1; }
    }
  }

  lemma ShiftMembership(idx: seq<nat>, i: nat)
    requires i > 0
    ensures i in Shift(idx) <==> i - 1 in idx
  {
    if i in Shift(idx) {
      var k :| 0 <= k < |idx| && Shift(idx)[k] == i;
      assert idx[k] == i - 1;
    }
    if i - 1 in idx {
      var k :| 0 <= k < |idx| && idx[k] == i - 1;
      assert Shift(idx)[k] == i;
    }
  }

  /** Extending the source by an element that is wanted extends the selection. */
  lemma SelectsAppendKept<T>(r: seq<T>, s: seq<T>, x: T, keep: T -> bool, idx: seq<nat>)
    requires SelectsExactly(r, s, keep, idx) && keep(x)
    ensures SelectsExactly(r + [x], s + [x], keep, idx + [|s|])
  {
    var s' := s + [x];
    forall i | 0 <= i < |s'| ensures i in idx + [|s|] <==> keep(s'[i]) {
      if i < |s| { assert s'[i] == s[i]; }
    }
  }

  /** Extending the source by an element that is not wanted leaves the selection. */
  lemma SelectsAppendDropped<T>(r: seq<T>, s: seq<T>, x: T, keep: T -> bool, idx: seq<nat>)
    requires SelectsExactly(r, s, keep, idx) && !keep(x)
    ensures SelectsExactly(r, s + [x], keep, idx)
  {
    var s' := s + [x];
    forall i | 0 <= i < |s'| ensures i in idx <==> keep(s'[i]) {
      if i < |s| { assert s'[i] == s[i]; }
    }
  }
}
