/** Keeping the elements of a sequence that satisfy a predicate, in their order. */
module Selection {

  /** The elements of `s` for which `keep` holds, in their order in `s`. */
  function Filter<T>(s: seq<T>, keep: T -> bool): (r: seq<T>)
    decreases |s|
  {
    if s == [] then []
    else
      var init := Filter(s[..|s| - 1], keep);
      if keep(s[|s| - 1]) then init + [s[|s| - 1]] else init
  }

  /**
   * `Filter` picks a subsequence: the positions it takes increase, each taken
   * element is the element at its position, and a position is taken exactly when
   * its element satisfies `keep`.
   */
  lemma {:induction false} FilterSubsequence<T>(s: seq<T>, keep: T -> bool) returns (idx: seq<nat>)
    ensures |idx| == |Filter(s, keep)|
    ensures forall k :: 0 <= k < |idx| ==> idx[k] < |s| && Filter(s, keep)[k] == s[idx[k]]
    ensures forall k, l :: 0 <= k < l < |idx| ==> idx[k] < idx[l]
    ensures forall i :: 0 <= i < |s| ==> (keep(s[i]) <==> i in idx)
    decreases |s|
  {
    if s == [] {
      idx := [];
    } else {
      var n := |s| - 1;
      var init := s[..n];
      var prev := FilterSubsequence(init, keep);
      var before := Filter(init, keep);
      assert forall i :: 0 <= i < n ==> init[i] == s[i];
      if keep(s[n]) {
        idx := prev + [n];
        assert Filter(s, keep) == before + [s[n]];
        forall k | 0 <= k < |idx| ensures idx[k] < |s| && Filter(s, keep)[k] == s[idx[k]] {
          if k < |prev| {
            assert idx[k] == prev[k] && Filter(s, keep)[k] == before[k];
          }
        }
        forall i | 0 <= i < |s| ensures keep(s[i]) <==> i in idx {
          assert i in idx <==> i in prev || i == n;
        }
      } else {
        idx := prev;
        forall i | 0 <= i < |s| ensures keep(s[i]) <==> i in idx {
          assert i in prev ==> i < n;
        }
      }
    }
  }

  /** When no element satisfies `keep`, nothing is kept. */
  lemma {:induction false} FilterNone<T>(s: seq<T>, keep: T -> bool)
    requires forall i :: 0 <= i < |s| ==> !keep(s[i])
    ensures Filter(s, keep) == []
    decreases |s|
  {
    if s != [] {
      var init := s[..|s| - 1];
      assert forall i :: 0 <= i < |init| ==> init[i] == s[i];
      FilterNone(init, keep);
    }
  }

  /** Filtering never lengthens a sequence. */
  lemma {:induction false} FilterShorter<T>(s: seq<T>, keep: T -> bool)
    ensures |Filter(s, keep)| <= |s|
    decreases |s|
  {
    if s != [] {
      FilterShorter(s[..|s| - 1], keep);
    }
  }
}
