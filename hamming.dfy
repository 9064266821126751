/**
 * The Hamming distance between two barcodes (`hamming_distance`).
 */
module Hamming {

  /** What `hamming_distance` returns: a mismatch count for strings of equal
      length, or `float('inf')` for strings of different lengths. */
  datatype Distance = Finite(count: nat) | Infinite

  /** `distance <= max_distance` as Python evaluates it: an infinite
      distance is never at most a (finite) threshold. */
  predicate AtMost(d: Distance, threshold: nat) {
    d.Finite? && d.count <= threshold
  }

  /** The positions below `n` at which `s1` and `s2` differ. */
  ghost function DiffIndices(s1: string, s2: string, n: nat): set<nat>
    requires n <= |s1| && n <= |s2|
  {
    set i: nat | i < n && s1[i] != s2[i]
  }

  /** `sum(c1 != c2 for c1, c2 in zip(s1, s2))` on strings of equal length. */
  function Mismatches(s1: string, s2: string): (r: nat)
    requires |s1| == |s2|
    ensures r <= |s1|
  {
    if |s1| == 0 then 0
    else
      var n := |s1| - 1;
      Mismatches(s1[..n], s2[..n]) + (if s1[n] != s2[n] then 1 else 0)
  }

  /** `hamming_distance(s1, s2)`. */
  function HammingDistance(s1: string, s2: string): (d: Distance)
    ensures d.Finite? <==> |s1| == |s2|
    ensures d.Finite? ==> d.count <= |s1|
  {
    if |s1| != |s2| then Infinite else Finite(Mismatches(s1, s2))
  }

  /** On the first `n` positions, the mismatch sum counts the positions
      where the strings differ. */
  lemma {:induction false} MismatchesPrefix(s1: string, s2: string, n: nat)
    requires |s1| == |s2| && n <= |s1|
    ensures Mismatches(s1[..n], s2[..n]) == |DiffIndices(s1, s2, n)|
  {
    if n == 0 {
      assert DiffIndices(s1, s2, 0) == {};
    } else {
      MismatchesPrefix(s1, s2, n - 1);
      assert s1[..n][..n - 1] == s1[..n - 1];
      assert s2[..n][..n - 1] == s2[..n - 1];
      var below := DiffIndices(s1, s2, n - 1);
      if s1[n - 1] != s2[n - 1] {
        assert DiffIndices(s1, s2, n) == below + {n - 1};
        assert n - 1 !in below;
      } else {
        assert DiffIndices(s1, s2, n) == below;
      }
    }
  }

  /** For strings of equal length the distance is the number of positions
      at which they differ; for different lengths it is infinite and so
      never at most any threshold. */
  lemma HammingCountsDifferences(s1: string, s2: string)
    ensures |s1| == |s2| ==> HammingDistance(s1, s2) == Finite(|DiffIndices(s1, s2, |s1|)|)
    ensures |s1| != |s2| ==> forall t: nat :: !AtMost(HammingDistance(s1, s2), t)
  {
    if |s1| == |s2| {
      MismatchesPrefix(s1, s2, |s1|);
      assert s1[..|s1|] == s1 && s2[..|s2|] == s2;
    }
  }

  /** The distance is symmetric. */
  lemma {:induction false} MismatchesSymmetric(s1: string, s2: string)
    requires |s1| == |s2|
    ensures Mismatches(s1, s2) == Mismatches(s2, s1)
  {
    if |s1| > 0 {
      var n := |s1| - 1;
      MismatchesSymmetric(s1[..n], s2[..n]);
    }
  }

  lemma HammingSymmetric(s1: string, s2: string)
    ensures HammingDistance(s1, s2) == HammingDistance(s2, s1)
  {
    if |s1| == |s2| {
      MismatchesSymmetric(s1, s2);
    }
  }

  /** Two strings of equal length are at distance 0 exactly when they are
      equal; in particular every string is at distance 0 from itself. */
  lemma HammingZeroIffEqual(s1: string, s2: string)
    ensures HammingDistance(s1, s2) == Finite(0) <==> s1 == s2
  {
    if |s1| == |s2| {
      HammingCountsDifferences(s1, s2);
      if s1 != s2 {
        var i :| 0 <= i < |s1| && s1[i] != s2[i];
        assert (i as nat) in DiffIndices(s1, s2, |s1|);
      } else {
        assert DiffIndices(s1, s2, |s1|) == {};
      }
    }
  }

  /** Strings of equal length that differ at every position are at the
      largest possible distance, their length. */
  lemma {:induction false} MismatchesAllDiffer(s1: string, s2: string)
    requires |s1| == |s2|
    requires forall i :: 0 <= i < |s1| ==> s1[i] != s2[i]
    ensures Mismatches(s1, s2) == |s1|
  {
    if |s1| > 0 {
      var n := |s1| - 1;
      assert forall i :: 0 <= i < n ==> s1[..n][i] == s1[i] && s2[..n][i] == s2[i];
      MismatchesAllDiffer(s1[..n], s2[..n]);
    }
  }

  /** Two examples: one mismatch in four positions, and a
      length mismatch that no threshold admits. */
  lemma HammingExamples()
    ensures HammingDistance("ACGT", "ACGG") == Finite(1)
    ensures forall t: nat :: !AtMost(HammingDistance("AC", "ACG"), t)
  {
    assert "ACGT"[..3] == "ACG" && "ACGG"[..3] == "ACG";
    assert Mismatches("ACG", "ACG") == 0 by {
      HammingZeroIffEqual("ACG", "ACG");
    }
  }
}
