/**
 * The within-set clash detector (`check_barcodes_within_set`): remove exact
 * duplicates, then compare every unordered pair of the surviving barcodes
 * once and record the pairs whose distance is at most the threshold.
 */
module WithinSet {
  import opened Hamming
  import opened Clashes

  /** The records of `combinations(unique, 2)` filtered by the threshold:
      `unique[0]` against every later barcode, then the same for the rest. */
  function WithinClashes(unique: seq<string>, threshold: nat): seq<Clash> {
    if unique == [] then []
    else Row(unique[0], unique[1..], threshold) + WithinClashes(unique[1..], threshold)
  }

  /** `list(set(barcodes))`: the distinct barcodes, in an order Python does
      not specify. Each round takes an arbitrary member of the remaining set,
      so the contract fixes only that the list is duplicate-free and has the
      input's members. */
  method Deduplicate(barcodes: seq<string>) returns (unique: seq<string>)
    ensures NoDuplicates(unique)
    ensures forall x :: x in unique <==> x in barcodes
  {
    var pending := set x | x in barcodes;
    unique := [];
    while pending != {}
      invariant NoDuplicates(unique)
      invariant forall x :: x in unique ==> x in barcodes && x !in pending
      invariant forall x :: x in barcodes ==> x in unique || x in pending
      invariant forall x :: x in pending ==> x in barcodes
      decreases |pending|
    {
      var x :| x in pending;
      assert x !in unique;
      assert forall k :: 0 <= k < |unique| ==> (unique + [x])[k] == unique[k];
      unique := unique + [x];
      pending := pending - {x};
    }
  }

  /** `check_barcodes_within_set(barcodes, max_distance)`: deduplicate, then
      walk `combinations(unique, 2)`, recording each pair within the
      threshold. */
  method CheckWithinSet(barcodes: seq<string>, maxDistance: nat)
    returns (clashes: seq<Clash>, unique: seq<string>)
    ensures NoDuplicates(unique)
    ensures forall x :: x in unique <==> x in barcodes
    ensures clashes == WithinClashes(unique, maxDistance)
    ensures PairImage(clashes) == MemberPairs(Members(barcodes), maxDistance)
    ensures |clashes| == |MemberPairs(Members(barcodes), maxDistance)|
  {
    unique := Deduplicate(barcodes);
    clashes := PairClashes(unique, maxDistance);
    assert Members(unique) == Members(barcodes);
    WithinPairImage(unique, maxDistance);
    WithinCount(unique, maxDistance);
  }

  /** The loop over `combinations(unique, 2)`: `unique[i]` against every
      `unique[j]` with `i < j`, in that order. */
  method PairClashes(unique: seq<string>, maxDistance: nat) returns (clashes: seq<Clash>)
    ensures clashes == WithinClashes(unique, maxDistance)
  {
    clashes := [];
    for i := 0 to |unique|
      invariant clashes + WithinClashes(unique[i..], maxDistance) == WithinClashes(unique, maxDistance)
    {
      ghost var start := clashes;
      ghost var rest := unique[i..];
      assert rest[0] == unique[i] && rest[1..] == unique[i + 1..];
      var row := CompareRow(unique[i], unique[i + 1..], maxDistance);
      clashes := clashes + row;
      ConcatAssoc(start, row, WithinClashes(unique[i + 1..], maxDistance));
    }
    assert unique[|unique|..] == [];
  }

  /** Every record pairs some `unique[a]` with a later `unique[b]`, at a
      distance of at most the threshold. */
  lemma {:induction false} WithinSound(unique: seq<string>, threshold: nat, c: Clash)
    requires c in WithinClashes(unique, threshold)
    ensures IsClash(c, threshold)
    ensures exists a, b :: 0 <= a < b < |unique| && c.bc1 == unique[a] && c.bc2 == unique[b]
  {
    var tail := unique[1..];
    if c in Row(unique[0], tail, threshold) {
      RowMembers(unique[0], tail, threshold, c);
      var b :| 0 <= b < |tail| && tail[b] == c.bc2;
      assert c.bc1 == unique[0] && c.bc2 == unique[b + 1];
    } else {
      WithinSound(tail, threshold, c);
      var a, b :| 0 <= a < b < |tail| && c.bc1 == tail[a] && c.bc2 == tail[b];
      assert c.bc1 == unique[a + 1] && c.bc2 == unique[b + 1];
    }
  }

  /** For a duplicate-free list, every record pairs two different barcodes of
      the list, of equal length, at a distance of at most the threshold. */
  lemma WithinRecordsAreClashes(unique: seq<string>, threshold: nat, c: Clash)
    requires NoDuplicates(unique)
    requires c in WithinClashes(unique, threshold)
    ensures c.bc1 in unique && c.bc2 in unique && c.bc1 != c.bc2
    ensures |c.bc1| == |c.bc2| && c.distance <= threshold
  {
    WithinSound(unique, threshold, c);
  }

  /** For positions `i < j`, the record of `unique[i]` and `unique[j]` is
      present exactly when it is their clash record: each pair that is within
      the threshold is reported, and only those. */
  lemma {:induction false} WithinExact(unique: seq<string>, threshold: nat, i: nat, j: nat, d: nat)
    requires i < j < |unique|
    ensures Clash(unique[i], unique[j], d) in WithinClashes(unique, threshold)
        <==> IsClash(Clash(unique[i], unique[j], d), threshold)
  {
    var c := Clash(unique[i], unique[j], d);
    if c in WithinClashes(unique, threshold) {
      WithinSound(unique, threshold, c);
    } else {
      var tail := unique[1..];
      assert WithinClashes(unique, threshold)
          == Row(unique[0], tail, threshold) + WithinClashes(tail, threshold);
      if i == 0 {
        assert tail[j - 1] == unique[j];
        RowMembers(unique[0], tail, threshold, c);
      } else {
        assert tail[i - 1] == unique[i] && tail[j - 1] == unique[j];
        WithinExact(tail, threshold, i - 1, j - 1, d);
      }
    }
  }

  /** With no duplicates, a pair is never reported in the reverse order. */
  lemma WithinNoReversed(unique: seq<string>, threshold: nat, i: nat, j: nat, d: nat)
    requires NoDuplicates(unique) && i < j < |unique|
    ensures Clash(unique[j], unique[i], d) !in WithinClashes(unique, threshold)
  {
    var c := Clash(unique[j], unique[i], d);
    if c in WithinClashes(unique, threshold) {
      WithinSound(unique, threshold, c);
      assert false;
    }
  }

  /** With no duplicates, every unordered pair of different barcodes within
      the threshold is reported in exactly one orientation, the one of list
      order, and with its exact distance. */
  lemma EachPairReportedOnce(unique: seq<string>, threshold: nat, x: string, y: string)
    requires NoDuplicates(unique)
    requires x in unique && y in unique && x != y
    requires AtMost(HammingDistance(x, y), threshold)
    ensures var d := HammingDistance(x, y).count;
      Clash(x, y, d) in WithinClashes(unique, threshold)
      <==> Clash(y, x, d) !in WithinClashes(unique, threshold)
  {
    var d := HammingDistance(x, y).count;
    var i :| 0 <= i < |unique| && unique[i] == x;
    var j :| 0 <= j < |unique| && unique[j] == y;
    HammingSymmetric(x, y);
    if i < j {
      WithinExact(unique, threshold, i, j, d);
      WithinNoReversed(unique, threshold, i, j, d);
    } else {
      WithinExact(unique, threshold, j, i, d);
      WithinNoReversed(unique, threshold, j, i, d);
    }
  }

  /** With no duplicates, no unordered pair is reported twice. */
  lemma {:induction false} WithinPairsDistinct(unique: seq<string>, threshold: nat)
    requires NoDuplicates(unique)
    ensures PairsDistinct(WithinClashes(unique, threshold))
  {
    if unique != [] {
      var x, tail := unique[0], unique[1..];
      assert forall k :: 0 <= k < |tail| ==> tail[k] == unique[k + 1];
      assert NoDuplicates(tail);
      assert x !in tail;
      WithinPairsDistinct(tail, threshold);
      RowPairsDistinct(x, tail, threshold);
      forall c, e | c in Row(x, tail, threshold) && e in WithinClashes(tail, threshold)
        ensures !SamePair(c, e)
      {
        RowMembers(x, tail, threshold, c);
        WithinSound(tail, threshold, e);
      }
      PairsDistinctAppend(Row(x, tail, threshold), WithinClashes(tail, threshold));
    }
  }

  /** The distinct barcodes of a list. */
  ghost function Members(xs: seq<string>): set<string> {
    set x | x in xs
  }

  /** The unordered pairs of different members within the threshold. */
  ghost function MemberPairs(members: set<string>, threshold: nat): set<set<string>> {
    set x, y | x in members && y in members && x != y && AtMost(HammingDistance(x, y), threshold) :: {x, y}
  }

  /** With no duplicates, the records name exactly the unordered pairs of
      different members within the threshold. */
  lemma WithinPairImage(unique: seq<string>, threshold: nat)
    requires NoDuplicates(unique)
    ensures PairImage(WithinClashes(unique, threshold)) == MemberPairs(Members(unique), threshold)
  {
    var cs := WithinClashes(unique, threshold);
    var members := Members(unique);
    forall p | p in PairImage(cs) ensures p in MemberPairs(members, threshold) {
      var c :| c in cs && PairOf(c) == p;
      WithinRecordsAreClashes(unique, threshold, c);
      WithinSound(unique, threshold, c);
      assert c.bc1 in members && c.bc2 in members;
      assert AtMost(HammingDistance(c.bc1, c.bc2), threshold);
      assert p == {c.bc1, c.bc2};
    }
    forall p | p in MemberPairs(members, threshold) ensures p in PairImage(cs) {
      var x, y :| x in members && y in members && x != y
        && AtMost(HammingDistance(x, y), threshold) && p == {x, y};
      var d := HammingDistance(x, y).count;
      EachPairReportedOnce(unique, threshold, x, y);
      if Clash(x, y, d) in cs {
        assert PairOf(Clash(x, y, d)) == p;
      } else {
        assert PairOf(Clash(y, x, d)) == p;
      }
    }
  }

  /** The clash count depends only on the input's members, not on the order
      deduplication picks: it is the number of unordered pairs of different
      members within the threshold. */
  lemma WithinCount(unique: seq<string>, threshold: nat)
    requires NoDuplicates(unique)
    ensures |WithinClashes(unique, threshold)| == |MemberPairs(Members(unique), threshold)|
  {
    WithinPairsDistinct(unique, threshold);
    PairImageCount(WithinClashes(unique, threshold));
    WithinPairImage(unique, threshold);
  }

  /** Two deduplication orders of the same input report the same unordered
      pairs, and equally many records. */
  lemma WithinOrderFree(u: seq<string>, v: seq<string>, threshold: nat)
    requires NoDuplicates(u) && NoDuplicates(v)
    requires forall x :: x in u <==> x in v
    ensures PairImage(WithinClashes(u, threshold)) == PairImage(WithinClashes(v, threshold))
    ensures |WithinClashes(u, threshold)| == |WithinClashes(v, threshold)|
  {
    assert Members(u) == Members(v);
    WithinPairImage(u, threshold);
    WithinPairImage(v, threshold);
    WithinCount(u, threshold);
    WithinCount(v, threshold);
  }

  /** Raising the threshold never lowers the reported count of the detector,
      whatever orders deduplication picks in the two runs. */
  lemma WithinCountMonotone(u: seq<string>, v: seq<string>, t: nat, t': nat)
    requires NoDuplicates(u) && NoDuplicates(v)
    requires forall x :: x in u <==> x in v
    requires t <= t'
    ensures |WithinClashes(u, t)| <= |WithinClashes(v, t')|
  {
    WithinMonotone(v, t, t');
    WithinOrderFree(u, v, t);
  }

  /** At most one record per unordered pair of positions: no more than
      `n * (n - 1) / 2` records for `n` barcodes. */
  lemma {:induction false} WithinLength(unique: seq<string>, threshold: nat)
    ensures 2 * |WithinClashes(unique, threshold)| <= |unique| * (|unique| - 1)
  {
    if unique != [] {
      var tail := unique[1..];
      WithinLength(tail, threshold);
      RowLength(unique[0], tail, threshold);
      assert |WithinClashes(unique, threshold)|
          == |Row(unique[0], tail, threshold)| + |WithinClashes(tail, threshold)|;
      PairCountStep(|tail|);
    }
  }

  /** One more barcode adds `m` more pairs to the `m` already there. */
  lemma PairCountStep(m: nat)
    ensures (m + 1) * m == m * (m - 1) + 2 * m
  {
  }

  /** Fewer than two distinct barcodes give no clashes. */
  lemma FewerThanTwoNoClashes(unique: seq<string>, threshold: nat)
    requires |unique| < 2
    ensures WithinClashes(unique, threshold) == []
  {
  }

  /** Lowering the threshold only drops the records above it; so raising it
      never shrinks the clash list. */
  lemma {:induction false} WithinMonotone(unique: seq<string>, t: nat, t': nat)
    requires t <= t'
    ensures WithinClashes(unique, t) == KeepAtMost(WithinClashes(unique, t'), t)
    ensures |WithinClashes(unique, t)| <= |WithinClashes(unique, t')|
    ensures multiset(WithinClashes(unique, t)) <= multiset(WithinClashes(unique, t'))
  {
    if unique != [] {
      WithinMonotone(unique[1..], t, t');
      RowMonotone(unique[0], unique[1..], t, t');
      KeepAppend(Row(unique[0], unique[1..], t'), WithinClashes(unique[1..], t'), t);
    }
    KeepShrinks(WithinClashes(unique, t'), t);
  }

  /** A duplicate-free list has as many elements as members. */
  lemma {:induction false} DistinctCount(s: seq<string>)
    requires NoDuplicates(s)
    ensures |set x | x in s| == |s|
  {
    if s != [] {
      var tail := s[1..];
      assert forall k :: 0 <= k < |tail| ==> tail[k] == s[k + 1];
      DistinctCount(tail);
      assert (set x | x in s) == (set x | x in tail) + {s[0]};
    }
  }

  /** Two distinct barcodes are compared once, in list order. */
  lemma TwoBarcodes(unique: seq<string>, threshold: nat)
    requires |unique| == 2
    ensures WithinClashes(unique, threshold) == Compare(unique[0], unique[1], threshold)
  {
    var tail := unique[1..];
    assert tail[0] == unique[1] && tail[1..] == [];
    assert Row(unique[0], tail, threshold) == Compare(unique[0], unique[1], threshold) + Row(unique[0], [], threshold);
    assert WithinClashes(tail, threshold) == Row(unique[1], [], threshold) + WithinClashes([], threshold);
  }

  /** A duplicate-free list whose members are exactly two different barcodes
      holds them both, in one order or the other. */
  lemma TwoMembers(unique: seq<string>, a: string, b: string)
    requires NoDuplicates(unique) && a != b
    requires forall x :: x in unique <==> x == a || x == b
    ensures unique == [a, b] || unique == [b, a]
  {
    assert (set x | x in unique) == {a, b};
    DistinctCount(unique);
    assert unique[0] in unique && unique[1] in unique;
  }

  /** Two distinct barcodes give one record when they are within the
      threshold and none otherwise, whichever order deduplication picks. */
  lemma TwoBarcodesClash(unique: seq<string>, a: string, b: string, threshold: nat)
    requires NoDuplicates(unique) && a != b
    requires forall x :: x in unique <==> x == a || x == b
    ensures |unique| == 2
    ensures |WithinClashes(unique, threshold)| == (if AtMost(HammingDistance(a, b), threshold) then 1 else 0)
    ensures AtMost(HammingDistance(a, b), threshold) ==>
      WithinClashes(unique, threshold)[0].distance == HammingDistance(a, b).count
  {
    TwoMembers(unique, a, b);
    TwoBarcodes(unique, threshold);
    HammingSymmetric(a, b);
  }

  /** Examples: `["ACGT", "ACGT", "TGCA"]` has two distinct
      barcodes at distance 4, so neither threshold 0 nor 3 reports a clash;
      `["ACGT", "ACGA"]` at threshold 1 reports exactly one clash, of distance
      1. Both hold whatever order deduplication picks. */
  lemma ExampleDuplicateRemoved(unique: seq<string>)
    requires NoDuplicates(unique)
    requires forall x :: x in unique <==> x in ["ACGT", "ACGT", "TGCA"]
    ensures |unique| == 2
    ensures WithinClashes(unique, 3) == [] && WithinClashes(unique, 0) == []
  {
    assert forall x :: x in ["ACGT", "ACGT", "TGCA"] <==> x == "ACGT" || x == "TGCA";
    MismatchesAllDiffer("ACGT", "TGCA");
    assert HammingDistance("ACGT", "TGCA") == Finite(4);
    TwoBarcodesClash(unique, "ACGT", "TGCA", 3);
    TwoBarcodesClash(unique, "ACGT", "TGCA", 0);
  }

  lemma ExampleOneClash(unique: seq<string>)
    requires NoDuplicates(unique)
    requires forall x :: x in unique <==> x in ["ACGT", "ACGA"]
    ensures |WithinClashes(unique, 1)| == 1 && WithinClashes(unique, 1)[0].distance == 1
  {
    assert forall x :: x in ["ACGT", "ACGA"] <==> x == "ACGT" || x == "ACGA";
    assert "ACGT"[..3] == "ACG" && "ACGA"[..3] == "ACG";
    HammingZeroIffEqual("ACG", "ACG");
    assert HammingDistance("ACGT", "ACGA") == Finite(1);
    TwoBarcodesClash(unique, "ACGT", "ACGA", 1);
  }
}
