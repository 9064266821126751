/**
 * The between-set clash detector (`check_barcodes_between_sets`): compare
 * every barcode of the first set with every barcode of the second, in
 * row-major order and without removing duplicates, and record the pairs
 * whose distance is at most the threshold.
 */
module BetweenSets {
  import opened Hamming
  import opened Clashes

  /** The records of the nested loop: `set1[0]` against all of `set2`, then
      the same for the rest of `set1`. */
  function CrossClashes(set1: seq<string>, set2: seq<string>, threshold: nat): seq<Clash> {
    if set1 == [] then []
    else Row(set1[0], set2, threshold) + CrossClashes(set1[1..], set2, threshold)
  }

  /** `check_barcodes_between_sets(set1, set2, max_distance)`. */
  method CheckBetweenSets(set1: seq<string>, set2: seq<string>, maxDistance: nat)
    returns (clashes: seq<Clash>)
    ensures clashes == CrossClashes(set1, set2, maxDistance)
  {
    clashes := [];
    for i := 0 to |set1|
      invariant clashes + CrossClashes(set1[i..], set2, maxDistance) == CrossClashes(set1, set2, maxDistance)
    {
      ghost var start := clashes;
      ghost var rest := set1[i..];
      assert rest[0] == set1[i] && rest[1..] == set1[i + 1..];
      var row := CompareRow(set1[i], set2, maxDistance);
      clashes := clashes + row;
      ConcatAssoc(start, row, CrossClashes(set1[i + 1..], set2, maxDistance));
    }
    assert set1[|set1|..] == [];
  }

  /** A record is reported exactly when it pairs a member of the first set
      with a member of the second and is a clash record: the detector is
      sound and misses nothing. */
  lemma {:induction false} CrossMembers(set1: seq<string>, set2: seq<string>, threshold: nat, c: Clash)
    ensures c in CrossClashes(set1, set2, threshold)
        <==> c.bc1 in set1 && c.bc2 in set2 && IsClash(c, threshold)
  {
    if set1 != [] {
      CrossMembers(set1[1..], set2, threshold, c);
      RowMembers(set1[0], set2, threshold, c);
      assert set1 == [set1[0]] + set1[1..];
    }
  }

  /** Duplicates are not collapsed: a clash record occurs once for every
      pair of positions that holds its two barcodes. */
  lemma {:induction false} CrossMultiplicity(set1: seq<string>, set2: seq<string>, threshold: nat, c: Clash)
    ensures multiset(CrossClashes(set1, set2, threshold))[c] ==
      if IsClash(c, threshold) then multiset(set1)[c.bc1] * multiset(set2)[c.bc2] else 0
  {
    if set1 != [] {
      var x, tail := set1[0], set1[1..];
      CrossMultiplicity(tail, set2, threshold, c);
      RowMultiplicity(x, set2, threshold, c);
      assert set1 == [x] + tail;
      assert multiset(set1) == multiset{x} + multiset(tail);
      assert multiset(CrossClashes(set1, set2, threshold))
          == multiset(Row(x, set2, threshold)) + multiset(CrossClashes(tail, set2, threshold));
      if IsClash(c, threshold) {
        var m := multiset(set2)[c.bc2];
        var k := multiset(tail)[c.bc1];
        if c.bc1 == x {
          assert multiset(set1)[c.bc1] == k + 1;
          assert (k + 1) * m == m + k * m;
        } else {
          assert multiset(set1)[c.bc1] == k;
        }
      }
    }
  }

  /** The records come in row-major order: splitting the first set splits
      the report at the same place. */
  lemma {:induction false} CrossAppend(a: seq<string>, b: seq<string>, set2: seq<string>, threshold: nat)
    ensures CrossClashes(a + b, set2, threshold)
        == CrossClashes(a, set2, threshold) + CrossClashes(b, set2, threshold)
  {
    if a != [] {
      calc {
        CrossClashes(a + b, set2, threshold);
        { assert (a + b)[0] == a[0]; assert (a + b)[1..] == a[1..] + b; }
        Row(a[0], set2, threshold) + CrossClashes(a[1..] + b, set2, threshold);
        { CrossAppend(a[1..], b, set2, threshold); }
        Row(a[0], set2, threshold) + (CrossClashes(a[1..], set2, threshold) + CrossClashes(b, set2, threshold));
        { ConcatAssoc(Row(a[0], set2, threshold), CrossClashes(a[1..], set2, threshold), CrossClashes(b, set2, threshold)); }
        CrossClashes(a, set2, threshold) + CrossClashes(b, set2, threshold);
      }
    } else {
      assert a + b == b;
    }
  }

  /** A first set of one barcode reports exactly that barcode's row. */
  lemma {:induction false} CrossSingle(x: string, set2: seq<string>, threshold: nat)
    ensures CrossClashes([x], set2, threshold) == Row(x, set2, threshold)
  {
    assert [x][1..] == [];
    assert CrossClashes([x], set2, threshold) == Row(x, set2, threshold) + CrossClashes([], set2, threshold);
  }

  /** At most one record per pair of positions. */
  lemma {:induction false} CrossLength(set1: seq<string>, set2: seq<string>, threshold: nat)
    ensures |CrossClashes(set1, set2, threshold)| <= |set1| * |set2|
  {
    if set1 != [] {
      CrossLength(set1[1..], set2, threshold);
      RowLength(set1[0], set2, threshold);
      assert |set1| * |set2| == |set2| + (|set1| - 1) * |set2|;
    }
  }

  /** The positions of `ys` whose barcode is within the threshold of `x`. */
  ghost function RowIndices(x: string, ys: seq<string>, threshold: nat): set<nat> {
    set j: nat | j < |ys| && AtMost(HammingDistance(x, ys[j]), threshold)
  }

  /** The position pairs `(i, j)` whose barcodes are within the threshold. */
  ghost function PairIndices(set1: seq<string>, set2: seq<string>, threshold: nat): set<(nat, nat)> {
    set i: nat, j: nat | i < |set1| && j < |set2| && AtMost(HammingDistance(set1[i], set2[j]), threshold) :: (i, j)
  }

  /** A row has one record per position of `ys` within the threshold of `x`. */
  lemma {:induction false} RowCount(x: string, ys: seq<string>, threshold: nat)
    ensures |Row(x, ys, threshold)| == |RowIndices(x, ys, threshold)|
  {
    if ys != [] {
      var n := |ys| - 1;
      var front := ys[..n];
      assert ys == front + [ys[n]];
      RowAppend(x, front, [ys[n]], threshold);
      RowCount(x, front, threshold);
      assert Row(x, [ys[n]], threshold) == Compare(x, ys[n], threshold) + Row(x, [], threshold);
      RowIndicesSnoc(x, ys, threshold);
    }
  }

  /** The positions of `ys` within the threshold are those of its front,
      plus its last position when that one is within the threshold too. */
  lemma RowIndicesSnoc(x: string, ys: seq<string>, threshold: nat)
    requires ys != []
    ensures var n := |ys| - 1;
      RowIndices(x, ys, threshold) == RowIndices(x, ys[..n], threshold)
        + (if AtMost(HammingDistance(x, ys[n]), threshold) then {n} else {})
  {
    var n := |ys| - 1;
    assert forall j :: 0 <= j < n ==> ys[..n][j] == ys[j];
  }

  /** The positions `js` of row `i`, as position pairs. */
  ghost function Tag(i: nat, js: set<nat>): set<(nat, nat)> {
    set j | j in js :: (i, j)
  }

  /** Tagging a set of positions with their row keeps its size. */
  lemma {:induction false} TagCount(i: nat, js: set<nat>)
    ensures |Tag(i, js)| == |js|
  {
    if js != {} {
      var j0 :| j0 in js;
      var rest := js - {j0};
      TagCount(i, rest);
      assert js == rest + {j0};
      assert Tag(i, js) == Tag(i, rest) + {(i, j0)};
      assert (i, j0) !in Tag(i, rest);
    }
  }

  /** The position pairs of a first set extended by one barcode: the old
      pairs, plus the new last row, which shares no pair with them. */
  lemma PairIndicesSnoc(set1: seq<string>, set2: seq<string>, threshold: nat)
    requires set1 != []
    ensures PairIndices(set1, set2, threshold)
        == PairIndices(set1[..|set1| - 1], set2, threshold)
           + Tag(|set1| - 1, RowIndices(set1[|set1| - 1], set2, threshold))
    ensures PairIndices(set1[..|set1| - 1], set2, threshold)
          * Tag(|set1| - 1, RowIndices(set1[|set1| - 1], set2, threshold)) == {}
  {
    var n := |set1| - 1;
    assert forall i :: 0 <= i < n ==> set1[..n][i] == set1[i];
  }

  /** The record count is the number of position pairs `(i, j)` whose
      barcodes are within the threshold. */
  lemma {:induction false} CrossCount(set1: seq<string>, set2: seq<string>, threshold: nat)
    ensures |CrossClashes(set1, set2, threshold)| == |PairIndices(set1, set2, threshold)|
  {
    if set1 != [] {
      var n := |set1| - 1;
      var front, x := set1[..n], set1[n];
      assert set1 == front + [x];
      CrossAppend(front, [x], set2, threshold);
      CrossSingle(x, set2, threshold);
      CrossCount(front, set2, threshold);
      RowCount(x, set2, threshold);
      TagCount(n, RowIndices(x, set2, threshold));
      PairIndicesSnoc(set1, set2, threshold);
    }
  }

  /** Swapping the two sets reports the same pairs with the barcodes in
      swapped roles. */
  lemma CrossSwap(set1: seq<string>, set2: seq<string>, threshold: nat, c: Clash)
    ensures c in CrossClashes(set1, set2, threshold)
        <==> Clash(c.bc2, c.bc1, c.distance) in CrossClashes(set2, set1, threshold)
  {
    CrossMembers(set1, set2, threshold, c);
    CrossMembers(set2, set1, threshold, Clash(c.bc2, c.bc1, c.distance));
    HammingSymmetric(c.bc1, c.bc2);
  }

  /** A barcode present in both sets always clashes with itself, at
      distance 0, whatever the threshold. */
  lemma SharedBarcodeClashes(set1: seq<string>, set2: seq<string>, threshold: nat, x: string)
    requires x in set1 && x in set2
    ensures Clash(x, x, 0) in CrossClashes(set1, set2, threshold)
  {
    HammingZeroIffEqual(x, x);
    CrossMembers(set1, set2, threshold, Clash(x, x, 0));
  }

  /** Lowering the threshold only drops the records above it. */
  lemma {:induction false} CrossMonotone(set1: seq<string>, set2: seq<string>, t: nat, t': nat)
    requires t <= t'
    ensures CrossClashes(set1, set2, t) == KeepAtMost(CrossClashes(set1, set2, t'), t)
    ensures multiset(CrossClashes(set1, set2, t)) <= multiset(CrossClashes(set1, set2, t'))
  {
    if set1 != [] {
      CrossMonotone(set1[1..], set2, t, t');
      RowMonotone(set1[0], set2, t, t');
      KeepAppend(Row(set1[0], set2, t'), CrossClashes(set1[1..], set2, t'), t);
    }
    KeepShrinks(CrossClashes(set1, set2, t'), t);
  }

  /** Example: `["AAAA"]` against `["AAAA", "TTTT"]` at
      threshold 0 reports the one identical pair, at distance 0. */
  lemma ExampleIdenticalPair()
    ensures CrossClashes(["AAAA"], ["AAAA", "TTTT"], 0) == [Clash("AAAA", "AAAA", 0)]
  {
    var set2 := ["AAAA", "TTTT"];
    CrossSingle("AAAA", set2, 0);
    HammingZeroIffEqual("AAAA", "AAAA");
    HammingZeroIffEqual("AAAA", "TTTT");
    assert set2[1..] == ["TTTT"] && set2[1..][1..] == [];
    assert Row("AAAA", set2, 0) == Compare("AAAA", "AAAA", 0) + Row("AAAA", ["TTTT"], 0);
    assert Row("AAAA", ["TTTT"], 0) == Compare("AAAA", "TTTT", 0) + Row("AAAA", [], 0);
  }
}
