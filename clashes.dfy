/**
 * Clash records and the comparison step both detectors share: compare one
 * barcode against a list of barcodes and record every pair whose Hamming
 * distance is at most the threshold (`if distance <= max_distance:
 * clashes.append(...)`).
 */
module Clashes {
  import opened Hamming

  /** One clash record: the two barcodes and their distance. The display
      keys of the source's dictionaries are not part of the value. */
  datatype Clash = Clash(bc1: string, bc2: string, distance: nat)

  /** `c` is a record a detector may emit at this threshold: its distance
      is the Hamming distance of its two barcodes and at most `threshold`. */
  predicate IsClash(c: Clash, threshold: nat) {
    HammingDistance(c.bc1, c.bc2) == Finite(c.distance) && c.distance <= threshold
  }

  /** The records one comparison of `x` with `y` appends: one record when
      their distance is at most the threshold, none otherwise. */
  function Compare(x: string, y: string, threshold: nat): (r: seq<Clash>)
    ensures |r| <= 1
    ensures r != [] <==> AtMost(HammingDistance(x, y), threshold)
    ensures forall c :: c in r ==> c.bc1 == x && c.bc2 == y && IsClash(c, threshold)
  {
    var d := HammingDistance(x, y);
    if AtMost(d, threshold) then [Clash(x, y, d.count)] else []
  }

  /** The records of comparing `x` with each of `ys` in turn. */
  function Row(x: string, ys: seq<string>, threshold: nat): seq<Clash> {
    if ys == [] then [] else Compare(x, ys[0], threshold) + Row(x, ys[1..], threshold)
  }

  /** The inner comparison loop of both detectors: compare `x` with each of
      `ys` in turn and append a record for every one within the threshold. */
  method CompareRow(x: string, ys: seq<string>, maxDistance: nat) returns (clashes: seq<Clash>)
    ensures clashes == Row(x, ys, maxDistance)
  {
    clashes := [];
    assert ys[..0] == [];
    for j := 0 to |ys|
      invariant clashes == Row(x, ys[..j], maxDistance)
    {
      RowSnoc(x, ys[..j], ys[j], maxDistance);
      assert ys[..j + 1] == ys[..j] + [ys[j]];
      var distance := HammingDistance(x, ys[j]);
      if AtMost(distance, maxDistance) {
        clashes := clashes + [Clash(x, ys[j], distance.count)];
      }
    }
    assert ys[..|ys|] == ys;
  }

  /** The records whose distance is at most `threshold`, in order. */
  function KeepAtMost(cs: seq<Clash>, threshold: nat): seq<Clash> {
    if cs == [] then []
    else (if cs[0].distance <= threshold then [cs[0]] else []) + KeepAtMost(cs[1..], threshold)
  }

  /** There are no two equal elements. */
  predicate NoDuplicates<T(==)>(s: seq<T>) {
    forall i, j :: 0 <= i < j < |s| ==> s[i] != s[j]
  }

  /** One comparison emits exactly the clash record of the pair, when there
      is one: no clash record of `x` and `y` is missed. */
  lemma CompareExact(x: string, y: string, threshold: nat, c: Clash)
    ensures c in Compare(x, y, threshold) <==> c.bc1 == x && c.bc2 == y && IsClash(c, threshold)
  {
  }

  /** A record is in a row exactly when it pairs `x` with a member of `ys`
      and is a clash record: the row is sound and misses nothing. */
  lemma {:induction false} RowMembers(x: string, ys: seq<string>, threshold: nat, c: Clash)
    ensures c in Row(x, ys, threshold) <==> c.bc1 == x && c.bc2 in ys && IsClash(c, threshold)
  {
    if ys != [] {
      RowMembers(x, ys[1..], threshold, c);
      CompareExact(x, ys[0], threshold, c);
      assert ys == [ys[0]] + ys[1..];
    }
  }

  /** A row holds each clash record once for every occurrence of its second
      barcode in `ys`: duplicates in the input are not collapsed. */
  lemma {:induction false} RowMultiplicity(x: string, ys: seq<string>, threshold: nat, c: Clash)
    ensures multiset(Row(x, ys, threshold))[c] ==
      if c.bc1 == x && IsClash(c, threshold) then multiset(ys)[c.bc2] else 0
  {
    if ys != [] {
      var rest := ys[1..];
      RowMultiplicity(x, rest, threshold, c);
      CompareExact(x, ys[0], threshold, c);
      assert ys == [ys[0]] + rest;
      assert multiset(ys)[c.bc2] == multiset{ys[0]}[c.bc2] + multiset(rest)[c.bc2];
      var head := Compare(x, ys[0], threshold);
      assert multiset(Row(x, ys, threshold))[c]
          == multiset(head)[c] + multiset(Row(x, rest, threshold))[c];
      if c in head {
        assert head == [c];
      } else {
        assert multiset(head)[c] == 0;
      }
    }
  }

  /** A row has at most one record per compared barcode. */
  lemma {:induction false} RowLength(x: string, ys: seq<string>, threshold: nat)
    ensures |Row(x, ys, threshold)| <= |ys|
  {
    if ys != [] {
      RowLength(x, ys[1..], threshold);
      CompareExact(x, ys[0], threshold, Clash(x, ys[0], 0));
    }
  }

  /** Rows distribute over concatenation of the compared list, so records
      come in the order of `ys`. */
  lemma {:induction false} RowAppend(x: string, ys: seq<string>, zs: seq<string>, threshold: nat)
    ensures Row(x, ys + zs, threshold) == Row(x, ys, threshold) + Row(x, zs, threshold)
  {
    if ys != [] {
      calc {
        Row(x, ys + zs, threshold);
        { assert (ys + zs)[0] == ys[0]; assert (ys + zs)[1..] == ys[1..] + zs; }
        Compare(x, ys[0], threshold) + Row(x, ys[1..] + zs, threshold);
        { RowAppend(x, ys[1..], zs, threshold); }
        Compare(x, ys[0], threshold) + (Row(x, ys[1..], threshold) + Row(x, zs, threshold));
      }
    } else {
      assert ys + zs == zs;
    }
  }

  /** Filtering distributes over concatenation. */
  lemma {:induction false} KeepAppend(a: seq<Clash>, b: seq<Clash>, threshold: nat)
    ensures KeepAtMost(a + b, threshold) == KeepAtMost(a, threshold) + KeepAtMost(b, threshold)
  {
    if a != [] {
      KeepAppend(a[1..], b, threshold);
      assert (a + b)[0] == a[0];
      assert (a + b)[1..] == a[1..] + b;
    } else {
      assert a + b == b;
    }
  }

  /** Filtering keeps order and only drops records: the result is no longer
      than its input and each record occurs in it at most as often. */
  lemma {:induction false} KeepShrinks(cs: seq<Clash>, threshold: nat)
    ensures |KeepAtMost(cs, threshold)| <= |cs|
    ensures multiset(KeepAtMost(cs, threshold)) <= multiset(cs)
  {
    if cs != [] {
      var rest := cs[1..];
      KeepShrinks(rest, threshold);
      var head := if cs[0].distance <= threshold then [cs[0]] else [];
      assert cs == [cs[0]] + rest;
      assert multiset(cs) == multiset{cs[0]} + multiset(rest);
      assert multiset(KeepAtMost(cs, threshold)) == multiset(head) + multiset(KeepAtMost(rest, threshold));
      assert multiset(head) <= multiset{cs[0]};
    }
  }

  /** Lowering the threshold of a row only drops the records above the new
      threshold; raising it only adds records. */
  lemma {:induction false} RowMonotone(x: string, ys: seq<string>, t: nat, t': nat)
    requires t <= t'
    ensures Row(x, ys, t) == KeepAtMost(Row(x, ys, t'), t)
  {
    if ys != [] {
      RowMonotone(x, ys[1..], t, t');
      KeepAppend(Compare(x, ys[0], t'), Row(x, ys[1..], t'), t);
    }
  }

  /** Regrouping a concatenation of record lists. */
  lemma ConcatAssoc(a: seq<Clash>, b: seq<Clash>, c: seq<Clash>)
    ensures (a + b) + c == a + (b + c)
  {
  }

  /** Comparing with one more barcode appends that comparison's records. */
  lemma RowSnoc(x: string, ys: seq<string>, y: string, threshold: nat)
    ensures Row(x, ys + [y], threshold) == Row(x, ys, threshold) + Compare(x, y, threshold)
  {
    RowAppend(x, ys, [y], threshold);
    assert [y][1..] == [];
    assert Row(x, [y], threshold) == Compare(x, y, threshold) + Row(x, [], threshold);
  }

  /** Two records name the same unordered pair of barcodes. */
  predicate SamePair(c: Clash, e: Clash) {
    (c.bc1 == e.bc1 && c.bc2 == e.bc2) || (c.bc1 == e.bc2 && c.bc2 == e.bc1)
  }

  /** No unordered pair is recorded twice. */
  predicate PairsDistinct(cs: seq<Clash>) {
    forall i, j :: 0 <= i < j < |cs| ==> !SamePair(cs[i], cs[j])
  }

  /** The unordered pair of barcodes a record names. */
  ghost function PairOf(c: Clash): set<string> {
    {c.bc1, c.bc2}
  }

  /** The unordered pairs a list of records names. */
  ghost function PairImage(cs: seq<Clash>): set<set<string>> {
    set c | c in cs :: PairOf(c)
  }

  /** Records naming different pairs name different sets of barcodes. */
  lemma PairOfDiffer(c: Clash, e: Clash)
    requires !SamePair(c, e)
    ensures PairOf(c) != PairOf(e)
  {
    if c.bc1 == e.bc1 {
      assert c.bc2 != e.bc2;
      assert c.bc2 !in PairOf(e) || e.bc2 !in PairOf(c);
    } else {
      assert c.bc1 !in PairOf(e) || c.bc2 != e.bc1;
    }
  }

  /** A list that names every pair once has as many records as pairs. */
  lemma {:induction false} PairImageCount(cs: seq<Clash>)
    requires PairsDistinct(cs)
    ensures |PairImage(cs)| == |cs|
  {
    if cs != [] {
      var rest := cs[1..];
      PairsDistinctTail(cs);
      PairImageCount(rest);
      PairImageCons(cs);
      var img, p := PairImage(rest), PairOf(cs[0]);
      forall e | e in rest ensures PairOf(e) != p {
        var j :| 0 <= j < |rest| && rest[j] == e;
        assert cs[j + 1] == e;
        PairOfDiffer(cs[0], e);
      }
      assert |img + {p}| == |img| + 1;
    }
  }

  lemma PairsDistinctTail(cs: seq<Clash>)
    requires cs != [] && PairsDistinct(cs)
    ensures PairsDistinct(cs[1..])
  {
    var rest := cs[1..];
    forall i, j | 0 <= i < j < |rest| ensures !SamePair(rest[i], rest[j]) {
      assert rest[i] == cs[i + 1] && rest[j] == cs[j + 1];
    }
  }

  lemma PairImageCons(cs: seq<Clash>)
    requires cs != []
    ensures PairImage(cs) == PairImage(cs[1..]) + {PairOf(cs[0])}
  {
    forall c | c in cs ensures c == cs[0] || c in cs[1..] {
      var k :| 0 <= k < |cs| && cs[k] == c;
      if k > 0 {
        assert cs[1..][k - 1] == c;
      }
    }
  }

  lemma PairsDistinctAppend(a: seq<Clash>, b: seq<Clash>)
    requires PairsDistinct(a) && PairsDistinct(b)
    requires forall c, e :: c in a && e in b ==> !SamePair(c, e)
    ensures PairsDistinct(a + b)
  {
    forall i, j | 0 <= i < j < |a + b| ensures !SamePair((a + b)[i], (a + b)[j]) {
      if j < |a| {
      } else if i >= |a| {
        assert (a + b)[i] == b[i - |a|] && (a + b)[j] == b[j - |a|];
      } else {
        assert (a + b)[i] in a && (a + b)[j] in b;
      }
    }
  }

  /** Comparing `x` with a duplicate-free list that does not contain `x`
      records every unordered pair at most once. */
  lemma {:induction false} RowPairsDistinct(x: string, ys: seq<string>, threshold: nat)
    requires NoDuplicates(ys) && x !in ys
    ensures PairsDistinct(Row(x, ys, threshold))
  {
    if ys != [] {
      var tail := ys[1..];
      assert NoDuplicates(tail) by {
        forall i, j | 0 <= i < j < |tail| ensures tail[i] != tail[j] {
          assert tail[i] == ys[i + 1] && tail[j] == ys[j + 1];
        }
      }
      assert ys == [ys[0]] + tail;
      assert forall j :: 0 <= j < |tail| ==> tail[j] == ys[j + 1];
      assert ys[0] !in tail;
      RowPairsDistinct(x, tail, threshold);
      var head := Compare(x, ys[0], threshold);
      forall c, e | c in head && e in Row(x, tail, threshold) ensures !SamePair(c, e) {
        CompareExact(x, ys[0], threshold, c);
        RowMembers(x, tail, threshold, e);
      }
      assert PairsDistinct(head) by {
        CompareExact(x, ys[0], threshold, Clash(x, ys[0], 0));
      }
      PairsDistinctAppend(head, Row(x, tail, threshold));
    }
  }
}
