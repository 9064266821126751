/**
 * The report rows of the between-set detector. Each clash record becomes a
 * dictionary keyed by column headings built from the user-chosen set names:
 * `"<set 1 name> Barcode"`, `"<set 2 name> Barcode"` and
 * `"Hamming Distance"`. A dictionary display keeps the last value of a
 * repeated key, so when both sets carry the same name the two barcode
 * columns are one key and the first set's barcode is lost.
 * `KeyedRecord` models the rows as written; `LabelledRecord` gives the second
 * barcode column its own heading when the names coincide, and every row of
 * it decodes back to its record.
 */
module Labels {
  import opened Clashes

  /** A cell of a report row: a barcode or a distance. */
  datatype Value = Str(s: string) | Num(n: nat)

  datatype Option<T> = None | Some(value: T)

  type ReportRow = map<string, Value>

  const DistanceKey: string := "Hamming Distance"

  /** The heading of a set's barcode column. */
  function BarcodeKey(name: string): (k: string)
    ensures k != DistanceKey
  {
    var k := name + " Barcode";
    assert k[|name| + 1] == 'B';
    assert |k| == 16 ==> DistanceKey[|name| + 1] == 'i';
    k
  }

  /** The row as written: a dictionary display with the two barcode headings
      and the distance heading, in that order. */
  function KeyedRecord(name1: string, name2: string, c: Clash): ReportRow {
    map[BarcodeKey(name1) := Str(c.bc1)][BarcodeKey(name2) := Str(c.bc2)][DistanceKey := Num(c.distance)]
  }

  /** Reads a record back from a row, given the heading of each barcode
      column; `None` when a column is missing or holds the wrong kind of
      value. */
  function Decode(key1: string, key2: string, row: ReportRow): Option<Clash> {
    if key1 in row && key2 in row && DistanceKey in row
      && row[key1].Str? && row[key2].Str? && row[DistanceKey].Num?
    then Some(Clash(row[key1].s, row[key2].s, row[DistanceKey].n))
    else None
  }

  /** With different set names a row has three columns and reads back as
      its record. */
  lemma KeyedRecordDistinctNames(name1: string, name2: string, c: Clash)
    requires name1 != name2
    ensures |KeyedRecord(name1, name2, c).Keys| == 3
    ensures Decode(BarcodeKey(name1), BarcodeKey(name2), KeyedRecord(name1, name2, c)) == Some(c)
  {
    BarcodeKeyInjective(name1, name2);
    var k1, k2 := BarcodeKey(name1), BarcodeKey(name2);
    assert KeyedRecord(name1, name2, c).Keys == {k1} + {k2} + {DistanceKey};
  }

  /** With the same name for both sets the row has only two columns, its one
      barcode column holds the second set's barcode, and the first set's
      barcode appears nowhere in the row when the two differ. */
  lemma KeyedRecordSameName(name: string, c: Clash)
    ensures |KeyedRecord(name, name, c).Keys| == 2
    ensures KeyedRecord(name, name, c)[BarcodeKey(name)] == Str(c.bc2)
    ensures Decode(BarcodeKey(name), BarcodeKey(name), KeyedRecord(name, name, c))
        == Some(Clash(c.bc2, c.bc2, c.distance))
    ensures c.bc1 != c.bc2 ==> Str(c.bc1) !in KeyedRecord(name, name, c).Values
  {
    var row := KeyedRecord(name, name, c);
    assert row == map[BarcodeKey(name) := Str(c.bc2), DistanceKey := Num(c.distance)];
    assert row.Keys == {BarcodeKey(name)} + {DistanceKey};
  }

  /** Both sets named `Set 1`: the clash of `AAAA` with `AAAT` is shown as a
      row of `AAAT` alone. */
  lemma ExampleSameNameLosesBarcode()
    ensures KeyedRecord("Set 1", "Set 1", Clash("AAAA", "AAAT", 1))
        == map["Set 1 Barcode" := Str("AAAT"), "Hamming Distance" := Num(1)]
    ensures Decode("Set 1 Barcode", "Set 1 Barcode", KeyedRecord("Set 1", "Set 1", Clash("AAAA", "AAAT", 1)))
        != Some(Clash("AAAA", "AAAT", 1))
  {
    var c := Clash("AAAA", "AAAT", 1);
    assert BarcodeKey("Set 1") == "Set 1 Barcode";
    KeyedRecordSameName("Set 1", c);
    assert KeyedRecord("Set 1", "Set 1", c)
        == map["Set 1 Barcode" := Str("AAAT"), DistanceKey := Num(1)];
  }

  /** Barcode headings of different names differ. */
  lemma BarcodeKeyInjective(name1: string, name2: string)
    requires name1 != name2
    ensures BarcodeKey(name1) != BarcodeKey(name2)
  {
    var k1, k2 := BarcodeKey(name1), BarcodeKey(name2);
    if |name1| == |name2| {
      var i :| 0 <= i < |name1| && name1[i] != name2[i];
      assert k1[i] == name1[i] && k2[i] == name2[i];
    } else {
      assert |k1| != |k2|;
    }
  }

  /** The heading of the second barcode column: the set's own heading, or a
      marked one when it would repeat the first set's heading. */
  function SecondKey(name1: string, name2: string): (k: string)
    ensures k != BarcodeKey(name1) && k != DistanceKey
  {
    if name1 != name2 then
      BarcodeKeyInjective(name1, name2);
      BarcodeKey(name2)
    else
      var k := name2 + " Barcode (2)";
      assert |k| == |BarcodeKey(name1)| + 4;
      assert k[|name2| + 1] == 'B';
      assert |k| == 16 ==> DistanceKey[|name2| + 1] == 'n';
      k
  }

  /** The row with a heading of its own for each column. */
  function LabelledRecord(name1: string, name2: string, c: Clash): ReportRow {
    map[BarcodeKey(name1) := Str(c.bc1)][SecondKey(name1, name2) := Str(c.bc2)][DistanceKey := Num(c.distance)]
  }

  /** Whatever the set names, a row has three columns and reads back as its
      record. */
  lemma LabelledRecordRoundTrip(name1: string, name2: string, c: Clash)
    ensures |LabelledRecord(name1, name2, c).Keys| == 3
    ensures Decode(BarcodeKey(name1), SecondKey(name1, name2), LabelledRecord(name1, name2, c)) == Some(c)
  {
    var k1, k2 := BarcodeKey(name1), SecondKey(name1, name2);
    assert LabelledRecord(name1, name2, c).Keys == {k1} + {k2} + {DistanceKey};
  }

  /** It agrees with the rows as written whenever the names differ. */
  lemma LabelledAgreesWithKeyed(name1: string, name2: string, c: Clash)
    requires name1 != name2
    ensures LabelledRecord(name1, name2, c) == KeyedRecord(name1, name2, c)
  {
  }

  /** The report: one row per clash record, in the detector's order. */
  function Report(name1: string, name2: string, cs: seq<Clash>): (rows: seq<ReportRow>)
    ensures |rows| == |cs|
    ensures forall k :: 0 <= k < |cs| ==> rows[k] == LabelledRecord(name1, name2, cs[k])
  {
    if cs == [] then [] else [LabelledRecord(name1, name2, cs[0])] + Report(name1, name2, cs[1..])
  }

  /** Every row of the report reads back as the record at its position. */
  lemma ReportRoundTrip(name1: string, name2: string, cs: seq<Clash>)
    ensures forall k :: 0 <= k < |cs| ==>
      Decode(BarcodeKey(name1), SecondKey(name1, name2), Report(name1, name2, cs)[k]) == Some(cs[k])
  {
    forall k | 0 <= k < |cs|
      ensures Decode(BarcodeKey(name1), SecondKey(name1, name2), Report(name1, name2, cs)[k]) == Some(cs[k])
    {
      LabelledRecordRoundTrip(name1, name2, cs[k]);
    }
  }
}
