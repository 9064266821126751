/**
 * The barcode validator (`validate_barcodes`): every input string is
 * stripped and upper-cased; the cleaned form is kept when it is a DNA
 * sequence, and the original string is reported otherwise.
 */
module Validator {
  import opened Text

  predicate IsBase(c: char) {
    c == 'A' || c == 'C' || c == 'G' || c == 'T'
  }

  /** `bc_clean and all(c in 'ACGT' for c in bc_clean)`. */
  predicate IsDna(s: string) {
    |s| > 0 && forall i :: 0 <= i < |s| ==> IsBase(s[i])
  }

  /** What one input contributes to `valid`: its cleaned form when that is
      a DNA sequence, nothing otherwise. */
  function Accepted(bc: string): seq<string> {
    var clean := Normalize(bc);
    if IsDna(clean) then [clean] else []
  }

  /** What one input contributes to `invalid`: itself, unmodified, when its
      cleaned form is not a DNA sequence, nothing otherwise. */
  function Rejected(bc: string): seq<string> {
    if IsDna(Normalize(bc)) then [] else [bc]
  }

  /** The `valid` list: the cleaned forms of the accepted inputs, in input
      order. */
  function ValidOf(barcodes: seq<string>): seq<string> {
    if barcodes == [] then [] else Accepted(barcodes[0]) + ValidOf(barcodes[1..])
  }

  /** The `invalid` list: the rejected inputs, unmodified, in input order. */
  function InvalidOf(barcodes: seq<string>): seq<string> {
    if barcodes == [] then [] else Rejected(barcodes[0]) + InvalidOf(barcodes[1..])
  }

  /** `validate_barcodes(barcodes)`: one pass that appends each input to
      exactly one of the two lists. */
  method ValidateBarcodes(barcodes: seq<string>) returns (valid: seq<string>, invalid: seq<string>)
    ensures valid == ValidOf(barcodes)
    ensures invalid == InvalidOf(barcodes)
  {
    valid, invalid := [], [];
    for i := 0 to |barcodes|
      invariant valid == ValidOf(barcodes[..i])
      invariant invalid == InvalidOf(barcodes[..i])
    {
      assert barcodes[..i + 1] == barcodes[..i] + [barcodes[i]];
      ValidAppend(barcodes[..i], [barcodes[i]]);
      InvalidAppend(barcodes[..i], [barcodes[i]]);
      var clean := Normalize(barcodes[i]);
      if IsDna(clean) {
        assert ValidOf([barcodes[i]]) == [clean] && InvalidOf([barcodes[i]]) == [];
        valid := valid + [clean];
      } else {
        assert ValidOf([barcodes[i]]) == [] && InvalidOf([barcodes[i]]) == [barcodes[i]];
        invalid := invalid + [barcodes[i]];
      }
    }
    assert barcodes[..|barcodes|] == barcodes;
  }

  /** Both lists distribute over concatenation of the input. */
  lemma {:induction false} ValidAppend(a: seq<string>, b: seq<string>)
    ensures ValidOf(a + b) == ValidOf(a) + ValidOf(b)
  {
    if a != [] {
      calc {
        ValidOf(a + b);
        { assert (a + b)[0] == a[0]; assert (a + b)[1..] == a[1..] + b; }
        Accepted(a[0]) + ValidOf(a[1..] + b);
        { ValidAppend(a[1..], b); }
        Accepted(a[0]) + (ValidOf(a[1..]) + ValidOf(b));
        (Accepted(a[0]) + ValidOf(a[1..])) + ValidOf(b);
      }
    } else {
      assert a + b == b;
    }
  }

  lemma {:induction false} InvalidAppend(a: seq<string>, b: seq<string>)
    ensures InvalidOf(a + b) == InvalidOf(a) + InvalidOf(b)
  {
    if a != [] {
      calc {
        InvalidOf(a + b);
        { assert (a + b)[0] == a[0]; assert (a + b)[1..] == a[1..] + b; }
        Rejected(a[0]) + InvalidOf(a[1..] + b);
        { InvalidAppend(a[1..], b); }
        Rejected(a[0]) + (InvalidOf(a[1..]) + InvalidOf(b));
        (Rejected(a[0]) + InvalidOf(a[1..])) + InvalidOf(b);
      }
    } else {
      assert a + b == b;
    }
  }

  /** Every input lands in exactly one output, so the sizes add up. */
  lemma {:induction false} PartitionSizes(barcodes: seq<string>)
    ensures |ValidOf(barcodes)| + |InvalidOf(barcodes)| == |barcodes|
  {
    if barcodes != [] {
      PartitionSizes(barcodes[1..]);
    }
  }

  /** Order is kept: with `k` accepted and `m` rejected inputs before input
      `i` (so `k + m == i`), input `i` is either entry `k` of `valid`, in
      cleaned form, or entry `m` of `invalid`, unmodified. */
  lemma PartitionAt(barcodes: seq<string>, i: nat)
    requires i < |barcodes|
    ensures |ValidOf(barcodes[..i])| + |InvalidOf(barcodes[..i])| == i
    ensures var k, m := |ValidOf(barcodes[..i])|, |InvalidOf(barcodes[..i])|;
      if IsDna(Normalize(barcodes[i]))
      then k < |ValidOf(barcodes)| && ValidOf(barcodes)[k] == Normalize(barcodes[i])
      else m < |InvalidOf(barcodes)| && InvalidOf(barcodes)[m] == barcodes[i]
  {
    assert barcodes == barcodes[..i] + barcodes[i..];
    ValidAppend(barcodes[..i], barcodes[i..]);
    InvalidAppend(barcodes[..i], barcodes[i..]);
    PartitionSizes(barcodes[..i]);
    assert barcodes[i..][0] == barcodes[i];
  }

  /** `x` is in `valid` exactly when it is the cleaned, accepted form of some
      input. */
  lemma {:induction false} ValidMembers(barcodes: seq<string>, x: string)
    ensures x in ValidOf(barcodes) <==>
      exists i :: 0 <= i < |barcodes| && Normalize(barcodes[i]) == x && IsDna(x)
  {
    if barcodes != [] {
      ValidMembers(barcodes[1..], x);
      if x in ValidOf(barcodes[1..]) {
        var i :| 0 <= i < |barcodes[1..]| && Normalize(barcodes[1..][i]) == x && IsDna(x);
        assert Normalize(barcodes[i + 1]) == x;
      }
      if exists i :: 0 <= i < |barcodes| && Normalize(barcodes[i]) == x && IsDna(x) {
        var i :| 0 <= i < |barcodes| && Normalize(barcodes[i]) == x && IsDna(x);
        if i > 0 {
          assert barcodes[1..][i - 1] == barcodes[i];
        }
      }
    }
  }

  /** `x` is in `invalid` exactly when it is an input whose cleaned form is
      rejected. */
  lemma {:induction false} InvalidMembers(barcodes: seq<string>, x: string)
    ensures x in InvalidOf(barcodes) <==> x in barcodes && !IsDna(Normalize(x))
  {
    if barcodes != [] {
      InvalidMembers(barcodes[1..], x);
      assert barcodes == [barcodes[0]] + barcodes[1..];
    }
  }

  /** A DNA sequence has nothing to strip and nothing to upper-case. */
  lemma DnaIsNormal(s: string)
    requires IsDna(s)
    ensures Normalize(s) == s
  {
    StripOfStripped(s);
  }

  /** Inputs that are all DNA sequences are accepted unchanged. */
  lemma {:induction false} AllDnaAccepted(barcodes: seq<string>)
    requires forall x :: x in barcodes ==> IsDna(x)
    ensures ValidOf(barcodes) == barcodes
    ensures InvalidOf(barcodes) == []
  {
    if barcodes != [] {
      DnaIsNormal(barcodes[0]);
      AllDnaAccepted(barcodes[1..]);
      assert barcodes == [barcodes[0]] + barcodes[1..];
    }
  }

  /** Revalidating the `valid` list returns it unchanged, with nothing
      rejected. */
  lemma ValidateIdempotent(barcodes: seq<string>)
    ensures ValidOf(ValidOf(barcodes)) == ValidOf(barcodes)
    ensures InvalidOf(ValidOf(barcodes)) == []
  {
    forall x | x in ValidOf(barcodes) ensures IsDna(x) {
      ValidMembers(barcodes, x);
    }
    AllDnaAccepted(ValidOf(barcodes));
  }
}
