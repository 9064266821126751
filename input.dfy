/**
 * Turning pasted text into barcode lists: split at newlines, strip every
 * line and drop the lines that are empty after stripping. The single-set
 * tab keeps the stripped lines (`[bc.strip() for bc in text.split('\n')
 * if bc.strip()]`); the set-comparison tab also upper-cases them.
 */
module Input {
  import opened Text
  import opened Validator

  /** The stripped, non-empty pieces, in order. */
  function KeepStripped(pieces: seq<string>): seq<string> {
    if pieces == [] then []
    else (if Strip(pieces[0]) != [] then [Strip(pieces[0])] else []) + KeepStripped(pieces[1..])
  }

  /** The normalized pieces whose stripped form is non-empty, in order. */
  function KeepNormalized(pieces: seq<string>): seq<string> {
    if pieces == [] then []
    else (if Strip(pieces[0]) != [] then [Normalize(pieces[0])] else []) + KeepNormalized(pieces[1..])
  }

  /** The barcodes of the single-set tab. */
  function StrippedLines(text: string): seq<string> {
    KeepStripped(Split(text, '\n'))
  }

  /** The barcodes of one set in the set-comparison tab. */
  function NormalizedLines(text: string): seq<string> {
    KeepNormalized(Split(text, '\n'))
  }

  /** A kept line is non-empty, has nothing left to strip, and is the
      stripped form of some piece; every piece with a non-empty stripped
      form is kept. */
  lemma {:induction false} KeepStrippedMembers(pieces: seq<string>, x: string)
    ensures x in KeepStripped(pieces) <==>
      x != [] && exists k :: 0 <= k < |pieces| && Strip(pieces[k]) == x
    ensures x in KeepStripped(pieces) ==> IsStripped(x)
  {
    if pieces != [] {
      KeepStrippedMembers(pieces[1..], x);
      StripIsStripped(pieces[0]);
      if exists k :: 0 <= k < |pieces| && Strip(pieces[k]) == x {
        var k :| 0 <= k < |pieces| && Strip(pieces[k]) == x;
        if k > 0 {
          assert pieces[1..][k - 1] == pieces[k];
        }
      }
      if x in KeepStripped(pieces[1..]) {
        var k :| 0 <= k < |pieces[1..]| && Strip(pieces[1..][k]) == x;
        assert Strip(pieces[k + 1]) == x;
      }
    }
  }

  /** Every barcode of the single-set tab is non-empty, has nothing left to
      strip and holds no newline; each is the stripped form of some line of
      the text, and every line that is not blank contributes one. */
  lemma StrippedLinesMembers(text: string, x: string)
    ensures x in StrippedLines(text) <==>
      x != [] && exists k :: 0 <= k < |Split(text, '\n')| && Strip(Split(text, '\n')[k]) == x
    ensures x in StrippedLines(text) ==> IsStripped(x) && '\n' !in x
  {
    var pieces := Split(text, '\n');
    KeepStrippedMembers(pieces, x);
    assert StrippedLines(text) == KeepStripped(pieces);
    if x in StrippedLines(text) {
      var k :| 0 <= k < |pieces| && Strip(pieces[k]) == x;
      StripChars(pieces[k]);
      assert '\n' !in pieces[k];
      assert '\n' !in x;
      assert IsStripped(x);
      assert x != [];
      assert Strip(Split(text, '\n')[k]) == x;
    }
  }

  /** Stripping removes characters and adds none. */
  lemma StripChars(s: string)
    ensures forall c :: c in Strip(s) ==> c in s
  {
    StripShape(s);
    var i, j :| 0 <= i <= j <= |s| && Strip(s) == s[i..j];
    forall c | c in Strip(s) ensures c in s {
      var k :| 0 <= k < |Strip(s)| && Strip(s)[k] == c;
      assert s[i + k] == c;
    }
  }

  /** The set-comparison tab keeps the same lines as the single-set tab,
      upper-cased. */
  lemma {:induction false} NormalizedIsUpperStripped(pieces: seq<string>)
    ensures |KeepNormalized(pieces)| == |KeepStripped(pieces)|
    ensures forall k :: 0 <= k < |KeepStripped(pieces)| ==>
      KeepNormalized(pieces)[k] == Upper(KeepStripped(pieces)[k])
  {
    if pieces != [] {
      NormalizedIsUpperStripped(pieces[1..]);
    }
  }

  /** Validating either tab's lines gives the same `valid` list: upper-casing
      before validation changes nothing the validator keeps. */
  lemma {:induction false} SameValid(pieces: seq<string>)
    ensures ValidOf(KeepNormalized(pieces)) == ValidOf(KeepStripped(pieces))
  {
    if pieces != [] {
      var p, rest := pieces[0], pieces[1..];
      SameValid(rest);
      var hn := if Strip(p) != [] then [Normalize(p)] else [];
      var hs := if Strip(p) != [] then [Strip(p)] else [];
      assert KeepNormalized(pieces) == hn + KeepNormalized(rest);
      assert KeepStripped(pieces) == hs + KeepStripped(rest);
      ValidAppend(hn, KeepNormalized(rest));
      ValidAppend(hs, KeepStripped(rest));
      SameAccepted(p);
      assert ValidOf(hn) == ValidOf(hs) by {
        if Strip(p) != [] {
          ValidSingle(Normalize(p));
          ValidSingle(Strip(p));
        }
      }
    }
  }

  /** A line is accepted in the same cleaned form whether or not it was
      upper-cased or stripped first. */
  lemma SameAccepted(p: string)
    ensures Accepted(Normalize(p)) == Accepted(Strip(p))
  {
    NormalizeIdempotent(p);
    NormalizeStrip(p);
  }

  lemma ValidSingle(x: string)
    ensures ValidOf([x]) == Accepted(x)
  {
    assert [x][1..] == [];
    assert ValidOf([x]) == Accepted(x) + ValidOf([]);
  }

  lemma NormalizedLinesSameValid(text: string)
    ensures ValidOf(NormalizedLines(text)) == ValidOf(StrippedLines(text))
    ensures |NormalizedLines(text)| == |StrippedLines(text)|
  {
    SameValid(Split(text, '\n'));
    NormalizedIsUpperStripped(Split(text, '\n'));
  }

  /** Text that is blank after stripping gives no barcodes at all, matching
      the single-set tab's `if text.strip()` guard (`streamlit_app.py:95`). */
  lemma BlankTextNoLines(text: string)
    requires Strip(text) == []
    ensures StrippedLines(text) == []
  {
    StripShape(text);
    forall c | c in text ensures IsSpace(c) {
      var k :| 0 <= k < |text| && text[k] == c;
    }
    var pieces := Split(text, '\n');
    forall k | 0 <= k < |pieces| ensures Strip(pieces[k]) == [] {
      SplitChars(text, '\n', k);
      AllSpaceStrips(pieces[k]);
    }
    NoKept(pieces);
  }

  /** The pieces of a split hold only characters of the input. */
  lemma {:induction false} SplitChars(s: string, sep: char, k: nat)
    requires k < |Split(s, sep)|
    ensures forall c :: c in Split(s, sep)[k] ==> c in s
  {
    if s != [] {
      var rest := Split(s[1..], sep);
      if s[0] == sep {
        if k > 0 {
          SplitChars(s[1..], sep, k - 1);
        }
      } else if k == 0 {
        SplitChars(s[1..], sep, 0);
      } else {
        SplitChars(s[1..], sep, k);
      }
    }
  }

  /** A string made only of whitespace strips to nothing. */
  lemma {:induction false} AllSpaceStrips(s: string)
    requires forall c :: c in s ==> IsSpace(c)
    ensures Strip(s) == []
  {
    AllSpaceTrims(s);
  }

  lemma {:induction false} AllSpaceTrims(s: string)
    requires forall c :: c in s ==> IsSpace(c)
    ensures TrimStart(s) == []
  {
    if s != [] {
      assert s[0] in s;
      assert forall c :: c in s[1..] ==> c in s;
      AllSpaceTrims(s[1..]);
    }
  }

  /** Pieces that all strip to nothing contribute nothing. */
  lemma {:induction false} NoKept(pieces: seq<string>)
    requires forall k :: 0 <= k < |pieces| ==> Strip(pieces[k]) == []
    ensures KeepStripped(pieces) == []
  {
    if pieces != [] {
      assert forall k :: 0 <= k < |pieces[1..]| ==> pieces[1..][k] == pieces[k + 1];
      NoKept(pieces[1..]);
    }
  }
}
