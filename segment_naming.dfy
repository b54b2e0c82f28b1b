/**
 * The name given to each segment by `splitPdf`: the original file name with
 * every ".pdf" replaced by "_segment_" + (i + 1) + ".pdf".
 *
 * `ReplaceAll` is `String.replace(CharSequence, CharSequence)`: it scans left
 * to right and replaces non-overlapping occurrences. `DecimalString` is the
 * decimal rendering Java uses when an `int` is concatenated to a string.
 */
module SegmentNaming {

  const PdfSuffix: string := ".pdf"
  const SegmentInfix: string := "_segment_"

  predicate IsDigit(c: char) {
    '0' <= c <= '9'
  }

  predicate AllDigits(s: string) {
    forall i :: 0 <= i < |s| ==> IsDigit(s[i])
  }

  /** The decimal digits of `n`, most significant first, without leading zeros. */
  function DecimalString(n: nat): (d: string)
    ensures |d| > 0 && AllDigits(d)
  {
    var last := ['0' + (n % 10) as char];
    if n < 10 then last else DecimalString(n / 10) + last
  }

  /** Reads a string of decimal digits back as a number. */
  function ParseDecimal(d: string): nat
    requires AllDigits(d)
  {
    if |d| == 0 then 0
    else ParseDecimal(d[..|d| - 1]) * 10 + (d[|d| - 1] - '0') as nat
  }

  /** Parsing undoes the decimal rendering. */
  lemma {:induction false} DecimalRoundTrip(n: nat)
    ensures ParseDecimal(DecimalString(n)) == n
  {
    var d := DecimalString(n);
    assert d[..|d| - 1] == if n < 10 then [] else DecimalString(n / 10);
    if n >= 10 {
      DecimalRoundTrip(n / 10);
    }
  }

  /** Different numbers are rendered differently. */
  lemma DecimalInjective(n: nat, m: nat)
    requires n != m
    ensures DecimalString(n) != DecimalString(m)
  {
    DecimalRoundTrip(n);
    DecimalRoundTrip(m);
  }

  /** `pat` occurs in `s` at position `i`. */
  predicate OccursAt(pat: string, s: string, i: int) {
    0 <= i && i + |pat| <= |s| && s[i..i + |pat|] == pat
  }

  predicate Occurs(pat: string, s: string) {
    exists i :: 0 <= i <= |s| && OccursAt(pat, s, i)
  }

  /** `s.replace(pat, rep)`: every non-overlapping occurrence of `pat`, leftmost first, becomes `rep`. */
  function ReplaceAll(s: string, pat: string, rep: string): string
    requires |pat| > 0
    decreases |s|
  {
    if |s| < |pat| then s
    else if s[..|pat|] == pat then rep + ReplaceAll(s[|pat|..], pat, rep)
    else [s[0]] + ReplaceAll(s[1..], pat, rep)
  }

  /** Without an occurrence of `pat`, replacing leaves `s` as it is. */
  lemma {:induction false} ReplaceAbsent(s: string, pat: string, rep: string)
    requires |pat| > 0 && !Occurs(pat, s)
    ensures ReplaceAll(s, pat, rep) == s
  {
    if |s| >= |pat| {
      assert !OccursAt(pat, s, 0);
      forall i | OccursAt(pat, s[1..], i)
        ensures false
      {
        assert s[i + 1..i + 1 + |pat|] == s[1..][i..i + |pat|];
        assert OccursAt(pat, s, i + 1);
      }
      ReplaceAbsent(s[1..], pat, rep);
      assert s == [s[0]] + s[1..];
    }
  }

  /** An occurrence after the first character is an occurrence in the tail. */
  lemma OccursInTail(pat: string, s: string, i: int)
    requires OccursAt(pat, s, i) && i > 0
    ensures OccursAt(pat, s[1..], i - 1)
  {
    assert s[1..][i - 1..i - 1 + |pat|] == s[i..i + |pat|];
  }

  /** Where `pat` does not start at the head, the head is copied and replacing goes on from the next character. */
  lemma ReplaceStep(s: string, pat: string, rep: string)
    requires |pat| > 0 && |s| >= |pat| && s[..|pat|] != pat
    ensures ReplaceAll(s, pat, rep) == [s[0]] + ReplaceAll(s[1..], pat, rep)
  {
  }

  /**
   * Replacing with two texts that differ at a position both have yields
   * different results as soon as `pat` occurs.
   */
  lemma {:induction false} ReplaceDistinguishes(s: string, pat: string, r1: string, r2: string, d: nat)
    requires |pat| > 0 && Occurs(pat, s)
    requires d < |r1| && d < |r2| && r1[d] != r2[d]
    ensures ReplaceAll(s, pat, r1) != ReplaceAll(s, pat, r2)
    decreases |s|
  {
    var i :| 0 <= i <= |s| && OccursAt(pat, s, i);
    if s[..|pat|] == pat {
      var a := ReplaceAll(s, pat, r1);
      var b := ReplaceAll(s, pat, r2);
      assert a[d] == r1[d];
      assert b[d] == r2[d];
    } else {
      assert i > 0;
      OccursInTail(pat, s, i);
      ReplaceDistinguishes(s[1..], pat, r1, r2, d);
      var a := ReplaceAll(s[1..], pat, r1);
      var b := ReplaceAll(s[1..], pat, r2);
      assert ([s[0]] + a)[1..] == a;
      assert ([s[0]] + b)[1..] == b;
    }
  }

  /** The name of segment `i` (numbered from 0) cut from the file `original`. */
  function SegmentName(original: string, i: nat): string {
    ReplaceAll(original, PdfSuffix, SegmentInfix + DecimalString(i + 1) + PdfSuffix)
  }

  /** A name without ".pdf" is given unchanged to every segment. */
  lemma SegmentNameWithoutSuffix(original: string, i: nat)
    requires !Occurs(PdfSuffix, original)
    ensures SegmentName(original, i) == original
  {
    ReplaceAbsent(original, PdfSuffix, SegmentInfix + DecimalString(i + 1) + PdfSuffix);
  }

  /**
   * Two different decimal numbers, each followed by ".pdf", differ at a
   * position both have.
   */
  lemma DigitsThenDot(d1: string, d2: string, t: string) returns (p: nat)
    requires AllDigits(d1) && AllDigits(d2) && d1 != d2
    requires |t| > 0 && t[0] == '.'
    ensures p < |d1 + t| && p < |d2 + t| && (d1 + t)[p] != (d2 + t)[p]
  {
    if |d1| < |d2| {
      p := |d1|;
      assert (d1 + t)[p] == '.';
      assert (d2 + t)[p] == d2[p];
    } else if |d2| < |d1| {
      p := |d2|;
      assert (d2 + t)[p] == '.';
      assert (d1 + t)[p] == d1[p];
    } else {
      p :| 0 <= p < |d1| && d1[p] != d2[p];
      assert (d1 + t)[p] == d1[p];
      assert (d2 + t)[p] == d2[p];
    }
  }

  /** A name containing ".pdf" gives every segment its own name. */
  lemma SegmentNamesDistinct(original: string, i: nat, j: nat)
    requires Occurs(PdfSuffix, original) && i != j
    ensures SegmentName(original, i) != SegmentName(original, j)
  {
    var di := DecimalString(i + 1);
    var dj := DecimalString(j + 1);
    DecimalInjective(i + 1, j + 1);
    var p := DigitsThenDot(di, dj, PdfSuffix);
    var ri := SegmentInfix + di + PdfSuffix;
    var rj := SegmentInfix + dj + PdfSuffix;
    assert ri == SegmentInfix + (di + PdfSuffix);
    assert rj == SegmentInfix + (dj + PdfSuffix);
    var d := |SegmentInfix| + p;
    assert ri[d] == (di + PdfSuffix)[p];
    assert rj[d] == (dj + PdfSuffix)[p];
    ReplaceDistinguishes(original, PdfSuffix, ri, rj, d);
  }

  /** In a stem without '.' followed by ".pdf", only that final ".pdf" is replaced. */
  lemma {:induction false} ReplaceAfterStem(stem: string, rep: string)
    requires '.' !in stem
    ensures ReplaceAll(stem + PdfSuffix, PdfSuffix, rep) == stem + rep
  {
    var s := stem + PdfSuffix;
    if |stem| == 0 {
      assert s == PdfSuffix;
      assert s[|PdfSuffix|..] == [];
    } else {
      assert s[..|PdfSuffix|][0] == stem[0] != '.';
      ReplaceStep(s, PdfSuffix, rep);
      assert s[1..] == stem[1..] + PdfSuffix;
      assert stem[0] in stem;
      ReplaceAfterStem(stem[1..], rep);
      assert stem == [stem[0]] + stem[1..];
    }
  }

  /** The usual case: "name.pdf" gives "name_segment_1.pdf", "name_segment_2.pdf", ... */
  lemma SegmentNameOfPdf(stem: string, i: nat)
    requires '.' !in stem
    ensures SegmentName(stem + PdfSuffix, i) == stem + SegmentInfix + DecimalString(i + 1) + PdfSuffix
  {
    ReplaceAfterStem(stem, SegmentInfix + DecimalString(i + 1) + PdfSuffix);
  }

  /** The first segment of "report.pdf" is "report_segment_1.pdf". */
  lemma ExampleSegmentName(stem: string, i: nat)
    requires stem == "report" && i == 0
    ensures SegmentName(stem + PdfSuffix, i) == "report_segment_1.pdf"
  {
    SegmentNameOfPdf(stem, i);
    assert DecimalString(i + 1) == "1";
  }
}
