/**
 * Row labels A, B, ..., Z, AA, ..., ZZZ and the numbers they stand for: base 26
 * without a zero. Labels are taken after trimming and conversion to upper case.
 */
module RowLabels {
  import opened Common

  const ALPHABET_SIZE := 26
  const LAST_NUMBER := 18_278

  predicate IsLetter(c: char) {
    'A' <= c <= 'Z'
  }

  predicate Letters(s: string) {
    forall i :: 0 <= i < |s| ==> IsLetter(s[i])
  }

  function LetterNumber(c: char): int
    requires IsLetter(c)
  {
    (c - 'A') as int + 1
  }

  function LetterAt(n: int): char
    requires 0 <= n < ALPHABET_SIZE
  {
    'A' + n as char
  }

  /** The reduction over the letters of a label. */
  function ValueOf(s: string): nat
    requires Letters(s)
  {
    if s == "" then 0 else ValueOf(s[..|s| - 1]) * ALPHABET_SIZE + LetterNumber(s[|s| - 1])
  }

  /** rowLabelToNumber; None is its error. */
  function RowLabelToNumber(row: string): Option<nat> {
    if Letters(row) && 1 <= |row| <= 3 then Some(ValueOf(row)) else None
  }

  /** The letters of any number; none for zero. */
  function LabelOf(n: nat): (s: string)
    ensures Letters(s)
  {
    if n == 0 then "" else LabelOf((n - 1) / ALPHABET_SIZE) + [LetterAt((n - 1) % ALPHABET_SIZE)]
  }

  /** numberToRowLabel, with the loop that takes one letter off the remainder at a time; None is its error. */
  method NumberToRowLabel(value: int) returns (r: Option<string>)
    ensures r == if 1 <= value <= LAST_NUMBER then Some(LabelOf(value)) else None
  {
    if value < 1 || value > LAST_NUMBER { return None; }
    var remainder := value;
    var row := "";
    while remainder > 0
      invariant 0 <= remainder && LabelOf(value) == LabelOf(remainder) + row
      decreases remainder
    {
      remainder := remainder - 1;
      row := [LetterAt(remainder % ALPHABET_SIZE)] + row;
      remainder := remainder / ALPHABET_SIZE;
    }
    assert "" + row == row;
    r := Some(row);
  }

  // ------------------------------------------------------------------------
  // A bijection
  // ------------------------------------------------------------------------

  lemma {:induction false} ValueOfLabel(n: nat)
    ensures ValueOf(LabelOf(n)) == n
  {
    if n > 0 {
      var front := LabelOf((n - 1) / ALPHABET_SIZE);
      ValueOfLabel((n - 1) / ALPHABET_SIZE);
      assert LabelOf(n)[..|LabelOf(n)| - 1] == front;
    }
  }

  lemma {:induction false} LabelOfValue(s: string)
    requires Letters(s)
    ensures LabelOf(ValueOf(s)) == s
  {
    if s != "" {
      var front, last := s[..|s| - 1], s[|s| - 1];
      LabelOfValue(front);
      var n := ValueOf(s);
      assert n - 1 == ValueOf(front) * ALPHABET_SIZE + (LetterNumber(last) - 1);
      assert (n - 1) / ALPHABET_SIZE == ValueOf(front) && (n - 1) % ALPHABET_SIZE == LetterNumber(last) - 1;
      assert s == front + [last];
    }
  }

  /** Exactly the numbers up to 18278 have labels of at most three letters. */
  lemma LabelLength(n: nat)
    ensures |LabelOf(n)| <= 3 <==> n <= LAST_NUMBER
  {
    var a := if n > 0 then (n - 1) / ALPHABET_SIZE else 0;
    var b := if a > 0 then (a - 1) / ALPHABET_SIZE else 0;
    var c := if b > 0 then (b - 1) / ALPHABET_SIZE else 0;
    if n > 0 { assert |LabelOf(n)| == |LabelOf(a)| + 1; }
    if a > 0 { assert |LabelOf(a)| == |LabelOf(b)| + 1; }
    if b > 0 { assert |LabelOf(b)| == |LabelOf(c)| + 1; }
  }

  /** A label has a number exactly when that number, within the range, has the label. */
  lemma LabelsAndNumbers(row: string, n: nat)
    requires n >= 1
    ensures RowLabelToNumber(row) == Some(n) <==> n <= LAST_NUMBER && LabelOf(n) == row
  {
    ValueOfLabel(n);
    LabelLength(n);
    if Letters(row) { LabelOfValue(row); }
    if LabelOf(n) == row { assert row != ""; }
  }

  // ------------------------------------------------------------------------
  // Ranges
  // ------------------------------------------------------------------------

  /** generateRowLabels; None when any of the numbers is out of range, or the start has none. */
  method GenerateRowLabels(startLabel: string, count: nat) returns (r: Option<seq<string>>)
    ensures r.Some? <==> (
      RowLabelToNumber(startLabel).Some?
      && (count > 0 ==> RowLabelToNumber(startLabel).value + count - 1 <= LAST_NUMBER))
    ensures r.Some? ==> |r.value| == count && Distinct(r.value)
    ensures r.Some? ==> forall i :: 0 <= i < count ==>
      RowLabelToNumber(r.value[i]) == Some(RowLabelToNumber(startLabel).value + i)
    ensures r.Some? && count > 0 ==> r.value[0] == startLabel
  {
    var start := RowLabelToNumber(startLabel);
    if start.None? { return None; }
    StartIsPositive(startLabel);
    var labels := [];
    for i := 0 to count
      invariant |labels| == i && (i > 0 ==> start.value + i - 1 <= LAST_NUMBER)
      invariant forall k :: 0 <= k < i ==> RowLabelToNumber(labels[k]) == Some(start.value + k)
    {
      var row := NumberToRowLabel(start.value + i);
      if row.None? { return None; }
      LabelsAndNumbers(row.value, start.value + i);
      labels := labels + [row.value];
    }
    if count > 0 {
      LabelsAndNumbers(labels[0], start.value);
      LabelsAndNumbers(startLabel, start.value);
    }
    r := Some(labels);
  }

  lemma StartIsPositive(row: string)
    requires RowLabelToNumber(row).Some?
    ensures RowLabelToNumber(row).value >= 1
  {
  }

  // ------------------------------------------------------------------------
  // Labels in order
  // ------------------------------------------------------------------------

  /** Alphabetical order of labels of one length. */
  predicate Before(a: string, b: string)
    requires |a| == |b|
    decreases |a|
  {
    a != "" &&
    var last := |a| - 1;
    Before(a[..last], b[..last]) || (a[..last] == b[..last] && a[last] < b[last])
  }

  lemma {:induction false} BeforeIsLess(a: string, b: string)
    requires Letters(a) && Letters(b) && |a| == |b|
    ensures Before(a, b) <==> ValueOf(a) < ValueOf(b)
    decreases |a|
  {
    if a != "" {
      var last := |a| - 1;
      BeforeIsLess(a[..last], b[..last]);
      BeforeIsLess(b[..last], a[..last]);
      if ValueOf(a[..last]) == ValueOf(b[..last]) {
        LabelOfValue(a[..last]);
        LabelOfValue(b[..last]);
      }
    }
  }

  lemma {:induction false} ShorterIsLess(a: string, b: string)
    requires Letters(a) && Letters(b) && |a| < |b|
    ensures ValueOf(a) < ValueOf(b)
  {
    if a != "" { ShorterIsLess(a[..|a| - 1], b[..|b| - 1]); }
  }

  /** Rows are numbered from A on, shorter labels first and those of one length in alphabetical order. */
  lemma NumberedInOrder(a: string, b: string)
    requires Letters(a) && Letters(b)
    ensures ValueOf(a) < ValueOf(b) <==> |a| < |b| || (|a| == |b| && Before(a, b))
    ensures ValueOf("A") == 1 && ValueOf("Z") == 26 && ValueOf("AA") == 27
  {
    if |a| < |b| { ShorterIsLess(a, b); }
    if |b| < |a| { ShorterIsLess(b, a); }
    if |a| == |b| { BeforeIsLess(a, b); }
    assert "AA"[..1] == "A" && "A"[..0] == "" && "Z"[..0] == "";
  }
}
