/** The grade-table step of the extractor (`filter_grades_dataframe`): pick
    the matriculation-number and calculated-grade columns by their two-level
    header keys, split the table into student rows and the trailing footer
    rows, coerce each grade to a number or "missing", and compute the two
    band percentages that extend the footer's summary. */
module Grades {
  import opened Optional
  import opened Text
  import Seqs

  // ---------------------------------------------------------------------
  // The parsed table
  // ---------------------------------------------------------------------

  /** One table cell as the HTML reader hands it over: a number, a text, or
      an empty cell (NaN). */
  datatype Cell = Num(x: real) | Str(s: string) | Blank

  /** A column key of a table with a two-row header: group label, sub-label. */
  datatype ColumnKey = ColumnKey(group: string, sublabel: string)

  /** The grades table: its column keys and its body rows (student rows
      followed by the footer rows). A row shorter than the header reads as
      empty cells past its end. */
  datatype Table = Table(columns: seq<ColumnKey>, rows: seq<seq<Cell>>)

  /** The two required columns, named exactly as the page labels them,
      sort-indicator arrows included. */
  const MatricKey: ColumnKey := ColumnKey("Student \U{2193}\U{2191}", "Matric Number \U{2193}\U{2191}")
  const GradeKey: ColumnKey := ColumnKey("Result \U{2193}\U{2191}", "Calc Grade \U{2193}\U{2191}")

  /** Number of trailing summary rows (count, mean, standard deviation, ...). */
  const FooterSize: nat := 6

  /** A row of the two selected columns. */
  datatype GradeRow = GradeRow(matric: Cell, grade: Cell)

  /** A student row after coercion: the grade is a number or missing. */
  datatype StudentRecord = StudentRecord(matric: Cell, grade: Option<real>)

  /** The module's summary row: the footer rows turned into columns (label
      from the matriculation column, value from the grade column) plus the
      two computed percentages. */
  datatype SummaryRow = SummaryRow(code: string, footer: seq<GradeRow>, pctUpper: real, pctMid: real)

  // ---------------------------------------------------------------------
  // Column selection
  // ---------------------------------------------------------------------

  /** Position of the first column with key `key`, if any. */
  function ColumnIndex(columns: seq<ColumnKey>, key: ColumnKey): (r: Option<nat>)
    ensures r.None? <==> key !in columns
    ensures r.Some? ==> r.value < |columns| && columns[r.value] == key
    ensures r.Some? ==> forall j :: 0 <= j < r.value ==> columns[j] != key
  {
    if |columns| == 0 then None
    else if columns[0] == key then Some(0)
    else match ColumnIndex(columns[1..], key)
      case None => None
      case Some(i) => Some(i + 1)
  }

  function CellAt(row: seq<Cell>, i: nat): Cell {
    if i < |row| then row[i] else Blank
  }

  /** `df[[matric, grade]]` renamed to two plain columns: one `GradeRow` per
      table row, in order. */
  function SelectColumns(rows: seq<seq<Cell>>, matricAt: nat, gradeAt: nat): (r: seq<GradeRow>)
    ensures |r| == |rows|
    ensures forall i :: 0 <= i < |rows| ==>
      r[i] == GradeRow(CellAt(rows[i], matricAt), CellAt(rows[i], gradeAt))
  {
    if |rows| == 0 then []
    else
      var first := GradeRow(CellAt(rows[0], matricAt), CellAt(rows[0], gradeAt));
      [first] + SelectColumns(rows[1..], matricAt, gradeAt)
  }

  // ---------------------------------------------------------------------
  // Student rows and footer rows
  // ---------------------------------------------------------------------

  /** How many rows `iloc[-6:]` takes from a table of `n` rows. */
  function FooterCount(n: nat): (k: nat)
    ensures k <= n && k <= FooterSize
    ensures k == FooterSize || k == n
  {
    if n < FooterSize then n else FooterSize
  }

  /** `iloc[:-6]` and `iloc[-6:]`: everything but the last six rows, and the
      last six rows (all rows when there are fewer than six). */
  function SplitFooter<T>(rows: seq<T>): (r: (seq<T>, seq<T>))
    ensures r.0 + r.1 == rows
    ensures |r.1| == FooterCount(|rows|)
  {
    var cut := |rows| - FooterCount(|rows|);
    (rows[..cut], rows[cut..])
  }

  // ---------------------------------------------------------------------
  // Numeric coercion (`pd.to_numeric(..., errors='coerce')`)
  // ---------------------------------------------------------------------

  function Pow10(k: nat): (r: nat)
    ensures r >= 1
  {
    if k == 0 then 1 else 10 * Pow10(k - 1)
  }

  /** Position of the first '.', or |s| when there is none. */
  function DotIndex(s: string): (d: nat)
    ensures d <= |s|
    ensures d < |s| ==> s[d] == '.'
    ensures forall i :: 0 <= i < d ==> s[i] != '.'
  {
    if |s| == 0 then 0
    else if s[0] == '.' then 0
    else DotIndex(s[1..]) + 1
  }

  /** Digits with at most one decimal point and at least one digit:
      "18", "15.5", "7.", ".5". */
  function ParseUnsigned(s: string): (r: Option<real>)
    ensures r.Some? ==> r.value >= 0.0
  {
    var whole := WholePart(s);
    var frac := FractionPart(s);
    if AllDigits(whole) && AllDigits(frac) && |whole| + |frac| > 0 then
      Some(DecimalValue(whole, frac))
    else None
  }

  /** The text before the first '.', or all of it. */
  function WholePart(s: string): string {
    s[..DotIndex(s)]
  }

  /** The text after the first '.', or nothing. */
  function FractionPart(s: string): string {
    var d := DotIndex(s);
    if d < |s| then s[d + 1..] else []
  }

  /** The number written by the digits `whole`, a point, and `frac`. */
  function DecimalValue(whole: string, frac: string): (v: real)
    requires AllDigits(whole) && AllDigits(frac)
    ensures v >= 0.0
  {
    DigitsValue(whole) as real + DigitsValue(frac) as real / Pow10(|frac|) as real
  }

  /** A decimal numeral with an optional sign, or nothing. */
  function ParseNumber(s: string): (r: Option<real>)
    ensures |s| == 0 ==> r.None?
  {
    if |s| > 0 && (s[0] == '-' || s[0] == '+') then
      match ParseUnsigned(s[1..])
      case None => None
      case Some(v) => Some(if s[0] == '-' then -v else v)
    else ParseUnsigned(s)
  }

  /** A text without a single digit is never read as a number. */
  lemma NoDigitNoNumber(s: string)
    requires forall i :: 0 <= i < |s| ==> !IsDigit(s[i])
    ensures ParseNumber(s) == None
  {
    var t := if |s| > 0 && (s[0] == '-' || s[0] == '+') then s[1..] else s;
    var d := DotIndex(t);
    if d < |t| && |t[d + 1..]| > 0 {
      assert t[d + 1..][0] == t[d + 1];
    } else if d > 0 {
      assert t[..d][0] == t[0];
    }
  }

  /** Rendering a natural number and coercing it gives the number back. */
  lemma ParseNumberOfNat(n: nat)
    ensures ParseNumber(NatToString(n)) == Some(n as real)
  {
    DigitsOfNat(n);
    ParseDigits(NatToString(n));
  }

  /** A non-empty run of digits reads as the number it denotes. */
  lemma ParseDigits(s: string)
    requires |s| > 0 && AllDigits(s)
    ensures ParseNumber(s) == Some(DigitsValue(s) as real)
  {
    ParseUnsignedDigits(s);
    ParseUnsignedLead(s);
  }

  /** Without a point, the whole text is the integer part. */
  lemma ParseUnsignedDigits(s: string)
    requires |s| > 0 && AllDigits(s)
    ensures ParseUnsigned(s) == Some(DigitsValue(s) as real)
  {
    DigitsHaveNoDot(s);
    assert WholePart(s) == s;
    assert FractionPart(s) == [];
    DecimalWhole(s);
  }

  lemma DecimalWhole(s: string)
    requires AllDigits(s)
    ensures DecimalValue(s, []) == DigitsValue(s) as real
  {
    assert DigitsValue([]) == 0 && Pow10(0) == 1;
  }

  lemma DigitsHaveNoDot(s: string)
    requires AllDigits(s)
    ensures DotIndex(s) == |s|
  {
    forall i | 0 <= i < |s| ensures s[i] != '.' {
      assert IsDigit(s[i]);
    }
  }

  /** A grade written in tenths, "-3.5" or "16.5": the format the grade
      column uses. */
  function FormatTenths(t: int): string {
    if t < 0 then "-" + TenthsBody(-t) else TenthsBody(t)
  }

  /** Whole units, a point, one digit of tenths. */
  function TenthsBody(a: nat): string {
    NatToString(a / 10) + "." + [DigitChar(a % 10)]
  }

  /** Coercing a grade written in tenths gives exactly that grade. */
  lemma ParseFormatTenths(t: int)
    ensures ParseNumber(FormatTenths(t)) == Some(t as real / 10.0)
  {
    if t < 0 {
      var a: nat := -t;
      assert FormatTenths(t) == "-" + TenthsBody(a);
      ParseFormatNegative(a);
      assert -(a as real / 10.0) == t as real / 10.0;
    } else {
      assert FormatTenths(t) == TenthsBody(t);
      ParseTenthsBody(t);
    }
  }

  /** A minus sign before the numeral of `a` tenths reads as minus that
      many tenths. */
  lemma ParseFormatNegative(a: nat)
    ensures ParseNumber("-" + TenthsBody(a)) == Some(-(a as real / 10.0))
  {
    ParseUnsignedTenths(a);
    ParseNegated(TenthsBody(a), a as real / 10.0);
  }

  /** A numeral led by a digit has no sign to read. */
  lemma ParseUnsignedLead(s: string)
    requires |s| > 0 && IsDigit(s[0])
    ensures ParseNumber(s) == ParseUnsigned(s)
  {
  }

  /** A minus sign before an unsigned numeral negates its value. */
  lemma ParseNegated(body: string, v: real)
    requires ParseUnsigned(body) == Some(v)
    ensures ParseNumber("-" + body) == Some(-v)
  {
    assert ("-" + body)[1..] == body;
  }

  /** The unsigned part starts with a digit, so it reads the same with or
      without a sign check. */
  lemma ParseTenthsBody(a: nat)
    ensures |TenthsBody(a)| > 0 && IsDigit(TenthsBody(a)[0])
    ensures ParseUnsigned(TenthsBody(a)) == Some(a as real / 10.0)
    ensures ParseNumber(TenthsBody(a)) == Some(a as real / 10.0)
  {
    ParseUnsignedTenths(a);
    ParseUnsignedLead(TenthsBody(a));
  }

  /** Read without a sign, the numeral gives the number of tenths it writes,
      and it starts with a digit. */
  lemma ParseUnsignedTenths(a: nat)
    ensures |TenthsBody(a)| > 0 && IsDigit(TenthsBody(a)[0])
    ensures ParseUnsigned(TenthsBody(a)) == Some(a as real / 10.0)
  {
    var w := NatToString(a / 10);
    var frac := [DigitChar(a % 10)];
    var body := TenthsBody(a);
    assert body == w + ("." + frac);
    assert body[0] == w[0];
    assert WholePart(body) == w && FractionPart(body) == frac by {
      DotAfterDigits(w, "." + frac);
      assert body[..|w|] == w;
      assert body[|w| + 1..] == frac;
    }
    assert DecimalValue(w, frac) == a as real / 10.0 by {
      TenthsValue(a);
    }
  }

  /** The digits of the whole units and of the tenths denote the grade. */
  lemma TenthsValue(a: nat)
    ensures DecimalValue(NatToString(a / 10), [DigitChar(a % 10)]) == a as real / 10.0
  {
    var frac := [DigitChar(a % 10)];
    DigitsOfNat(a / 10);
    assert frac[..0] == [];
    assert DigitsValue(frac) == a % 10;
    assert Pow10(1) == 10;
    TenthsArithmetic(a);
  }

  lemma TenthsArithmetic(a: nat)
    ensures (a / 10) as real + (a % 10) as real / 10.0 == a as real / 10.0
  {
    assert a == 10 * (a / 10) + a % 10;
  }

  lemma {:induction false} DotAfterDigits(w: string, rest: string)
    requires AllDigits(w) && |rest| > 0 && rest[0] == '.'
    ensures DotIndex(w + rest) == |w|
    decreases |w|
  {
    if |w| > 0 {
      assert (w + rest)[1..] == w[1..] + rest;
      DotAfterDigits(w[1..], rest);
    } else {
      assert w + rest == rest;
    }
  }

  /** A cell's value after coercion: numbers stay, texts are parsed, empty
      cells are missing. */
  function ToNumeric(c: Cell): (r: Option<real>)
    ensures c.Num? ==> r == Some(c.x)
    ensures c.Blank? ==> r.None?
    ensures c.Str? ==> r == ParseNumber(c.s)
  {
    match c
    case Num(x) => Some(x)
    case Str(s) => ParseNumber(s)
    case Blank => None
  }

  /** The grade column replaced by its coerced values; the matriculation
      column is kept as it is. */
  function Coerce(rows: seq<GradeRow>): (r: seq<StudentRecord>)
    ensures |r| == |rows|
    ensures forall i :: 0 <= i < |rows| ==>
      r[i].matric == rows[i].matric && r[i].grade == ToNumeric(rows[i].grade)
  {
    if |rows| == 0 then []
    else [StudentRecord(rows[0].matric, ToNumeric(rows[0].grade))] + Coerce(rows[1..])
  }

  // ---------------------------------------------------------------------
  // Bands
  // ---------------------------------------------------------------------

  /** Upper band: at or above 16.5 (closed bound). */
  predicate InUpperBand(g: real) {
    g >= 16.5
  }

  /** Middle band: from 14 (included) up to 16 (excluded). */
  predicate InMidBand(g: real) {
    14.0 <= g < 16.0
  }

  /** The boundary grades fall where the thresholds put them, and no grade
      is in both bands. */
  lemma BandBoundaries()
    ensures InUpperBand(16.5) && !InMidBand(16.5)
    ensures InMidBand(14.0) && !InUpperBand(14.0)
    ensures !InMidBand(16.0) && !InUpperBand(16.0)
    ensures forall g :: !(InUpperBand(g) && InMidBand(g))
  {
  }

  predicate HasGrade(r: StudentRecord) {
    r.grade.Some?
  }

  predicate UpperRecord(r: StudentRecord) {
    r.grade.Some? && InUpperBand(r.grade.value)
  }

  predicate MidRecord(r: StudentRecord) {
    r.grade.Some? && InMidBand(r.grade.value)
  }

  predicate BandedRecord(r: StudentRecord) {
    UpperRecord(r) || MidRecord(r)
  }

  /** `count()` of the grade column and the `sum()` of the two band masks. */
  datatype BandCounts = BandCounts(numeric: nat, upper: nat, mid: nat)

  function CountBands(rs: seq<StudentRecord>): (b: BandCounts)
    ensures b.numeric <= |rs|
    ensures b.upper + b.mid <= b.numeric
    ensures b.numeric == |Seqs.Matching(rs, HasGrade)|
    ensures b.upper == |Seqs.Matching(rs, UpperRecord)|
    ensures b.mid == |Seqs.Matching(rs, MidRecord)|
  {
    var b := BandCounts(Seqs.Count(rs, HasGrade), Seqs.Count(rs, UpperRecord), Seqs.Count(rs, MidRecord));
    Seqs.CountDisjoint(rs, UpperRecord, MidRecord, BandedRecord);
    Seqs.CountMonotone(rs, BandedRecord, HasGrade);
    Seqs.CountBounded(rs, HasGrade);
    Seqs.CountIsMatchingSize(rs, HasGrade);
    Seqs.CountIsMatchingSize(rs, UpperRecord);
    Seqs.CountIsMatchingSize(rs, MidRecord);
    b
  }

  /** `part / whole * 100`, or 0 when there is nothing to divide by. */
  function Percentage(part: nat, whole: nat): (r: real)
    ensures whole == 0 ==> r == 0.0
    ensures whole > 0 ==> r * whole as real == part as real * 100.0
    ensures part <= whole ==> 0.0 <= r <= 100.0
  {
    if whole > 0 then part as real / whole as real * 100.0 else 0.0
  }

  /** Disjoint bands never add up to more than the whole. */
  lemma PercentagesBounded(upper: nat, mid: nat, whole: nat)
    requires upper + mid <= whole
    ensures Percentage(upper, whole) + Percentage(mid, whole) <= 100.0
  {
    if whole > 0 {
      PercentageAdds(upper, mid, whole);
    }
  }

  /** Percentages of disjoint parts of the same whole add up. */
  lemma PercentageAdds(a: nat, b: nat, whole: nat)
    requires whole > 0
    ensures Percentage(a, whole) + Percentage(b, whole) == Percentage(a + b, whole)
  {
    var w := whole as real;
    assert a as real / w + b as real / w == (a + b) as real / w;
    assert (a as real / w) * 100.0 + (b as real / w) * 100.0 == ((a as real / w) + (b as real / w)) * 100.0;
  }

  // ---------------------------------------------------------------------
  // filter_grades_dataframe
  // ---------------------------------------------------------------------

  /** The student rows: every row but the footer, with the matriculation
      cell kept and the grade cell coerced. */
  function StudentsOf(rows: seq<seq<Cell>>, mi: nat, gi: nat): (students: seq<StudentRecord>)
    ensures |students| == |rows| - FooterCount(|rows|)
    ensures forall i :: 0 <= i < |students| ==>
      students[i] == StudentRecord(CellAt(rows[i], mi), ToNumeric(CellAt(rows[i], gi)))
  {
    var filtered := SelectColumns(rows, mi, gi);
    var split := SplitFooter(filtered);
    assert split.0 == filtered[..|rows| - FooterCount(|rows|)];
    Coerce(split.0)
  }

  /** The footer rows of the two columns, as they are. */
  function FooterOf(rows: seq<seq<Cell>>, mi: nat, gi: nat): (footer: seq<GradeRow>)
    ensures |footer| == FooterCount(|rows|)
    ensures forall k :: 0 <= k < |footer| ==>
      var i := |rows| - FooterCount(|rows|) + k;
      footer[k] == GradeRow(CellAt(rows[i], mi), CellAt(rows[i], gi))
  {
    var filtered := SelectColumns(rows, mi, gi);
    var split := SplitFooter(filtered);
    assert split.1 == filtered[|rows| - FooterCount(|rows|)..];
    split.1
  }

  /** The summary row: the footer, and the share of graded students in each
      band. */
  function Summarize(moduleCode: string, students: seq<StudentRecord>, footer: seq<GradeRow>): (summary: SummaryRow)
    ensures summary.code == moduleCode && summary.footer == footer
    ensures summary.pctUpper == Percentage(|Seqs.Matching(students, UpperRecord)|, |Seqs.Matching(students, HasGrade)|)
    ensures summary.pctMid == Percentage(|Seqs.Matching(students, MidRecord)|, |Seqs.Matching(students, HasGrade)|)
    ensures 0.0 <= summary.pctUpper && 0.0 <= summary.pctMid
    ensures summary.pctUpper + summary.pctMid <= 100.0
  {
    var b := CountBands(students);
    PercentagesBounded(b.upper, b.mid, b.numeric);
    SummaryRow(moduleCode, footer, Percentage(b.upper, b.numeric), Percentage(b.mid, b.numeric))
  }

  /** The student rows and the summary row of one module, or `None` when a
      required column is missing. */
  function FilterGrades(t: Table, moduleCode: string): (r: Option<(seq<StudentRecord>, SummaryRow)>)
    ensures r.None? <==> MatricKey !in t.columns || GradeKey !in t.columns
    ensures r.Some? ==>
      var mi := ColumnIndex(t.columns, MatricKey).value;
      var gi := ColumnIndex(t.columns, GradeKey).value;
      var students := r.value.0;
      var summary := r.value.1;
      var cut := |t.rows| - FooterCount(|t.rows|);
      && |students| == cut
      && (forall i :: 0 <= i < cut ==>
            students[i] == StudentRecord(CellAt(t.rows[i], mi), ToNumeric(CellAt(t.rows[i], gi))))
      && |summary.footer| == FooterCount(|t.rows|)
      && (forall k :: 0 <= k < |summary.footer| ==>
            summary.footer[k] == GradeRow(CellAt(t.rows[cut + k], mi), CellAt(t.rows[cut + k], gi)))
      && summary.code == moduleCode
      && summary.pctUpper == Percentage(|Seqs.Matching(students, UpperRecord)|, |Seqs.Matching(students, HasGrade)|)
      && summary.pctMid == Percentage(|Seqs.Matching(students, MidRecord)|, |Seqs.Matching(students, HasGrade)|)
      && 0.0 <= summary.pctUpper && 0.0 <= summary.pctMid
      && summary.pctUpper + summary.pctMid <= 100.0
  {
    match (ColumnIndex(t.columns, MatricKey), ColumnIndex(t.columns, GradeKey))
    case (Some(mi), Some(gi)) =>
      var students := StudentsOf(t.rows, mi, gi);
      Some((students, Summarize(moduleCode, students, FooterOf(t.rows, mi, gi))))
    case _ => None
  }
}
