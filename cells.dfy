/** A spreadsheet cell as the reader hands it over.  A number or a date
    keeps the text Python's `str()` gives for it (the float and timestamp
    formatting of the reader is not modelled); a date also keeps its
    calendar fields, from which `strftime("%d/%m/%Y")` is computed. */
module Cells {
  import opened Text

  datatype Cell =
    | Empty                                             // a missing value (NaN)
    | Text(text: string)                                // a `str` value
    | Num(shown: string)                                // an int or float
    | Date(day: nat, month: nat, year: nat, shown: string)  // a timestamp

  /** `pd.notna(c)`. */
  predicate NotNa(c: Cell) {
    !c.Empty?
  }

  /** `str(c)`; a missing value prints as "nan". */
  function Str(c: Cell): string {
    match c
    case Empty => "nan"
    case Text(t) => t
    case Num(shown) => shown
    case Date(_, _, _, shown) => shown
  }

  /** Two-digit, zero-padded day or month, as `%d` and `%m` write it. */
  function Pad2(n: nat): (r: string)
    ensures n < 100 ==> |r| == 2
    ensures AllDigits(r) && (n < 100 ==> DigitsValue(r) == n)
  {
    NatToStringValue(n);
    if n < 10 then
      var r := "0" + NatToString(n);
      assert r[..1] == "0";
      r
    else
      assert n < 100 ==> |NatToString(n / 10)| == 1;
      NatToString(n)
  }

  /** `strftime("%d/%m/%Y")` of a timestamp: the zero-padded day, the
      zero-padded month and the year, between slashes. */
  function FormatDate(c: Cell): (r: string)
    requires c.Date?
    ensures c.day < 100 && c.month < 100 ==>
              |r| > 6 && r[2] == '/' && r[5] == '/'
              && AllDigits(r[..2]) && DigitsValue(r[..2]) == c.day
              && AllDigits(r[3..5]) && DigitsValue(r[3..5]) == c.month
              && AllDigits(r[6..]) && DigitsValue(r[6..]) == c.year
  {
    var d, m, y := Pad2(c.day), Pad2(c.month), NatToString(c.year);
    NatToStringValue(c.year);
    var r := d + "/" + m + "/" + y;
    assert c.day < 100 && c.month < 100 ==> r[..2] == d && r[3..5] == m && r[6..] == y;
    r
  }

  /** `biopsy_date`: a missing cell gives "", a timestamp is formatted,
      and any other value is kept as the text it prints as. */
  function BiopsyDate(c: Cell): string {
    match c
    case Empty => ""
    case Date(_, _, _, _) => FormatDate(c)
    case _ => Str(c)
  }

  // ---------------------------------------------------------------------
  // Rows of the sheet

  /** A row of the sheet, column by column. */
  type Row = seq<Cell>

  /** The columns the report generator reads. */
  const StartCol: nat := 0       // non-empty on the first row of a new block
  const DateCol: nat := 1        // biopsy date, on a summary row
  const NameCol: nat := 4        // couple's names, or an embryo's name
  const IdCol: nat := 5          // case identifier, on a summary row
  const MutationCol: nat := 8    // case-level mutation text, on embryo rows
  const ResultCol: nat := 14     // an embryo's test result

  /** Every column the generator reads exists: the sheet is rectangular and
      at least as wide as its last column read. */
  predicate WideEnough(row: Row) {
    |row| > ResultCol
  }

  /** "VỢ" (wife), the word that marks a summary row. */
  const WifeWord: string := "V\U{1EE2}"

  /** `pgd_is_summary_row(row)`. */
  predicate IsSummaryRow(row: Row)
    requires |row| > NameCol
  {
    row[NameCol].Text? && Contains(row[NameCol].text, WifeWord)
  }

  /** A summary row is exactly one whose name column is text with "VỢ"
      somewhere in it. */
  lemma SummaryRowIff(row: Row)
    requires |row| > NameCol
    ensures IsSummaryRow(row) <==>
              row[NameCol].Text? && exists i :: HasAt(row[NameCol].text, WifeWord, i)
  {
    if row[NameCol].Text? {
      ContainsIff(row[NameCol].text, WifeWord);
    }
  }

  /** The test that ends a case's rows: a summary row, or a row whose first
      column holds a value. */
  predicate EndsCase(row: Row)
    requires |row| > NameCol
  {
    IsSummaryRow(row) || NotNa(row[StartCol])
  }
}
