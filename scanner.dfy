/** The forward scan of `process_pgd_excel` in pgd.py.  A summary row opens
    a case; a look-ahead collects the case's mutation labels from the
    following rows; the consumption loop turns the same rows into embryo
    records; the main cursor then resumes at the row that stopped it. */
module Scanner {
  import opened Text
  import opened Cells
  import opened Mutations
  import opened Filename
  import opened NameBlock
  import opened Classify
  import opened Report

  /** Every row has every column the scan reads (the sheet is a
      rectangular frame at least fifteen columns wide). */
  predicate Rectangular(rows: seq<Row>) {
    forall j :: 0 <= j < |rows| ==> WideEnough(rows[j])
  }

  // ---------------------------------------------------------------------
  // What a case is

  /** The first row at or after `from` that ends a case, or the end of the
      sheet: where both the look-ahead and the consumption loop stop. */
  function RunEnd(rows: seq<Row>, from: nat): (r: nat)
    requires Rectangular(rows) && from <= |rows|
    ensures from <= r <= |rows|
    ensures r < |rows| ==> EndsCase(rows[r])
    ensures forall j :: from <= j < r ==> !EndsCase(rows[j])
    decreases |rows| - from
  {
    if from == |rows| then from
    else if EndsCase(rows[from]) then from
    else RunEnd(rows, from + 1)
  }

  function Elements(xs: seq<string>): set<string> {
    set x | x in xs
  }

  /** The labels one row adds to the case's set: those of its mutation
      column, when that holds text. */
  function RowLabels(row: Row): set<string>
    requires WideEnough(row)
  {
    if row[MutationCol].Text? then Elements(Extract(row[MutationCol].text)) else {}
  }

  /** The label sets of rows `lo` to `hi - 1`, row by row. */
  function LabelSets(rows: seq<Row>, lo: nat, hi: nat): (ss: seq<set<string>>)
    requires Rectangular(rows) && lo <= hi <= |rows|
    ensures |ss| == hi - lo
  {
    seq(hi - lo, k requires 0 <= k < hi - lo => RowLabels(rows[lo + k]))
  }

  function UnionAll(ss: seq<set<string>>): set<string> {
    if |ss| == 0 then {} else UnionAll(ss[..|ss| - 1]) + ss[|ss| - 1]
  }

  /** The label sets of the rows of the case opened at row `i`. */
  function CaseLabelSets(rows: seq<Row>, i: nat): seq<set<string>>
    requires Rectangular(rows) && i < |rows|
  {
    LabelSets(rows, i + 1, RunEnd(rows, i + 1))
  }

  /** `mutation_set` after the look-ahead has read rows `lo` to `hi - 1`. */
  function CaseLabelSet(rows: seq<Row>, lo: nat, hi: nat): set<string>
    requires Rectangular(rows) && lo <= hi <= |rows|
  {
    UnionAll(LabelSets(rows, lo, hi))
  }

  lemma LabelSetsSnoc(rows: seq<Row>, lo: nat, hi: nat)
    requires Rectangular(rows) && lo <= hi < |rows|
    ensures LabelSets(rows, lo, hi + 1) == LabelSets(rows, lo, hi) + [RowLabels(rows[hi])]
  {
  }

  lemma UnionAllSnoc(ss: seq<set<string>>, x: set<string>)
    ensures UnionAll(ss + [x]) == UnionAll(ss) + x
  {
    assert (ss + [x])[..|ss|] == ss;
  }

  lemma CaseLabelSetSnoc(rows: seq<Row>, lo: nat, hi: nat)
    requires Rectangular(rows) && lo <= hi < |rows|
    ensures CaseLabelSet(rows, lo, hi + 1) == CaseLabelSet(rows, lo, hi) + RowLabels(rows[hi])
  {
    LabelSetsSnoc(rows, lo, hi);
    UnionAllSnoc(LabelSets(rows, lo, hi), RowLabels(rows[hi]));
  }

  lemma {:induction false} UnionAllIff(ss: seq<set<string>>, l: string)
    ensures l in UnionAll(ss) <==> exists k :: 0 <= k < |ss| && l in ss[k]
  {
    if |ss| > 0 {
      UnionAllIff(ss[..|ss| - 1], l);
      assert forall k :: 0 <= k < |ss| - 1 ==> ss[..|ss| - 1][k] == ss[k];
    }
  }

  lemma HeadIsElement(xs: seq<string>)
    ensures |xs| > 0 ==> xs[0] in Elements(xs)
  {
  }

  lemma NoElementsNoList(xs: seq<string>)
    requires Elements(xs) == {}
    ensures xs == []
  {
    HeadIsElement(xs);
  }

  /** `xs` lists the elements of `s`, each once: what `list(s)` gives, in
      an order Python leaves open. */
  predicate Enumerates(xs: seq<string>, s: set<string>) {
    (forall i, j :: 0 <= i < j < |xs| ==> xs[i] != xs[j]) && Elements(xs) == s
  }

  /** A record builder that accepts every row of the sheet's width. */
  ghost predicate Total(classify: (Row, nat) --> Embryo) {
    forall r: Row, i: nat :: WideEnough(r) ==> classify.requires(r, i)
  }

  /** The record builder of a case: the body of the consumption loop, with
      the case's labels as the fallback. */
  function Classifier(caseLabels: seq<string>): (classify: (Row, nat) --> Embryo)
    ensures Total(classify)
  {
    (r: Row, i: nat) requires WideEnough(r) => ClassifyEmbryo(r, i, caseLabels)
  }

  lemma ClassifierApplies(caseLabels: seq<string>, r: Row, i: nat)
    requires WideEnough(r)
    ensures Classifier(caseLabels)(r, i) == ClassifyEmbryo(r, i, caseLabels)
  {
  }

  /** The records `classify` builds for rows `lo` to `hi - 1`, numbered
      from 1. */
  function Embryos(rows: seq<Row>, lo: nat, hi: nat, classify: (Row, nat) --> Embryo): (es: seq<Embryo>)
    requires Rectangular(rows) && lo <= hi <= |rows| && Total(classify)
    ensures |es| == hi - lo
    decreases hi - lo
  {
    if hi == lo then []
    else Embryos(rows, lo, hi - 1, classify) + [classify(rows[hi - 1], hi - lo)]
  }

  /** One more row, one more record at the end. */
  lemma EmbryosSnoc(rows: seq<Row>, lo: nat, hi: nat, classify: (Row, nat) --> Embryo)
    requires Rectangular(rows) && lo <= hi < |rows| && Total(classify)
    ensures Embryos(rows, lo, hi + 1, classify)
            == Embryos(rows, lo, hi, classify) + [classify(rows[hi], hi - lo + 1)]
  {
  }

  /** Record `k` is built from row `lo + k` with number `k + 1`. */
  lemma {:induction false} EmbryoAt(rows: seq<Row>, lo: nat, hi: nat, classify: (Row, nat) --> Embryo, k: nat)
    requires Rectangular(rows) && lo <= hi <= |rows| && Total(classify) && k < hi - lo
    ensures Embryos(rows, lo, hi, classify)[k] == classify(rows[lo + k], k + 1)
    decreases hi - lo
  {
    if k < hi - lo - 1 {
      EmbryoAt(rows, lo, hi - 1, classify, k);
    }
  }

  /** Record `k` of `es` is numbered `k + 1` and named from row `lo + k`. */
  predicate RecordsOfRows(es: seq<Embryo>, rows: seq<Row>, lo: nat)
  {
    lo + |es| <= |rows|
    && forall k :: 0 <= k < |es| ==>
         es[k].index == k + 1 && |rows[lo + k]| > NameCol && es[k].name == EmbryoName(rows[lo + k][NameCol])
  }

  /** Every record of a case is numbered by its position and named from
      its row. */
  lemma EmbryosFields(rows: seq<Row>, lo: nat, hi: nat, caseLabels: seq<string>)
    requires Rectangular(rows) && lo <= hi <= |rows|
    ensures RecordsOfRows(Embryos(rows, lo, hi, Classifier(caseLabels)), rows, lo)
  {
    var es := Embryos(rows, lo, hi, Classifier(caseLabels));
    forall k | 0 <= k < |es|
      ensures es[k].index == k + 1 && |rows[lo + k]| > NameCol && es[k].name == EmbryoName(rows[lo + k][NameCol])
    {
      EmbryoFields(rows, lo, hi, caseLabels, k);
    }
  }

  /** Record `k` of a case is numbered `k + 1` and named from row `lo + k`. */
  lemma EmbryoFields(rows: seq<Row>, lo: nat, hi: nat, caseLabels: seq<string>, k: nat)
    requires Rectangular(rows) && lo <= hi <= |rows| && k < hi - lo
    ensures Embryos(rows, lo, hi, Classifier(caseLabels))[k].index == k + 1
    ensures Embryos(rows, lo, hi, Classifier(caseLabels))[k].name == EmbryoName(rows[lo + k][NameCol])
  {
    EmbryoAt(rows, lo, hi, Classifier(caseLabels), k);
    ClassifierApplies(caseLabels, rows[lo + k], k + 1);
  }

  /** `ID`: the identifier column as text, or "NO_ID", made safe for a file
      name. */
  function CaseId(c: Cell): string {
    FilenameCleanup(if NotNa(c) then Str(c) else "NO_ID")
  }

  /** `output_name`. */
  function OutputName(id: string, wifeName: string): string {
    FilenameCleanup(id + "_" + FilenameCleanup(wifeName) + "_PGD")
  }

  /** The data of one report: the template context of a case (without the
      date of the day) and the name of its output file. */
  datatype CaseReport = CaseReport(
    id: string,
    couple: Couple,
    biopsyDate: string,
    mutation: string,
    caseLabels: seq<string>,
    embryos: seq<Embryo>,
    grouped: Grouped,
    conclusionBlock: seq<string>,
    outputName: string)

  /** The zygosity of each of rows `lo` to `hi - 1`. */
  function Zygosities(rows: seq<Row>, lo: nat, hi: nat): (zs: seq<Zygosity>)
    requires Rectangular(rows) && lo <= hi <= |rows|
    ensures |zs| == hi - lo
    decreases hi - lo
  {
    if hi == lo then []
    else Zygosities(rows, lo, hi - 1) + [ZygosityOf(ResultText(rows[hi - 1][ResultCol]))]
  }

  /** Each record `classify` builds has a result text that marks exactly
      the zygosity of its row. */
  ghost predicate MarksRows(classify: (Row, nat) --> Embryo)
    requires Total(classify)
  {
    forall r: Row, i: nat :: WideEnough(r) ==>
      MarksExactly(Lower(classify(r, i).pgdResult), ZygosityOf(ResultText(r[ResultCol])))
  }

  /** The record builder of a case with ASCII labels marks its rows. */
  lemma ClassifierMarksRows(caseLabels: seq<string>)
    requires AsciiLabels(caseLabels)
    ensures MarksRows(Classifier(caseLabels))
  {
    forall r: Row, i: nat | WideEnough(r)
      ensures MarksExactly(Lower(Classifier(caseLabels)(r, i).pgdResult), ZygosityOf(ResultText(r[ResultCol])))
    {
      ClassifierApplies(caseLabels, r, i);
      EmbryoMarksZygosity(r, i, caseLabels);
    }
  }

  /** A builder that marks its rows gives records whose result texts mark
      exactly the zygosities of their rows. */
  lemma {:induction false} EmbryosMarkRows(rows: seq<Row>, lo: nat, hi: nat, classify: (Row, nat) --> Embryo)
    requires Rectangular(rows) && lo <= hi <= |rows| && Total(classify) && MarksRows(classify)
    ensures MarksAll(Embryos(rows, lo, hi, classify), Zygosities(rows, lo, hi))
    decreases hi - lo
  {
    if hi > lo {
      EmbryosMarkRows(rows, lo, hi - 1, classify);
      MarksNextRow(rows, lo, hi, classify);
    }
  }

  lemma MarksNextRow(rows: seq<Row>, lo: nat, hi: nat, classify: (Row, nat) --> Embryo)
    requires Rectangular(rows) && lo < hi <= |rows| && Total(classify) && MarksRows(classify)
    requires MarksAll(Embryos(rows, lo, hi - 1, classify), Zygosities(rows, lo, hi - 1))
    ensures MarksAll(Embryos(rows, lo, hi, classify), Zygosities(rows, lo, hi))
  {
    var row := rows[hi - 1];
    MarksAllSnoc(Embryos(rows, lo, hi - 1, classify), Zygosities(rows, lo, hi - 1),
                 classify(row, hi - lo), ZygosityOf(ResultText(row[ResultCol])));
  }

  /** The report of the case opened at row `i`, given the order in which
      the case's label set is listed. */
  function BuildReport(rows: seq<Row>, i: nat, order: seq<string>): CaseReport
    requires Rectangular(rows) && i < |rows|
  {
    var row := rows[i];
    var stop := RunEnd(rows, i + 1);
    var labels := CaseLabelSet(rows, i + 1, stop);
    var mutation := if labels != {} then Join(order, ", ") else "";
    var embryos := Embryos(rows, i + 1, stop, Classifier(order));
    var g := Group(embryos);
    var id := CaseId(row[IdCol]);
    var couple := ParsedNames(row[NameCol]);
    CaseReport(id, couple, BiopsyDate(row[DateCol]), mutation, order, embryos, g,
               ConclusionBlock(g.homozygous, g.heterozygous, g.normal, mutation),
               OutputName(id, couple.wifeName))
  }

  /** `report` is what the case opened at row `i` produces, for one of the
      orders in which its label set can be listed. */
  predicate IsReportFor(rows: seq<Row>, i: nat, report: CaseReport)
    requires Rectangular(rows) && i < |rows|
  {
    Enumerates(report.caseLabels, CaseLabelSet(rows, i + 1, RunEnd(rows, i + 1)))
    && report == BuildReport(rows, i, report.caseLabels)
  }

  /** The summary rows among the first `n`, in row order. */
  function SummaryIndices(rows: seq<Row>, n: nat): (r: seq<nat>)
    requires Rectangular(rows) && n <= |rows|
    ensures forall k :: 0 <= k < |r| ==> r[k] < n
  {
    if n == 0 then []
    else SummaryIndices(rows, n - 1) + (if IsSummaryRow(rows[n - 1]) then [n - 1] else [])
  }

  // ---------------------------------------------------------------------
  // The loops

  /** The look-ahead: the labels of the case's rows, and where it stops. */
  method ScanAhead(rows: seq<Row>, from: nat) returns (labels: set<string>, stop: nat)
    requires Rectangular(rows) && from <= |rows|
    ensures stop == RunEnd(rows, from)
    ensures labels == CaseLabelSet(rows, from, stop)
  {
    labels := {};
    var t := from;
    while t < |rows|
      invariant from <= t <= |rows|
      invariant RunEnd(rows, t) == RunEnd(rows, from)
      invariant labels == CaseLabelSet(rows, from, t)
    {
      var next := rows[t];
      if EndsCase(next) {
        break;
      }
      CaseLabelSetSnoc(rows, from, t);
      if next[MutationCol].Text? {
        var found := ExtractMutations(next[MutationCol]);
        labels := labels + Elements(found);
      }
      t := t + 1;
    }
    stop := t;
  }

  /** `list(mutation_set)`: the elements of the set, in some order, each
      once. */
  method SetToSeq(s: set<string>) returns (xs: seq<string>)
    ensures Enumerates(xs, s)
  {
    xs := [];
    var rest := s;
    while rest != {}
      invariant rest <= s
      invariant Elements(xs) + rest == s
      invariant Elements(xs) !! rest
      invariant forall i, j :: 0 <= i < j < |xs| ==> xs[i] != xs[j]
      decreases |rest|
    {
      var x :| x in rest;
      assert x !in Elements(xs);
      xs := xs + [x];
      rest := rest - {x};
    }
  }

  /** Every label of the list is ASCII. */
  predicate AsciiLabels(caseLabels: seq<string>) {
    forall k :: 0 <= k < |caseLabels| ==> AllAscii(caseLabels[k])
  }

  /** The consumption loop: one record per row, built by `classify` from the
      row and the count so far, until the row that ends the case, which it
      leaves for the main loop. */
  method ConsumeEmbryos(rows: seq<Row>, from: nat, classify: (Row, nat) --> Embryo)
    returns (embryos: seq<Embryo>, next: nat)
    requires Rectangular(rows) && from <= |rows| && Total(classify)
    ensures next == RunEnd(rows, from)
    ensures embryos == Embryos(rows, from, next, classify)
  {
    embryos := [];
    next := from;
    while next < |rows|
      invariant from <= next <= |rows|
      invariant RunEnd(rows, next) == RunEnd(rows, from)
      invariant embryos == Embryos(rows, from, next, classify)
    {
      var row := rows[next];
      if EndsCase(row) {
        break;
      }
      var e := classify(row, |embryos| + 1);
      EmbryosSnoc(rows, from, next, classify);
      embryos := embryos + [e];
      next := next + 1;
    }
  }

  /** One case: the summary row's fields, the look-ahead, the embryos, the
      buckets and the paragraphs. */
  method ProcessCase(rows: seq<Row>, i: nat) returns (report: CaseReport, next: nat)
    requires Rectangular(rows) && i < |rows| && IsSummaryRow(rows[i])
    ensures next == RunEnd(rows, i + 1)
    ensures IsReportFor(rows, i, report)
    ensures var zs := Zygosities(rows, i + 1, next);
            report.grouped == Grouped(Join(NamesOf(report.embryos, zs, Homozygous), ", "),
                                      Join(NamesOf(report.embryos, zs, Heterozygous), ", "),
                                      Join(NamesOf(report.embryos, zs, Normal), ", "))
  {
    var row := rows[i];
    var id := CaseId(row[IdCol]);
    var biopsyDate := BiopsyDate(row[DateCol]);
    var wifeName, wifeYob, husbandName, husbandYob := ParseNameBlock(row[NameCol]);

    var labels, _ := ScanAhead(rows, i + 1);
    var order := SetToSeq(labels);
    var mutation := "";
    if labels != {} {
      mutation := Join(order, ", ");
    }

    var embryos;
    embryos, next := ConsumeEmbryos(rows, i + 1, Classifier(order));
    CaseLabelsAscii(rows, i + 1, next, order);
    ClassifierMarksRows(order);
    EmbryosMarkRows(rows, i + 1, next, Classifier(order));
    GroupByZygosity(embryos, Zygosities(rows, i + 1, next));

    var g := Group(embryos);
    var block := ConclusionBlock(g.homozygous, g.heterozygous, g.normal, mutation);
    var nameClean := FilenameCleanup(wifeName);
    var outputName := FilenameCleanup(id + "_" + nameClean + "_PGD");
    report := CaseReport(id, Couple(wifeName, wifeYob, husbandName, husbandYob), biopsyDate,
                         mutation, order, embryos, g, block, outputName);
  }

  /** `reports[k]` is the report of the case opened at row `idx[k]`. */
  predicate ReportsFor(rows: seq<Row>, idx: seq<nat>, reports: seq<CaseReport>)
    requires Rectangular(rows)
  {
    |reports| == |idx|
    && forall k :: 0 <= k < |idx| ==> idx[k] < |rows| && IsReportFor(rows, idx[k], reports[k])
  }

  /** The reports so far, and one more. */
  lemma ReportsForSnoc(rows: seq<Row>, idx: seq<nat>, reports: seq<CaseReport>, i: nat, report: CaseReport)
    requires Rectangular(rows) && ReportsFor(rows, idx, reports)
    requires i < |rows| && IsReportFor(rows, i, report)
    ensures ReportsFor(rows, idx + [i], reports + [report])
  {
    forall k | 0 <= k < |idx| + 1
      ensures (idx + [i])[k] < |rows| && IsReportFor(rows, (idx + [i])[k], (reports + [report])[k])
    {
      if k < |idx| {
        assert (idx + [i])[k] == idx[k] && (reports + [report])[k] == reports[k];
      } else {
        assert (idx + [i])[k] == i && (reports + [report])[k] == report;
      }
    }
  }

  /** `process_pgd_excel`: one report per summary row, in row order. */
  method ProcessSheet(rows: seq<Row>) returns (reports: seq<CaseReport>)
    requires Rectangular(rows)
    ensures ReportsFor(rows, SummaryIndices(rows, |rows|), reports)
  {
    reports := [];
    var i := 0;
    while i < |rows|
      invariant 0 <= i <= |rows|
      invariant ReportsFor(rows, SummaryIndices(rows, i), reports)
      decreases |rows| - i
    {
      if IsSummaryRow(rows[i]) {
        var report, next := ProcessCase(rows, i);
        SummaryIndicesSkip(rows, i + 1, next);
        ReportsForSnoc(rows, SummaryIndices(rows, i), reports, i, report);
        reports := reports + [report];
        i := next;
      } else {
        i := i + 1;
      }
    }
  }

  // ---------------------------------------------------------------------
  // What the scan guarantees

  /** Rows that do not end a case add no summary index. */
  lemma {:induction false} SummaryIndicesSkip(rows: seq<Row>, lo: nat, hi: nat)
    requires Rectangular(rows) && lo <= hi <= |rows|
    requires forall j :: lo <= j < hi ==> !EndsCase(rows[j])
    ensures SummaryIndices(rows, hi) == SummaryIndices(rows, lo)
    decreases hi
  {
    if hi > lo {
      SummaryIndicesSkip(rows, lo, hi - 1);
    }
  }

  /** The summary indices are exactly the summary rows, in increasing
      order: every summary row yields one report, and no other row does. */
  lemma {:induction false} SummaryIndicesExact(rows: seq<Row>, n: nat)
    requires Rectangular(rows) && n <= |rows|
    ensures forall j :: j in SummaryIndices(rows, n) <==> 0 <= j < n && IsSummaryRow(rows[j])
    ensures forall a, b :: 0 <= a < b < |SummaryIndices(rows, n)| ==>
              SummaryIndices(rows, n)[a] < SummaryIndices(rows, n)[b]
    decreases n
  {
    if n > 0 {
      SummaryIndicesExact(rows, n - 1);
    }
  }

  /** A label of the case's set comes from the mutation column of one of
      the rows that become the case's embryos. */
  lemma CaseLabelSetIff(rows: seq<Row>, lo: nat, hi: nat, l: string)
    requires Rectangular(rows) && lo <= hi <= |rows|
    ensures l in CaseLabelSet(rows, lo, hi) <==> exists k :: 0 <= k < hi - lo && l in LabelSets(rows, lo, hi)[k]
  {
    UnionAllIff(LabelSets(rows, lo, hi), l);
  }

  /** Every label of the case's set is a label of the table. */
  lemma CaseLabelsAreLabels(rows: seq<Row>, lo: nat, hi: nat, l: string)
    requires Rectangular(rows) && lo <= hi <= |rows|
    requires l in CaseLabelSet(rows, lo, hi)
    ensures IsLabel(l)
  {
    CaseLabelSetIff(rows, lo, hi, l);
    var k :| 0 <= k < hi - lo && l in LabelSets(rows, lo, hi)[k];
    assert l in RowLabels(rows[lo + k]);
    RowLabelsAreLabels(rows[lo + k], l);
  }

  /** Every label one row adds is a label. */
  lemma RowLabelsAreLabels(row: Row, l: string)
    requires WideEnough(row)
    requires l in RowLabels(row)
    ensures IsLabel(l)
  {
    var text := row[MutationCol].text;
    assert l in Extract(text);
    ExtractGivesLabels(text);
  }

  /** Every label a case's set is listed with is ASCII. */
  lemma CaseLabelsAscii(rows: seq<Row>, lo: nat, hi: nat, order: seq<string>)
    requires Rectangular(rows) && lo <= hi <= |rows|
    requires Enumerates(order, CaseLabelSet(rows, lo, hi))
    ensures AsciiLabels(order)
  {
    forall k | 0 <= k < |order|
      ensures AllAscii(order[k])
    {
      assert order[k] in Elements(order);
      CaseLabelsAreLabels(rows, lo, hi, order[k]);
      LabelIsAscii(order[k]);
    }
  }

  /** The records of a report are those its own labels build from the
      case's rows. */
  lemma ReportRecords(rows: seq<Row>, i: nat, report: CaseReport)
    requires Rectangular(rows) && i < |rows| && IsReportFor(rows, i, report)
    ensures report.embryos == Embryos(rows, i + 1, RunEnd(rows, i + 1), Classifier(report.caseLabels))
  {
  }

  /** The embryos of a report are the rows after its summary row up to the
      one that ends the case, numbered 1 to n in row order. */
  lemma ReportEmbryos(rows: seq<Row>, i: nat, report: CaseReport)
    requires Rectangular(rows) && i < |rows| && IsReportFor(rows, i, report)
    ensures |report.embryos| == RunEnd(rows, i + 1) - (i + 1)
    ensures RecordsOfRows(report.embryos, rows, i + 1)
  {
    ReportRecords(rows, i, report);
    EmbryosFields(rows, i + 1, RunEnd(rows, i + 1), report.caseLabels);
  }

  /** A list that enumerates a case's label set holds exactly the labels
      of the rows of the case. */
  lemma EnumeratedLabels(rows: seq<Row>, i: nat, order: seq<string>, l: string)
    requires Rectangular(rows) && i < |rows|
    requires Enumerates(order, CaseLabelSet(rows, i + 1, RunEnd(rows, i + 1)))
    ensures l in order <==> exists k :: 0 <= k < |CaseLabelSets(rows, i)| && l in CaseLabelSets(rows, i)[k]
  {
    var stop := RunEnd(rows, i + 1);
    CaseLabelSetIff(rows, i + 1, stop, l);
    assert CaseLabelSets(rows, i) == LabelSets(rows, i + 1, stop);
    assert l in order <==> l in Elements(order);
  }

  /** The labels of a report come from the mutation column of the very rows
      that become its embryos. */
  lemma ReportLabels(rows: seq<Row>, i: nat, report: CaseReport, l: string)
    requires Rectangular(rows) && i < |rows| && IsReportFor(rows, i, report)
    ensures l in report.caseLabels <==>
              exists k :: 0 <= k < |CaseLabelSets(rows, i)| && l in CaseLabelSets(rows, i)[k]
  {
    EnumeratedLabels(rows, i, report.caseLabels, l);
  }

  /** A summary row followed at once by a row that ends the case (or by
      nothing) still yields a report, with no embryos, empty buckets and no
      paragraph. */
  lemma EmptyCase(rows: seq<Row>, i: nat, report: CaseReport)
    requires Rectangular(rows) && i < |rows| && IsReportFor(rows, i, report)
    requires i + 1 == |rows| || EndsCase(rows[i + 1])
    ensures report.embryos == [] && report.caseLabels == [] && report.mutation == ""
    ensures report.grouped == Grouped("", "", "") && report.conclusionBlock == []
  {
    assert RunEnd(rows, i + 1) == i + 1;
    NoElementsNoList(report.caseLabels);
  }
}
