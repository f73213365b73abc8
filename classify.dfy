/** The classification of one embryo row in `process_pgd_excel` of pgd.py:
    the zygosity read from the result column, the mutation labels, the
    `pgd_result` text and the conclusion. */
module Classify {
  import opened Text
  import opened Cells
  import opened Mutations

  datatype Zygosity = Homozygous | Heterozygous | Normal | Unknown

  /** One embryo record of the report. */
  datatype Embryo = Embryo(index: nat, name: string, pgdResult: string, conclusion: string)

  /** The lower-case markers searched for in the result text:
      "đồng hợp", "dị hợp" and "bình thường". */
  const HomMarker: string := "\U{0111}\U{1ED3}ng h\U{1EE3}p"
  const HetMarker: string := "d\U{1ECB} h\U{1EE3}p"
  const NormalMarker: string := "b\U{00EC}nh th\U{01B0}\U{1EDD}ng"

  /** The zygosity names written into `pgd_result`:
      "Đồng hợp tử", "Dị hợp tử" and "Bình thường". */
  const HomName: string := "\U{0110}\U{1ED3}ng h\U{1EE3}p t\U{1EED}"
  const HetName: string := "D\U{1ECB} h\U{1EE3}p t\U{1EED}"
  const NormalName: string := "B\U{00EC}nh th\U{01B0}\U{1EDD}ng"

  /** " đột biến" (mutation), with and without the space after it, and
      " và đột biến " (and mutation), which joins several labels. */
  const MutationBare: string := " \U{0111}\U{1ED9}t bi\U{1EBF}n"
  const MutationSpaced: string := " \U{0111}\U{1ED9}t bi\U{1EBF}n "
  const AndMutation: string := " v\U{00E0} \U{0111}\U{1ED9}t bi\U{1EBF}n "

  /** The two conclusions: "Phôi có thể lựa chọn để cấy" (the embryo can
      be chosen for transfer) and "Bất thường" (abnormal). */
  const Selectable: string := "Ph\U{00F4}i c\U{00F3} th\U{1EC3} l\U{1EF1}a ch\U{1ECD}n \U{0111}\U{1EC3} c\U{1EA5}y"
  const Abnormal: string := "B\U{1EA5}t th\U{01B0}\U{1EDD}ng"

  function Marker(z: Zygosity): string
    requires z != Unknown
  {
    match z
    case Homozygous => HomMarker
    case Heterozygous => HetMarker
    case Normal => NormalMarker
  }

  function ZygosityName(z: Zygosity): string {
    match z
    case Homozygous => HomName
    case Heterozygous => HetName
    case Normal => NormalName
    case Unknown => ""
  }

  // ---------------------------------------------------------------------
  // The row's fields

  /** `embryo_result_col`: the result text stripped and lower-cased, or ""
      for a missing value. */
  function ResultText(result: Cell): string {
    if NotNa(result) then Lower(Strip(Str(result))) else ""
  }

  /** The embryo's name: the stripped name column, or "" when missing. */
  function EmbryoName(c: Cell): string {
    if NotNa(c) then Strip(Str(c)) else ""
  }

  /** The zygosity: the first marker found, in the order homozygous,
      heterozygous, normal. */
  function ZygosityOf(text: string): (z: Zygosity)
    ensures z == Unknown <==>
              !Contains(text, HomMarker) && !Contains(text, HetMarker) && !Contains(text, NormalMarker)
    ensures z != Unknown ==> Contains(text, Marker(z))
    ensures z == Heterozygous ==> !Contains(text, HomMarker)
    ensures z == Normal ==> !Contains(text, HomMarker) && !Contains(text, HetMarker)
  {
    if Contains(text, HomMarker) then Homozygous
    else if Contains(text, HetMarker) then Heterozygous
    else if Contains(text, NormalMarker) then Normal
    else Unknown
  }

  /** The embryo's labels: those found in its own result text, or the
      case's labels when none are found and the zygosity is known. */
  function EmbryoMutations(text: string, caseLabels: seq<string>): seq<string> {
    var found := Extract(text);
    if found == [] && ZygosityOf(text) != Unknown then caseLabels else found
  }

  /** `pgd_result`. */
  function PgdResult(z: Zygosity, muts: seq<string>, result: Cell): string {
    if z == Normal then NormalName
    else if z != Unknown && |muts| > 0 then
      if |muts| == 1 then ZygosityName(z) + MutationSpaced + muts[0]
      else ZygosityName(z) + MutationSpaced + Join(muts, AndMutation)
    else if z != Unknown then ZygosityName(z) + MutationBare
    else Strip(Str(result))
  }

  /** `final_conclusion`. */
  function Conclusion(z: Zygosity, muts: seq<string>): string {
    match z
    case Normal => Selectable
    case Heterozygous => if |muts| >= 2 then Abnormal else Selectable
    case Homozygous => Abnormal
    case Unknown => ""
  }

  /** The record the consumption loop appends for an embryo row. A
      homozygous embryo is abnormal and a normal one selectable; a
      heterozygous one is abnormal when it has two labels or more, counting
      its own, or the case's when its text names none. */
  function ClassifyEmbryo(row: Row, index: nat, caseLabels: seq<string>): (e: Embryo)
    requires WideEnough(row)
    ensures e.index == index
    ensures e.conclusion == "" <==> ZygosityOf(ResultText(row[ResultCol])) == Unknown
    ensures ZygosityOf(ResultText(row[ResultCol])) == Homozygous ==> e.conclusion == Abnormal
    ensures ZygosityOf(ResultText(row[ResultCol])) == Normal ==>
              e.conclusion == Selectable && e.pgdResult == NormalName
    ensures ZygosityOf(ResultText(row[ResultCol])) == Heterozygous && Extract(ResultText(row[ResultCol])) != [] ==>
              e.conclusion == (if |Extract(ResultText(row[ResultCol]))| >= 2 then Abnormal else Selectable)
    ensures ZygosityOf(ResultText(row[ResultCol])) == Heterozygous && Extract(ResultText(row[ResultCol])) == [] ==>
              e.conclusion == (if |caseLabels| >= 2 then Abnormal else Selectable)
    ensures ZygosityOf(ResultText(row[ResultCol])) in {Homozygous, Heterozygous} &&
            Extract(ResultText(row[ResultCol])) == [] && caseLabels == [] ==>
              e.pgdResult == ZygosityName(ZygosityOf(ResultText(row[ResultCol]))) + MutationBare
  {
    var result := row[ResultCol];
    var text := ResultText(result);
    var z := ZygosityOf(text);
    var muts := EmbryoMutations(text, caseLabels);
    ConclusionIff(z, muts);
    Embryo(index, EmbryoName(row[NameCol]), PgdResult(z, muts, result), Conclusion(z, muts))
  }

  // ---------------------------------------------------------------------
  // The conclusion and the result text

  lemma ConclusionsDiffer()
    ensures Selectable != Abnormal && Selectable != "" && Abnormal != ""
  {
    assert Selectable[0] != Abnormal[0];
  }

  /** "Bất thường" for a homozygous embryo and for a heterozygous one with
      two labels or more; "Phôi có thể lựa chọn để cấy" for a normal one
      and a heterozygous one with fewer; "" when the zygosity is unknown. */
  lemma ConclusionIff(z: Zygosity, muts: seq<string>)
    ensures Conclusion(z, muts) == Abnormal <==> z == Homozygous || (z == Heterozygous && |muts| >= 2)
    ensures Conclusion(z, muts) == Selectable <==> z == Normal || (z == Heterozygous && |muts| < 2)
    ensures Conclusion(z, muts) == "" <==> z == Unknown
  {
    ConclusionsDiffer();
  }

  /** One label or several, the result text is the zygosity name, the word
      " đột biến " and the labels joined by " và đột biến ". */
  lemma PgdResultJoins(z: Zygosity, muts: seq<string>, result: Cell)
    requires z == Homozygous || z == Heterozygous
    requires |muts| > 0
    ensures PgdResult(z, muts, result) == ZygosityName(z) + MutationSpaced + Join(muts, AndMutation)
  {
  }

  /** When the embryo's own text names no label but its zygosity is
      homozygous or heterozygous, the result text names the case's labels. */
  lemma FallbackToCaseLabels(row: Row, index: nat, caseLabels: seq<string>)
    requires WideEnough(row)
    requires Extract(ResultText(row[ResultCol])) == []
    requires ZygosityOf(ResultText(row[ResultCol])) in {Homozygous, Heterozygous}
    requires |caseLabels| > 0
    ensures ClassifyEmbryo(row, index, caseLabels).pgdResult ==
              ZygosityName(ZygosityOf(ResultText(row[ResultCol]))) + MutationSpaced + Join(caseLabels, AndMutation)
  {
    PgdResultJoins(ZygosityOf(ResultText(row[ResultCol])), caseLabels, row[ResultCol]);
  }

  // ---------------------------------------------------------------------
  // The result text re-read: the bucket markers

  /** The characters that tell the markers apart: ồ (only in "đồng hợp"),
      ị (only in "dị hợp") and ì (only in "bình thường"), with the capitals
      that lower-case to them. */
  const HomChar: char := '\U{1ED3}'
  const HetChar: char := '\U{1ECB}'
  const NormalChar: char := '\U{00EC}'

  predicate LacksCased(s: string, c: char) {
    forall i :: 0 <= i < |s| ==> LowerChar(s[i]) != c
  }

  lemma LowerLacks(s: string, c: char)
    requires LacksCased(s, c)
    ensures c !in Lower(s)
  {
  }

  lemma LacksCasedAppend(a: string, b: string, c: char)
    requires LacksCased(a, c) && LacksCased(b, c)
    ensures LacksCased(a + b, c)
  {
  }

  /** No ASCII character lower-cases to a distinguishing character. */
  lemma AsciiLacks(s: string, c: char)
    requires AllAscii(s) && !IsAscii(c)
    ensures LacksCased(s, c)
  {
  }

  lemma {:induction false} JoinLacks(xs: seq<string>, sep: string, c: char)
    requires forall k :: 0 <= k < |xs| ==> LacksCased(xs[k], c)
    requires LacksCased(sep, c)
    ensures LacksCased(Join(xs, sep), c)
  {
    if |xs| > 1 {
      JoinLacks(xs[1..], sep, c);
      LacksCasedAppend(xs[0], sep, c);
      LacksCasedAppend(xs[0] + sep, Join(xs[1..], sep), c);
    }
  }

  lemma MarkersHoldTheirChars()
    ensures HomChar in HomMarker && HetChar in HetMarker && NormalChar in NormalMarker
  {
    assert HomMarker[1] == HomChar;
    assert HetMarker[1] == HetChar;
    assert NormalMarker[1] == NormalChar;
  }

  /** The connecting words hold none of the distinguishing characters. */
  lemma WordsLack(c: char)
    requires c == HomChar || c == HetChar || c == NormalChar
    ensures LacksCased(MutationBare, c) && LacksCased(MutationSpaced, c) && LacksCased(AndMutation, c)
  {
  }

  lemma HomNameLacks()
    ensures LacksCased(HomName, HetChar) && LacksCased(HomName, NormalChar)
  {
  }

  lemma HetNameLacks()
    ensures LacksCased(HetName, HomChar) && LacksCased(HetName, NormalChar)
  {
  }

  lemma NormalNameLacks()
    ensures LacksCased(NormalName, HomChar) && LacksCased(NormalName, HetChar)
  {
  }

  lemma NanLacks(c: char)
    requires !IsAscii(c)
    ensures LacksCased("nan", c)
  {
  }

  lemma LowerHomName()
    ensures Lower(HomName) == HomMarker + " t\U{1EED}"
  {
  }

  lemma LowerHetName()
    ensures Lower(HetName) == HetMarker + " t\U{1EED}"
  {
  }

  lemma LowerNormalName()
    ensures Lower(NormalName) == NormalMarker
  {
  }

  /** A string starting with `m` contains `m`. */
  lemma PrefixContains(m: string, rest: string)
    ensures Contains(m + rest, m)
  {
    assert (m + rest)[0..|m|] == m;
    ContainsAt(m + rest, m, 0);
  }

  /** The lower-cased name of a known zygosity holds its marker; the tail
      after it, whatever labels it holds, adds none. */
  lemma NameHoldsMarker(z: Zygosity, tail: string)
    requires z != Unknown
    ensures Contains(Lower(ZygosityName(z) + tail), Marker(z))
  {
    LowerAppend(ZygosityName(z), tail);
    match z {
      case Homozygous =>
        LowerHomName();
        assert Lower(HomName) + Lower(tail) == HomMarker + (" t\U{1EED}" + Lower(tail));
        PrefixContains(HomMarker, " t\U{1EED}" + Lower(tail));
      case Heterozygous =>
        LowerHetName();
        assert Lower(HetName) + Lower(tail) == HetMarker + (" t\U{1EED}" + Lower(tail));
        PrefixContains(HetMarker, " t\U{1EED}" + Lower(tail));
      case Normal =>
        LowerNormalName();
        PrefixContains(NormalMarker, Lower(tail));
    }
  }

  /** What the result text holds, once lower-cased, for a zygosity: its
      own marker, and neither of the other two. */
  predicate MarksExactly(low: string, z: Zygosity) {
    (Contains(low, HomMarker) <==> z == Homozygous)
    && (Contains(low, HetMarker) <==> z == Heterozygous)
    && (Contains(low, NormalMarker) <==> z == Normal)
  }

  /** A string whose lower-cased form lacks the distinguishing characters
      of the other two markers, and holds its own, marks exactly `z`. */
  lemma MarksByChars(s: string, z: Zygosity)
    requires z != Unknown && Contains(Lower(s), Marker(z))
    requires z != Homozygous ==> LacksCased(s, HomChar)
    requires z != Heterozygous ==> LacksCased(s, HetChar)
    requires z != Normal ==> LacksCased(s, NormalChar)
    ensures MarksExactly(Lower(s), z)
  {
    MarkersHoldTheirChars();
    if z != Homozygous {
      LowerLacks(s, HomChar);
      MissingCharNotContained(Lower(s), HomMarker, HomChar);
    }
    if z != Heterozygous {
      LowerLacks(s, HetChar);
      MissingCharNotContained(Lower(s), HetMarker, HetChar);
    }
    if z != Normal {
      LowerLacks(s, NormalChar);
      MissingCharNotContained(Lower(s), NormalMarker, NormalChar);
    }
  }

  /** The text after the zygosity name lacks every distinguishing
      character when the labels are ASCII. */
  lemma TailLacks(muts: seq<string>, c: char)
    requires forall k :: 0 <= k < |muts| ==> AllAscii(muts[k])
    requires c == HomChar || c == HetChar || c == NormalChar
    ensures LacksCased(MutationBare, c)
    ensures |muts| > 0 ==> LacksCased(MutationSpaced + Join(muts, AndMutation), c)
  {
    WordsLack(c);
    if |muts| > 0 {
      forall k | 0 <= k < |muts|
        ensures LacksCased(muts[k], c)
      {
        AsciiLacks(muts[k], c);
      }
      JoinLacks(muts, AndMutation, c);
      LacksCasedAppend(MutationSpaced, Join(muts, AndMutation), c);
    }
  }

  /** The name of a homozygous or heterozygous embryo, then any tail free
      of the distinguishing characters, marks exactly its zygosity. */
  lemma NamedResultMarks(z: Zygosity, tail: string)
    requires z == Homozygous || z == Heterozygous
    requires LacksCased(tail, HomChar) && LacksCased(tail, HetChar) && LacksCased(tail, NormalChar)
    ensures MarksExactly(Lower(ZygosityName(z) + tail), z)
  {
    NameHoldsMarker(z, tail);
    if z == Homozygous {
      HomNameLacks();
      LacksCasedAppend(HomName, tail, HetChar);
      LacksCasedAppend(HomName, tail, NormalChar);
    } else {
      HetNameLacks();
      LacksCasedAppend(HetName, tail, HomChar);
      LacksCasedAppend(HetName, tail, NormalChar);
    }
    MarksByChars(ZygosityName(z) + tail, z);
  }

  /** For a known zygosity with some labels, or none, the result text ends
      in a tail free of the distinguishing characters. */
  lemma ResultTail(z: Zygosity, muts: seq<string>, result: Cell) returns (tail: string)
    requires z == Homozygous || z == Heterozygous
    requires forall k :: 0 <= k < |muts| ==> AllAscii(muts[k])
    ensures PgdResult(z, muts, result) == ZygosityName(z) + tail
    ensures LacksCased(tail, HomChar) && LacksCased(tail, HetChar) && LacksCased(tail, NormalChar)
  {
    TailLacks(muts, HomChar);
    TailLacks(muts, HetChar);
    TailLacks(muts, NormalChar);
    if |muts| > 0 {
      PgdResultJoins(z, muts, result);
      tail := MutationSpaced + Join(muts, AndMutation);
    } else {
      tail := MutationBare;
    }
  }

  /** Re-reading `pgd_result` recovers the zygosity: its lower-cased text
      holds a zygosity's marker exactly when the embryo has that zygosity,
      provided the labels are ASCII (as every extracted label is). */
  lemma ResultMarksZygosity(muts: seq<string>, result: Cell)
    requires forall k :: 0 <= k < |muts| ==> AllAscii(muts[k])
    ensures var z := ZygosityOf(ResultText(result));
            MarksExactly(Lower(PgdResult(z, muts, result)), z)
  {
    var z := ZygosityOf(ResultText(result));
    if z == Homozygous || z == Heterozygous {
      var tail := ResultTail(z, muts, result);
      NamedResultMarks(z, tail);
    } else if z == Normal {
      NormalNameLacks();
      NameHoldsMarker(Normal, "");
      assert NormalName + "" == NormalName;
      MarksByChars(NormalName, Normal);
    } else {
      UnknownMarksNothing(result);
    }
  }

  /** An unknown zygosity leaves the raw text, which holds no marker. */
  lemma UnknownMarksNothing(result: Cell)
    requires ZygosityOf(ResultText(result)) == Unknown
    ensures MarksExactly(Lower(Strip(Str(result))), Unknown)
  {
    if !NotNa(result) {
      MarkersHoldTheirChars();
      NanLacks(HomChar);
      NanLacks(HetChar);
      NanLacks(NormalChar);
      LowerLacks("nan", HomChar);
      LowerLacks("nan", HetChar);
      LowerLacks("nan", NormalChar);
      MissingCharNotContained(Lower("nan"), HomMarker, HomChar);
      MissingCharNotContained(Lower("nan"), HetMarker, HetChar);
      MissingCharNotContained(Lower("nan"), NormalMarker, NormalChar);
    }
  }

  /** The labels an embryo row ends up with are ASCII when the case's
      labels are. */
  lemma EmbryoMutationsAscii(text: string, caseLabels: seq<string>)
    requires forall k :: 0 <= k < |caseLabels| ==> AllAscii(caseLabels[k])
    ensures var m := EmbryoMutations(text, caseLabels);
            forall k :: 0 <= k < |m| ==> AllAscii(m[k])
  {
    var found := Extract(text);
    ExtractGivesLabels(text);
    forall k | 0 <= k < |found|
      ensures AllAscii(found[k])
    {
      LabelIsAscii(found[k]);
    }
  }

  /** The embryo record's result text, lower-cased, marks exactly the
      zygosity read from the row. */
  lemma EmbryoMarksZygosity(row: Row, index: nat, caseLabels: seq<string>)
    requires WideEnough(row)
    requires forall k :: 0 <= k < |caseLabels| ==> AllAscii(caseLabels[k])
    ensures MarksExactly(Lower(ClassifyEmbryo(row, index, caseLabels).pgdResult),
                         ZygosityOf(ResultText(row[ResultCol])))
  {
    var text := ResultText(row[ResultCol]);
    EmbryoMutationsAscii(text, caseLabels);
    ResultMarksZygosity(EmbryoMutations(text, caseLabels), row[ResultCol]);
  }
}
