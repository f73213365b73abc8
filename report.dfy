/** What pgd.py builds from a case's embryo records: the three name
    buckets (`grouped`), the conclusion paragraphs of
    `generate_conclusion_block`, and the colour `style_embryo_table`
    gives a row of the embryo table. */
module Report {
  import opened Text
  import opened Cells
  import opened Classify

  // ---------------------------------------------------------------------
  // Buckets

  /** The names, in row order, of the embryos whose lower-cased result
      text contains `marker`. */
  function NamesWith(embryos: seq<Embryo>, marker: string): (r: seq<string>)
    ensures |r| <= |embryos|
  {
    if |embryos| == 0 then []
    else
      var last := embryos[|embryos| - 1];
      NamesWith(embryos[..|embryos| - 1], marker)
      + (if Contains(Lower(last.pgdResult), marker) then [last.name] else [])
  }

  /** One bucket of `grouped`: the names of the embryos whose lower-cased
      result text contains `marker`, joined by ", ". */
  function Bucket(embryos: seq<Embryo>, marker: string): string {
    Join(NamesWith(embryos, marker), ", ")
  }

  datatype Grouped = Grouped(homozygous: string, heterozygous: string, normal: string)

  /** `grouped`. */
  function Group(embryos: seq<Embryo>): Grouped {
    Grouped(Bucket(embryos, HomMarker), Bucket(embryos, HetMarker), Bucket(embryos, NormalMarker))
  }

  /** The names, in row order, of the embryos whose zygosity is `z`. */
  function NamesOf(embryos: seq<Embryo>, zs: seq<Zygosity>, z: Zygosity): (r: seq<string>)
    requires |zs| == |embryos|
    ensures |r| <= |embryos|
  {
    if |embryos| == 0 then []
    else
      var n := |embryos| - 1;
      NamesOf(embryos[..n], zs[..n], z) + (if zs[n] == z then [embryos[n].name] else [])
  }

  /** Each record's result text, lower-cased, marks exactly the zygosity
      listed for it. */
  predicate MarksAll(embryos: seq<Embryo>, zs: seq<Zygosity>)
    decreases |embryos|
  {
    |zs| == |embryos|
    && (|embryos| == 0
        || (MarksAll(embryos[..|embryos| - 1], zs[..|zs| - 1])
            && MarksExactly(Lower(embryos[|embryos| - 1].pgdResult), zs[|zs| - 1])))
  }

  /** One more record, marking its own zygosity. */
  lemma MarksAllSnoc(embryos: seq<Embryo>, zs: seq<Zygosity>, e: Embryo, z: Zygosity)
    requires MarksAll(embryos, zs) && MarksExactly(Lower(e.pgdResult), z)
    ensures MarksAll(embryos + [e], zs + [z])
  {
    assert (embryos + [e])[..|embryos|] == embryos;
    assert (zs + [z])[..|zs|] == zs;
  }

  /** When each record's result text marks exactly its zygosity, the bucket
      read back from the text holds exactly the embryos of that zygosity. */
  lemma {:induction false} BucketByZygosity(embryos: seq<Embryo>, zs: seq<Zygosity>, z: Zygosity)
    requires MarksAll(embryos, zs) && z != Unknown
    ensures NamesWith(embryos, Marker(z)) == NamesOf(embryos, zs, z)
    decreases |embryos|
  {
    if |embryos| > 0 {
      var n := |embryos| - 1;
      BucketByZygosity(embryos[..n], zs[..n], z);
    }
  }

  /** `grouped` puts each embryo in the bucket of its zygosity, in row
      order, and an embryo of unknown zygosity in none. */
  lemma GroupByZygosity(embryos: seq<Embryo>, zs: seq<Zygosity>)
    requires MarksAll(embryos, zs)
    ensures Group(embryos) == Grouped(Join(NamesOf(embryos, zs, Homozygous), ", "),
                                      Join(NamesOf(embryos, zs, Heterozygous), ", "),
                                      Join(NamesOf(embryos, zs, Normal), ", "))
  {
    BucketByZygosity(embryos, zs, Homozygous);
    BucketByZygosity(embryos, zs, Heterozygous);
    BucketByZygosity(embryos, zs, Normal);
  }

  // ---------------------------------------------------------------------
  // Conclusion paragraphs

  /** The fixed parts of the three paragraphs. */
  const Embryo_: string := "Ph\U{00F4}i "
  const HomMiddle: string := " c\U{00F3} \U{0111}\U{1ED3}ng h\U{1EE3}p t\U{1EED} \U{0111}\U{1ED9}t bi\U{1EBF}n "
  const HomEnd: string := " g\U{00E2}y b\U{1EC7}nh n\U{00EA}n kh\U{00F4}ng th\U{1EC3} l\U{1EF1}a ch\U{1ECD}n \U{0111}\U{1EC3} c\U{1EA5}y."
  const HetMiddle: string := " c\U{00F3} d\U{1ECB} h\U{1EE3}p t\U{1EED} \U{0111}\U{1ED9}t bi\U{1EBF}n "
  const HetEnd: string := " (ph\U{00F4}i l\U{00E0}nh mang gen b\U{1EC7}nh alpha thalassemia) v\U{00E0} kh\U{00F4}ng ph\U{00E1}t hi\U{1EC7}n b\U{1EA5}t th\U{01B0}\U{1EDD}ng l\U{1EC7}ch b\U{1ED9}i s\U{1ED1} l\U{01B0}\U{1EE3}ng nhi\U{1EC5}m s\U{1EAF}c th\U{1EC3} n\U{00EA}n c\U{00F3} th\U{1EC3} l\U{1EF1}a ch\U{1ECD}n \U{0111}\U{1EC3} c\U{1EA5}y."
  const NormalMiddle: string := " kh\U{00F4}ng mang \U{0111}\U{1ED9}t bi\U{1EBF}n "
  const NormalEnd: string := " gen b\U{1EC7}nh alpha thalassemia n\U{00EA}n c\U{00F3} th\U{1EC3} l\U{1EF1}a ch\U{1ECD}n \U{0111}\U{1EC3} c\U{1EA5}y."

  /** "Phôi {names} có đồng hợp tử đột biến {mutation} gây bệnh nên không
      thể lựa chọn để cấy." */
  function HomParagraph(names: string, mutation: string): string {
    Embryo_ + names + HomMiddle + mutation + HomEnd
  }

  /** "Phôi {names} có dị hợp tử đột biến {mutation} (...) nên có thể lựa
      chọn để cấy." */
  function HetParagraph(names: string, mutation: string): string {
    Embryo_ + names + HetMiddle + mutation + HetEnd
  }

  /** "Phôi {names} không mang đột biến {mutation} gen bệnh alpha
      thalassemia nên có thể lựa chọn để cấy." */
  function NormalParagraph(names: string, mutation: string): string {
    Embryo_ + names + NormalMiddle + mutation + NormalEnd
  }

  /** 1 for a bucket that yields a paragraph, 0 for an empty one. */
  function Count(bucket: string): nat {
    if bucket != "" then 1 else 0
  }

  /** `generate_conclusion_block`: one paragraph per non-empty bucket, in
      the order homozygous, heterozygous, normal. */
  function ConclusionBlock(hom: string, het: string, normal: string, mutation: string): (paras: seq<string>)
    ensures |paras| == Count(hom) + Count(het) + Count(normal)
    ensures hom != "" ==> paras[0] == HomParagraph(hom, mutation)
    ensures het != "" ==> paras[Count(hom)] == HetParagraph(het, mutation)
    ensures normal != "" ==> paras[Count(hom) + Count(het)] == NormalParagraph(normal, mutation)
  {
    (if hom != "" then [HomParagraph(hom, mutation)] else [])
    + (if het != "" then [HetParagraph(het, mutation)] else [])
    + (if normal != "" then [NormalParagraph(normal, mutation)] else [])
  }

  /** The block has between none and three paragraphs, and none at all
      exactly when every bucket is empty. */
  lemma ConclusionBlockSize(hom: string, het: string, normal: string, mutation: string)
    ensures |ConclusionBlock(hom, het, normal, mutation)| <= 3
    ensures ConclusionBlock(hom, het, normal, mutation) == [] <==> hom == "" && het == "" && normal == ""
  {
  }

  /** A joined bucket is empty exactly when it holds no name, or only one
      name that is itself empty. */
  lemma {:induction false} JoinEmpty(xs: seq<string>, sep: string)
    requires |sep| > 0
    ensures Join(xs, sep) == "" <==> |xs| == 0 || (|xs| == 1 && xs[0] == "")
  {
    if |xs| > 1 {
      assert |Join(xs, sep)| >= |sep|;
    }
  }

  // ---------------------------------------------------------------------
  // Colour of a row of the embryo table

  datatype Colour = Red | Green | NoColour

  /** "bất thường" and "phôi có thể lựa chọn", searched in the conclusion. */
  const AbnormalLow: string := "b\U{1EA5}t th\U{01B0}\U{1EDD}ng"
  const SelectableLow: string := "ph\U{00F4}i c\U{00F3} th\U{1EC3} l\U{1EF1}a ch\U{1ECD}n"

  /** The colour of a table row, from the texts of its result cell and its
      conclusion cell: red for a homozygous result or an abnormal
      conclusion, green for a selectable one, none otherwise. */
  function RowColour(pgdCell: string, conclusionCell: string): Colour {
    var pgdText := Lower(Strip(pgdCell));
    var conclusionText := Lower(Strip(conclusionCell));
    if Contains(pgdText, HomMarker) then Red
    else if Contains(conclusionText, AbnormalLow) then Red
    else if Contains(conclusionText, SelectableLow) then Green
    else NoColour
  }

  lemma LowerAbnormal()
    ensures Lower(Abnormal) == AbnormalLow
  {
  }

  lemma LowerSelectable()
    ensures Lower(Selectable) == SelectableLow + " \U{0111}\U{1EC3} c\U{1EA5}y"
  {
    var head := "Ph\U{00F4}i c\U{00F3} th\U{1EC3} l\U{1EF1}a ch\U{1ECD}n";
    var tail := " \U{0111}\U{1EC3} c\U{1EA5}y";
    assert Selectable == head + tail;
    LowerAppend(head, tail);
    assert Lower(head) == SelectableLow;
    assert Lower(tail) == tail;
  }

  lemma ConclusionsAreClean()
    ensures Strip(Abnormal) == Abnormal && Strip(Selectable) == Selectable && Strip("") == ""
  {
    StripClean(Abnormal);
    StripClean(Selectable);
  }

  /** "Phôi có thể lựa chọn để cấy" does not contain "bất thường": it has
      no 'ư'. */
  lemma SelectableNotAbnormal()
    ensures !Contains(Lower(Selectable), AbnormalLow)
  {
    LowerSelectable();
    assert AbnormalLow[6] == '\U{01B0}';
    MissingCharNotContained(Lower(Selectable), AbnormalLow, '\U{01B0}');
  }

  /** A slice of a string lacking a character lacks it too. */
  lemma StripLacks(s: string, c: char)
    requires LacksCased(s, c)
    ensures LacksCased(Strip(s), c)
  {
    StripSlice(s);
  }

  /** The colour a conclusion gives when the result text is not
      homozygous. */
  lemma ConclusionColour(pgd: string, conclusion: string)
    requires !Contains(Lower(Strip(pgd)), HomMarker)
    ensures conclusion == Abnormal ==> RowColour(pgd, conclusion) == Red
    ensures conclusion == Selectable ==> RowColour(pgd, conclusion) == Green
    ensures conclusion == "" ==> RowColour(pgd, conclusion) == NoColour
  {
    ConclusionsAreClean();
    if conclusion == Abnormal {
      LowerAbnormal();
      PrefixContains(AbnormalLow, "");
      assert AbnormalLow + "" == AbnormalLow;
    } else if conclusion == Selectable {
      LowerSelectable();
      SelectableNotAbnormal();
      PrefixContains(SelectableLow, " \U{0111}\U{1EC3} c\U{1EA5}y");
    } else if conclusion == "" {
      assert Lower("") == "";
    }
  }

  /** A homozygous result text stays homozygous once stripped. */
  lemma HomStrip(tail: string)
    ensures Contains(Lower(Strip(HomName + tail)), HomMarker)
  {
    assert HomName[0] == '\U{0110}' && HomName[|HomName| - 1] == '\U{1EED}';
    StripKeepsHead(HomName, tail);
    var st := Strip(HomName + tail);
    assert st == HomName + st[|HomName|..];
    NameHoldsMarker(Homozygous, st[|HomName|..]);
  }

  /** Any other result text is not read as homozygous. */
  lemma NotHomStrip(muts: seq<string>, result: Cell)
    requires forall k :: 0 <= k < |muts| ==> AllAscii(muts[k])
    requires ZygosityOf(ResultText(result)) != Homozygous
    ensures !Contains(Lower(Strip(PgdResult(ZygosityOf(ResultText(result)), muts, result))), HomMarker)
  {
    var z := ZygosityOf(ResultText(result));
    var pgd := PgdResult(z, muts, result);
    MarkersHoldTheirChars();
    if z == Unknown {
      StripIdempotent(Str(result));
      if !NotNa(result) {
        NanLacks(HomChar);
        StripLacks("nan", HomChar);
        LowerLacks(Strip("nan"), HomChar);
        MissingCharNotContained(Lower(Strip("nan")), HomMarker, HomChar);
      }
    } else {
      if z == Heterozygous {
        var tail := ResultTail(z, muts, result);
        HetNameLacks();
        LacksCasedAppend(HetName, tail, HomChar);
      } else {
        NormalNameLacks();
      }
      StripLacks(pgd, HomChar);
      LowerLacks(Strip(pgd), HomChar);
      MissingCharNotContained(Lower(Strip(pgd)), HomMarker, HomChar);
    }
  }

  /** The colour of an embryo's row follows its conclusion: red for
      "Bất thường", green for "Phôi có thể lựa chọn để cấy", none when the
      zygosity is unknown. */
  lemma EmbryoColour(row: Row, index: nat, caseLabels: seq<string>)
    requires WideEnough(row)
    requires forall k :: 0 <= k < |caseLabels| ==> AllAscii(caseLabels[k])
    ensures var e := ClassifyEmbryo(row, index, caseLabels);
            (RowColour(e.pgdResult, e.conclusion) == Red <==> e.conclusion == Abnormal)
            && (RowColour(e.pgdResult, e.conclusion) == Green <==> e.conclusion == Selectable)
            && (RowColour(e.pgdResult, e.conclusion) == NoColour <==> e.conclusion == "")
  {
    var result := row[ResultCol];
    var text := ResultText(result);
    var z := ZygosityOf(text);
    var muts := EmbryoMutations(text, caseLabels);
    var e := ClassifyEmbryo(row, index, caseLabels);
    EmbryoMutationsAscii(text, caseLabels);
    ConclusionIff(z, muts);
    ConclusionsDiffer();
    if z == Homozygous {
      var tail := ResultTail(z, muts, result);
      HomStrip(tail);
    } else {
      NotHomStrip(muts, result);
      ConclusionColour(e.pgdResult, e.conclusion);
    }
  }
}
