/** `pgd_parse_name_block` of pgd.py: the couple's names and years of
    birth, read from the text of a summary row's name column, in which the
    wife follows the label "VỢ:" and the husband the label "CHỒNG:". */
module NameBlock {
  import opened Text
  import opened Cells

  /** "VỢ:" (wife) and "CHỒNG:" (husband). */
  const WifeLabel: string := "V\U{1EE2}:"
  const HusbandLabel: string := "CH\U{1ED2}NG:"

  /** The four strings the parser returns. */
  datatype Couple = Couple(wifeName: string, wifeYob: string, husbandName: string, husbandYob: string)

  const Nobody: Couple := Couple("", "", "", "")

  // ---------------------------------------------------------------------
  // From the text to its lines

  /** Each label is moved to the start of a line of its own. */
  function Normalise(text: string): string {
    Replace(Replace(text, HusbandLabel, "\n" + HusbandLabel), WifeLabel, "\n" + WifeLabel)
  }

  /** The pieces stripped, with the blank ones dropped. */
  function NonBlank(pieces: seq<string>): (r: seq<string>)
    ensures |r| <= |pieces|
    ensures forall k :: 0 <= k < |r| ==> r[k] != []
  {
    if |pieces| == 0 then []
    else
      var line := Strip(pieces[0]);
      (if line == [] then [] else [line]) + NonBlank(pieces[1..])
  }

  /** The non-blank lines of the normalised text, stripped. */
  function Lines(text: string): seq<string> {
    NonBlank(Split(Normalise(text), {'\n'}))
  }

  // ---------------------------------------------------------------------
  // One line

  predicate IsWifeLine(line: string) {
    Contains(Upper(line), WifeLabel)
  }

  predicate IsHusbandLine(line: string) {
    Contains(Upper(line), HusbandLabel)
  }

  /** Only a colon upper-cases to a colon. */
  lemma UpperColon(c: char)
    requires UpperChar(c) == ':'
    ensures c == ':'
  {
  }

  /** A line whose upper-cased text holds a label ending in ':' holds a
      colon itself, so `line.split(":", 1)[1]` exists. */
  lemma LabelColon(line: string, tag: string)
    requires |tag| > 0 && tag[|tag| - 1] == ':'
    requires Contains(Upper(line), tag)
    ensures Contains(line, ":")
  {
    var i := Find(Upper(line), tag, 0);
    HasAtIndex(Upper(line), tag, i, |tag| - 1);
    var at := i + |tag| - 1;
    UpperColon(line[at]);
    assert line[at..at + 1] == ":";
    ContainsAt(line, ":", at);
  }

  lemma LabelsEndInColon()
    ensures WifeLabel[|WifeLabel| - 1] == ':' && HusbandLabel[|HusbandLabel| - 1] == ':'
  {
  }

  /** What follows the first colon of the line, stripped. */
  function Content(line: string): (r: string)
    requires Contains(line, ":")
    ensures |r| < |line|
  {
    Strip(line[Find(line, ":", 0) + 1..])
  }

  /** A split at the last hyphen when the content holds one, at the last
      space otherwise; both parts stripped, and "" for a missing second part. */
  function SplitYear(content: string): (string, string) {
    var h := LastIndexOf(content, '-');
    if h >= 0 then (Strip(content[..h]), Strip(content[h + 1..]))
    else
      var sp := LastIndexOf(content, ' ');
      if sp >= 0 then (Strip(content[..sp]), Strip(content[sp + 1..]))
      else (Strip(content), "")
  }

  /** Name and year of a labelled line. */
  function Fields(line: string, tag: string): (string, string)
    requires tag == WifeLabel || tag == HusbandLabel
    requires Contains(Upper(line), tag)
  {
    LabelsEndInColon();
    LabelColon(line, tag);
    SplitYear(Content(line))
  }

  /** What one line of the loop does to the four fields: a wife line sets
      the wife's, else a husband line sets the husband's. */
  function Step(c: Couple, line: string): Couple {
    if IsWifeLine(line) then
      var f := Fields(line, WifeLabel);
      c.(wifeName := f.0, wifeYob := f.1)
    else if IsHusbandLine(line) then
      var f := Fields(line, HusbandLabel);
      c.(husbandName := f.0, husbandYob := f.1)
    else c
  }

  /** The four fields after the loop has run over `lines`. */
  function Apply(lines: seq<string>): Couple {
    if |lines| == 0 then Nobody
    else Step(Apply(lines[..|lines| - 1]), lines[|lines| - 1])
  }

  lemma StepOnWifeLine(c: Couple, line: string)
    requires IsWifeLine(line)
    ensures Step(c, line) == Couple(Fields(line, WifeLabel).0, Fields(line, WifeLabel).1, c.husbandName, c.husbandYob)
  {
  }

  lemma StepOnHusbandLine(c: Couple, line: string)
    requires !IsWifeLine(line) && IsHusbandLine(line)
    ensures Step(c, line) == Couple(c.wifeName, c.wifeYob, Fields(line, HusbandLabel).0, Fields(line, HusbandLabel).1)
  {
  }

  lemma StepOnOtherLine(c: Couple, line: string)
    requires !IsWifeLine(line) && !IsHusbandLine(line)
    ensures Step(c, line) == c
  {
  }

  lemma ApplySnoc(lines: seq<string>, k: nat)
    requires k < |lines|
    ensures Apply(lines[..k + 1]) == Step(Apply(lines[..k]), lines[k])
  {
    assert lines[..k + 1][..k] == lines[..k];
  }

  /** `pgd_parse_name_block(name_block)` as a value. */
  function ParsedNames(block: Cell): Couple {
    if block.Text? then Apply(Lines(block.text)) else Nobody
  }

  /** `pgd_parse_name_block(name_block)`: the loop over the lines,
      overwriting the four fields. */
  method ParseNameBlock(block: Cell) returns (wifeName: string, wifeYob: string, husbandName: string, husbandYob: string)
    ensures Couple(wifeName, wifeYob, husbandName, husbandYob) == ParsedNames(block)
    ensures !block.Text? ==> wifeName == wifeYob == husbandName == husbandYob == ""
  {
    wifeName, wifeYob, husbandName, husbandYob := "", "", "", "";
    if block.Text? {
      wifeName, wifeYob, husbandName, husbandYob := ScanLines(Lines(block.text));
    }
  }

  /** The loop of `pgd_parse_name_block` over the lines of the block. */
  method ScanLines(lines: seq<string>) returns (wifeName: string, wifeYob: string, husbandName: string, husbandYob: string)
    ensures Couple(wifeName, wifeYob, husbandName, husbandYob) == Apply(lines)
  {
    wifeName, wifeYob, husbandName, husbandYob := "", "", "", "";
    var k := 0;
    assert Apply(lines[..k]) == Nobody;
    while k < |lines|
      invariant 0 <= k <= |lines|
      invariant Couple(wifeName, wifeYob, husbandName, husbandYob) == Apply(lines[..k])
    {
      var line := lines[k];
      ApplySnoc(lines, k);
      if IsWifeLine(line) {
        var f := Fields(line, WifeLabel);
        StepOnWifeLine(Couple(wifeName, wifeYob, husbandName, husbandYob), line);
        wifeName, wifeYob := f.0, f.1;
      } else if IsHusbandLine(line) {
        var f := Fields(line, HusbandLabel);
        StepOnHusbandLine(Couple(wifeName, wifeYob, husbandName, husbandYob), line);
        husbandName, husbandYob := f.0, f.1;
      } else {
        StepOnOtherLine(Couple(wifeName, wifeYob, husbandName, husbandYob), line);
      }
      k := k + 1;
    }
    assert lines[..k] == lines;
  }

  // ---------------------------------------------------------------------
  // Splitting off the year

  /** With a hyphen, the split is at the last hyphen. */
  lemma SplitAtLastHyphen(content: string, h: nat)
    requires h < |content| && content[h] == '-' && '-' !in content[h + 1..]
    ensures SplitYear(content) == (Strip(content[..h]), Strip(content[h + 1..]))
  {
    LastIndexOfUnique(content, '-', h);
  }

  /** Without a hyphen, the split is at the last space. */
  lemma SplitAtLastSpace(content: string, sp: nat)
    requires '-' !in content
    requires sp < |content| && content[sp] == ' ' && ' ' !in content[sp + 1..]
    ensures SplitYear(content) == (Strip(content[..sp]), Strip(content[sp + 1..]))
  {
    LastIndexOfUnique(content, ' ', sp);
  }

  /** With neither, the whole content is the name and the year is "". */
  lemma SplitWithoutSeparator(content: string)
    requires '-' !in content && ' ' !in content
    ensures SplitYear(content) == (Strip(content), "")
  {
  }

  /** The characters of a stripped string all come from the string. */
  lemma StripKeepsOut(s: string, c: char)
    requires c !in s
    ensures c !in Strip(s)
  {
    StripSlice(s);
  }

  /** After a split at the last hyphen, the year holds no hyphen. */
  lemma YearWithoutHyphen(content: string)
    requires '-' in content
    ensures '-' !in SplitYear(content).1
  {
    var h := LastIndexOf(content, '-');
    assert 0 <= h < |content|;
    StripKeepsOut(content[h + 1..], '-');
  }

  // ---------------------------------------------------------------------
  // Which line sets the fields

  /** A line that is not the wife's leaves the wife's fields. */
  lemma StepKeepsWife(c: Couple, line: string)
    requires !IsWifeLine(line)
    ensures Step(c, line).wifeName == c.wifeName && Step(c, line).wifeYob == c.wifeYob
  {
  }

  /** The wife's fields come from the last wife line. */
  lemma LastWifeLineWins(lines: seq<string>, k: nat)
    requires k < |lines| && IsWifeLine(lines[k])
    requires forall j :: k < j < |lines| ==> !IsWifeLine(lines[j])
    ensures (Apply(lines).wifeName, Apply(lines).wifeYob) == Fields(lines[k], WifeLabel)
  {
    WifeLineWinsUpTo(lines, k, |lines|);
    assert lines[..|lines|] == lines;
  }

  /** The same for the first `m` lines, by induction on `m`. */
  lemma {:induction false} WifeLineWinsUpTo(lines: seq<string>, k: nat, m: nat)
    requires k < m <= |lines| && IsWifeLine(lines[k])
    requires forall j :: k < j < |lines| ==> !IsWifeLine(lines[j])
    ensures (Apply(lines[..m]).wifeName, Apply(lines[..m]).wifeYob) == Fields(lines[k], WifeLabel)
    decreases m
  {
    ApplySnoc(lines, m - 1);
    if m - 1 == k {
      StepOnWifeLine(Apply(lines[..k]), lines[k]);
    } else {
      WifeLineWinsUpTo(lines, k, m - 1);
      StepKeepsWife(Apply(lines[..m - 1]), lines[m - 1]);
    }
  }

  /** Without a wife line, both wife fields stay "". */
  lemma {:induction false} NoWifeLine(lines: seq<string>)
    requires forall j :: 0 <= j < |lines| ==> !IsWifeLine(lines[j])
    ensures Apply(lines).wifeName == "" && Apply(lines).wifeYob == ""
    decreases |lines|
  {
    if |lines| > 0 {
      NoWifeLine(lines[..|lines| - 1]);
    }
  }

  /** A husband line that is not also a wife line. */
  predicate IsOnlyHusbandLine(line: string) {
    !IsWifeLine(line) && IsHusbandLine(line)
  }

  /** A line of no one's, or of the wife's, leaves the husband's fields. */
  lemma StepKeepsHusband(c: Couple, line: string)
    requires !IsOnlyHusbandLine(line)
    ensures Step(c, line).husbandName == c.husbandName && Step(c, line).husbandYob == c.husbandYob
  {
  }

  /** The husband's fields come from the last husband line that is not a
      wife line (a line with both labels counts as the wife's). */
  lemma LastHusbandLineWins(lines: seq<string>, k: nat)
    requires k < |lines| && IsOnlyHusbandLine(lines[k])
    requires forall j :: k < j < |lines| ==> !IsOnlyHusbandLine(lines[j])
    ensures (Apply(lines).husbandName, Apply(lines).husbandYob) == Fields(lines[k], HusbandLabel)
  {
    HusbandLineWinsUpTo(lines, k, |lines|);
    assert lines[..|lines|] == lines;
  }

  /** The same for the first `m` lines, by induction on `m`. */
  lemma {:induction false} HusbandLineWinsUpTo(lines: seq<string>, k: nat, m: nat)
    requires k < m <= |lines| && IsOnlyHusbandLine(lines[k])
    requires forall j :: k < j < |lines| ==> !IsOnlyHusbandLine(lines[j])
    ensures (Apply(lines[..m]).husbandName, Apply(lines[..m]).husbandYob) == Fields(lines[k], HusbandLabel)
    decreases m
  {
    ApplySnoc(lines, m - 1);
    if m - 1 == k {
      StepOnHusbandLine(Apply(lines[..k]), lines[k]);
    } else {
      HusbandLineWinsUpTo(lines, k, m - 1);
      StepKeepsHusband(Apply(lines[..m - 1]), lines[m - 1]);
    }
  }

  /** Without a husband line, both husband fields stay "". */
  lemma {:induction false} NoHusbandLine(lines: seq<string>)
    requires forall j :: 0 <= j < |lines| ==> !IsOnlyHusbandLine(lines[j])
    ensures Apply(lines).husbandName == "" && Apply(lines).husbandYob == ""
    decreases |lines|
  {
    if |lines| > 0 {
      NoHusbandLine(lines[..|lines| - 1]);
    }
  }

  /** A text that is not a string gives four empty strings. */
  lemma NotTextGivesNobody(block: Cell)
    requires !block.Text?
    ensures ParsedNames(block) == Nobody
  {
  }
}
