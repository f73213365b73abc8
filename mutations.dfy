/** `extract_mutations` of utils.py: free text is cut at the separators
    `\s*[,/&]\s*`, and each segment is matched against the ordered
    `MUTATION_PATTERNS` table; the first pattern that matches gives the
    segment's canonical label.  Each pattern is a (matcher, canonicaliser)
    pair: the matcher finds the leftmost match as Python's regex engine
    does, the canonicaliser turns the matched text into the label. */
module Mutations {
  import opened Text
  import opened Cells

  /** The five entries of `MUTATION_PATTERNS`, in table order. */
  datatype Pattern =
    | Sea      // (?i)\bSEA\b                       -> "SEA"
    | Alpha37  // \b3\.7\b                          -> "3.7"
    | Alpha42  // \b4\.2\b                          -> "4.2"
    | CdCode   // (?i)\bCD\s?-?\d+(-\d+)?\b          -> upper-cased, white space and hyphens removed
    | Hgvs     // \bc\.\d+([+-]\d+)?[A-Z]?>[A-Z]?\b  -> the match itself

  const Table: seq<Pattern> := [Sea, Alpha37, Alpha42, CdCode, Hgvs]

  // ---------------------------------------------------------------------
  // Regex building blocks

  predicate WordAt(s: string, i: int) {
    0 <= i < |s| && IsWordChar(s[i])
  }

  /** `\b` holds at position `i` (between `s[i-1]` and `s[i]`). */
  predicate Boundary(s: string, i: int) {
    WordAt(s, i - 1) != WordAt(s, i)
  }

  /** `s[i]` exists and is `a` or `b` (a letter matched case-insensitively). */
  predicate CharIs(s: string, i: int, a: char, b: char) {
    0 <= i < |s| && (s[i] == a || s[i] == b)
  }

  /** End of the longest run of digits from `i`, where a greedy `\d+` stops. */
  function DigitsEnd(s: string, i: nat): (e: nat)
    requires i <= |s|
    ensures i <= e <= |s|
    ensures forall k :: i <= k < e ==> IsDigit(s[k])
    ensures e == |s| || !IsDigit(s[e])
    decreases |s| - i
  {
    if i < |s| && IsDigit(s[i]) then DigitsEnd(s, i + 1) else i
  }

  // ---------------------------------------------------------------------
  // Matchers: where a match that starts at `i` ends, following the order in
  // which the backtracking engine tries the alternatives.

  /** `(?i)\bSEA\b` at `i`.  Ignoring case, `S` also matches the long s
      (U+017F), which folds to `s`. */
  function SeaEnd(s: string, i: nat): Option<nat> {
    if Boundary(s, i) && (CharIs(s, i, 'S', 's') || CharIs(s, i, '\U{017F}', '\U{017F}'))
       && CharIs(s, i + 1, 'E', 'e')
       && CharIs(s, i + 2, 'A', 'a') && Boundary(s, i + 3)
    then Some(i + 3) else None
  }

  /** `\b<lit>\b` at `i`, for the literal codes "3.7" and "4.2". */
  function LiteralEnd(s: string, i: nat, lit: string): Option<nat> {
    if Boundary(s, i) && HasAt(s, lit, i) && Boundary(s, i + |lit|)
    then Some(i + |lit|) else None
  }

  /** `(?i)\bCD\s?-?\d+(-\d+)?\b` at `i`.  The optional space and hyphen must be
      taken when present (otherwise `\d+` meets them and fails), and `\d+`
      must run to the end of its digits (otherwise `\b` falls between two
      digits).  The optional `-\d+` group is kept when `\b` holds after it;
      otherwise the match ends after the first digit run. */
  function CdEnd(s: string, i: nat): (r: Option<nat>)
    ensures r.Some? ==> i + 3 <= r.value <= |s|
  {
    if !(Boundary(s, i) && CharIs(s, i, 'C', 'c') && CharIs(s, i + 1, 'D', 'd')) then None
    else
      var q := i + 2;
      var r := if q < |s| && IsSpace(s[q]) then q + 1 else q;
      var r2 := if r < |s| && s[r] == '-' then r + 1 else r;
      var t := DigitsEnd(s, r2);
      if t == r2 then None
      else if t + 1 < |s| && s[t] == '-' && IsDigit(s[t + 1]) && Boundary(s, DigitsEnd(s, t + 1)) then
        Some(DigitsEnd(s, t + 1))
      else if Boundary(s, t) then Some(t)
      else None
  }

  /** `\bc\.\d+([+-]\d+)?[A-Z]?>[A-Z]?\b` at `i`.  Every optional part before
      `>` is forced; after `>` a capital is taken when `\b` holds after it,
      otherwise the match ends right after `>`, which needs a word
      character there for `\b`. */
  function HgvsEnd(s: string, i: nat): (r: Option<nat>)
    ensures r.Some? ==> i + 4 <= r.value <= |s|
  {
    if !(Boundary(s, i) && i + 2 <= |s| && s[i] == 'c' && s[i + 1] == '.') then None
    else
      var t := DigitsEnd(s, i + 2);
      if t == i + 2 then None
      else
        var v := if t + 1 < |s| && (s[t] == '+' || s[t] == '-') && IsDigit(s[t + 1]) then DigitsEnd(s, t + 1) else t;
        var w := if v < |s| && IsAsciiUpper(s[v]) then v + 1 else v;
        if !(w < |s| && s[w] == '>') then None
        else if w + 1 < |s| && IsAsciiUpper(s[w + 1]) then
          (if Boundary(s, w + 2) then Some(w + 2) else Some(w + 1))
        else if w + 1 < |s| && IsWordChar(s[w + 1]) then Some(w + 1)
        else None
  }

  /** A CD match is "CD" in either case, then digits, white space and
      hyphens, with at least one digit. */
  lemma CdEndShape(s: string, i: nat)
    requires CdEnd(s, i).Some?
    ensures CharIs(s, i, 'C', 'c') && CharIs(s, i + 1, 'D', 'd')
    ensures exists k :: i + 2 <= k < CdEnd(s, i).value && IsDigit(s[k])
    ensures forall k :: i + 2 <= k < CdEnd(s, i).value ==> IsDigit(s[k]) || IsSpace(s[k]) || s[k] == '-'
  {
  }

  /** An HGVS match is "c." followed by digits, capitals, `+`, `-` and `>`. */
  lemma HgvsEndShape(s: string, i: nat)
    requires HgvsEnd(s, i).Some?
    ensures s[i] == 'c' && s[i + 1] == '.'
    ensures forall k :: i + 2 <= k < HgvsEnd(s, i).value ==>
      IsDigit(s[k]) || IsAsciiUpper(s[k]) || s[k] in {'+', '-', '>'}
  {
  }

  /** End of the match of `p` that starts at `i`, if there is one. */
  function MatchEnd(p: Pattern, s: string, i: nat): (r: Option<nat>)
    ensures r.Some? ==> i < r.value <= |s|
  {
    match p
    case Sea => SeaEnd(s, i)
    case Alpha37 => LiteralEnd(s, i, "3.7")
    case Alpha42 => LiteralEnd(s, i, "4.2")
    case CdCode => CdEnd(s, i)
    case Hgvs => HgvsEnd(s, i)
  }

  /** `re.search(p, s)` from position `from`: the leftmost match (start, end). */
  function Search(p: Pattern, s: string, from: nat): (r: Option<(nat, nat)>)
    requires from <= |s|
    ensures r.Some? ==> from <= r.value.0 && MatchEnd(p, s, r.value.0) == Some(r.value.1)
    ensures r.Some? ==> forall i :: from <= i < r.value.0 ==> MatchEnd(p, s, i).None?
    ensures r.None? ==> forall i :: from <= i <= |s| ==> MatchEnd(p, s, i).None?
    decreases |s| - from
  {
    if MatchEnd(p, s, from).Some? then Some((from, MatchEnd(p, s, from).value))
    else if from == |s| then None
    else Search(p, s, from + 1)
  }

  // ---------------------------------------------------------------------
  // Canonicalisers

  /** The CD canonicaliser's clean-up: every white-space character and
      every hyphen deleted. */
  function DropSpaceHyphen(x: string): (r: string)
    ensures forall k :: 0 <= k < |r| ==> !IsSpace(r[k]) && r[k] != '-'
  {
    if |x| == 0 then ""
    else (if IsSpace(x[0]) || x[0] == '-' then "" else [x[0]]) + DropSpaceHyphen(x[1..])
  }

  /** The label a pattern gives for its matched text `m`. */
  function Canonical(p: Pattern, m: string): string {
    match p
    case Sea => "SEA"
    case Alpha37 => "3.7"
    case Alpha42 => "4.2"
    case CdCode => DropSpaceHyphen(Upper(m))
    case Hgvs => m
  }

  /** The label `p` gives for segment `s`, if `p` matches anywhere in it. */
  function Label(p: Pattern, s: string): Option<string> {
    match Search(p, s, 0)
    case None => None
    case Some((a, b)) => Some(Canonical(p, s[a..b]))
  }

  /** The label of the first pattern in `ps` that matches (the `break`). */
  function FirstLabel(ps: seq<Pattern>, s: string): Option<string> {
    if |ps| == 0 then None
    else if Label(ps[0], s).Some? then Label(ps[0], s)
    else FirstLabel(ps[1..], s)
  }

  function SegmentLabel(s: string): Option<string> {
    FirstLabel(Table, s)
  }

  // ---------------------------------------------------------------------
  // The whole extractor

  const Separators: set<char> := {',', '/', '&'}

  /** The stripped text cut at every comma, slash and ampersand, together
      with the white space around each of them.  The separator match takes
      all white space around a separator character, so each piece between
      separator characters loses the white space at both its ends; the
      outer ends are already stripped. */
  function Segments(text: string): (r: seq<string>)
    ensures |r| >= 1
  {
    var pieces := Split(Strip(text), Separators);
    seq(|pieces|, k requires 0 <= k < |pieces| => Strip(pieces[k]))
  }

  /** Labels of a list of segments, in segment order: at most one each. */
  function LabelsOf(parts: seq<string>): seq<string> {
    if |parts| == 0 then []
    else
      var last := SegmentLabel(parts[|parts| - 1]);
      LabelsOf(parts[..|parts| - 1]) + (if last.Some? then [last.value] else [])
  }

  /** The list `extract_mutations` returns for a text. */
  function Extract(text: string): seq<string> {
    LabelsOf(Segments(text))
  }

  lemma FirstLabelStep(ps: seq<Pattern>, s: string)
    requires |ps| > 0
    ensures FirstLabel(ps, s) == match Search(ps[0], s, 0)
      case Some((a, b)) => Some(Canonical(ps[0], s[a..b]))
      case None => FirstLabel(ps[1..], s)
  {
  }

  /** The inner loop of `extract_mutations`: the patterns are tried in table
      order and the first that matches gives the label (the `break`). */
  method LabelSegment(part: string) returns (found: Option<string>)
    ensures found == SegmentLabel(part)
  {
    var j := 0;
    while j < |Table|
      invariant 0 <= j <= |Table|
      invariant FirstLabel(Table[j..], part) == SegmentLabel(part)
    {
      FirstLabelStep(Table[j..], part);
      assert Table[j..][0] == Table[j] && Table[j..][1..] == Table[j + 1..];
      var m := Search(Table[j], part, 0);
      if m.Some? {
        var (a, b) := m.value;
        return Some(Canonical(Table[j], part[a..b]));
      }
      j := j + 1;
    }
    return None;
  }

  /** `extract_mutations(raw_text)`: the segments in order, each adding the
      label of the first pattern that matches it, if any. */
  method ExtractMutations(raw: Cell) returns (results: seq<string>)
    ensures results == (if raw.Text? then Extract(raw.text) else [])
  {
    if !raw.Text? {
      return [];
    }
    results := [];
    var parts := Segments(raw.text);
    var k := 0;
    while k < |parts|
      invariant 0 <= k <= |parts|
      invariant results == LabelsOf(parts[..k])
    {
      var found := LabelSegment(parts[k]);
      assert parts[..k + 1][..k] == parts[..k];
      if found.Some? {
        results := results + [found.value];
      }
      k := k + 1;
    }
    assert parts[..k] == parts;
  }

  // ---------------------------------------------------------------------
  // What the extractor promises

  /** The labels the canonicalisers can produce. */
  predicate IsCdLabel(l: string) {
    |l| >= 3 && l[0] == 'C' && l[1] == 'D' && forall k :: 2 <= k < |l| ==> IsDigit(l[k])
  }

  predicate IsHgvsLabel(l: string) {
    |l| >= 4 && l[0] == 'c' && l[1] == '.'
    && forall k :: 2 <= k < |l| ==> IsDigit(l[k]) || IsAsciiUpper(l[k]) || l[k] in {'+', '-', '>'}
  }

  predicate IsLabel(l: string) {
    l == "SEA" || l == "3.7" || l == "4.2" || IsCdLabel(l) || IsHgvsLabel(l)
  }

  /** Segment order is kept: the labels of two runs of segments are the
      labels of the first run followed by those of the second. */
  lemma {:induction false} LabelsOfAppend(a: seq<string>, b: seq<string>)
    ensures LabelsOf(a + b) == LabelsOf(a) + LabelsOf(b)
    decreases |b|
  {
    if |b| == 0 {
      assert a + b == a;
    } else {
      var b' := b[..|b| - 1];
      assert (a + b)[..|a + b| - 1] == a + b';
      assert (a + b)[|a + b| - 1] == b[|b| - 1];
      LabelsOfAppend(a, b');
    }
  }

  /** Each segment contributes at most one label. */
  lemma {:induction false} LabelsOfBound(parts: seq<string>)
    ensures |LabelsOf(parts)| <= |parts|
  {
    if |parts| > 0 {
      LabelsOfBound(parts[..|parts| - 1]);
    }
  }

  lemma ExtractBound(text: string)
    ensures |Extract(text)| <= |Segments(text)|
  {
    LabelsOfBound(Segments(text));
  }

  /** Patterns are tried in table order: when the patterns before `ps[j]` do
      not match and `ps[j]` does, the label is the one `ps[j]` gives,
      whatever the later patterns would have given. */
  lemma {:induction false} FirstMatchWins(ps: seq<Pattern>, s: string, j: nat)
    requires j < |ps| && Label(ps[j], s).Some?
    requires forall jj :: 0 <= jj < j ==> Label(ps[jj], s).None?
    ensures FirstLabel(ps, s) == Label(ps[j], s)
  {
    if j > 0 {
      FirstMatchWins(ps[1..], s, j - 1);
    }
  }

  /** The table order written out: SEA, then 3.7, then 4.2, then CD codes,
      then HGVS codes. */
  lemma TableOrder(s: string)
    ensures SegmentLabel(s) ==
      if Label(Sea, s).Some? then Label(Sea, s)
      else if Label(Alpha37, s).Some? then Label(Alpha37, s)
      else if Label(Alpha42, s).Some? then Label(Alpha42, s)
      else if Label(CdCode, s).Some? then Label(CdCode, s)
      else Label(Hgvs, s)
  {
    var t0 := Table;
    var t1, t2, t3, t4 := t0[1..], t0[2..], t0[3..], t0[4..];
    assert t1[1..] == t2 && t2[1..] == t3 && t3[1..] == t4 && t4[1..] == [];
    assert t0[0] == Sea && t1[0] == Alpha37 && t2[0] == Alpha42 && t3[0] == CdCode && t4[0] == Hgvs;
    assert FirstLabel(t4, s) == Label(Hgvs, s);
    assert FirstLabel(t3, s) == if Label(CdCode, s).Some? then Label(CdCode, s) else FirstLabel(t4, s);
    assert FirstLabel(t2, s) == if Label(Alpha42, s).Some? then Label(Alpha42, s) else FirstLabel(t3, s);
    assert FirstLabel(t1, s) == if Label(Alpha37, s).Some? then Label(Alpha37, s) else FirstLabel(t2, s);
    assert FirstLabel(t0, s) == if Label(Sea, s).Some? then Label(Sea, s) else FirstLabel(t1, s);
  }

  /** The pattern whose label the first-match search returns. */
  lemma {:induction false} FirstLabelFrom(ps: seq<Pattern>, s: string) returns (j: nat)
    requires FirstLabel(ps, s).Some?
    ensures j < |ps| && FirstLabel(ps, s) == Label(ps[j], s)
  {
    if Label(ps[0], s).Some? {
      j := 0;
    } else {
      var j' := FirstLabelFrom(ps[1..], s);
      j := j' + 1;
    }
  }

  /** `Search` finds exactly the leftmost match: a match at `at` with none
      between `from` and `at` is the one it returns. */
  lemma {:induction false} SearchFinds(p: Pattern, s: string, from: nat, at: nat)
    requires from <= at <= |s|
    requires forall i :: from <= i < at ==> MatchEnd(p, s, i).None?
    requires MatchEnd(p, s, at).Some?
    ensures Search(p, s, from) == Some((at, MatchEnd(p, s, at).value))
    decreases at - from
  {
    if from < at {
      assert MatchEnd(p, s, from).None?;
      SearchFinds(p, s, from + 1, at);
    }
  }

  /** With no match at any position, `Search` finds nothing. */
  lemma {:induction false} SearchMisses(p: Pattern, s: string, from: nat)
    requires from <= |s|
    requires forall i :: from <= i <= |s| ==> MatchEnd(p, s, i).None?
    ensures Search(p, s, from).None?
    decreases |s| - from
  {
    if from < |s| {
      SearchMisses(p, s, from + 1);
    }
  }

  // Which characters each pattern cannot do without

  lemma NoSeaWithout(s: string, i: nat)
    requires Avoids(s, {'S', 's', '\U{017F}'})
    ensures SeaEnd(s, i).None?
  {
    if i < |s| { assert s[i] !in {'S', 's', '\U{017F}'}; }
  }

  lemma NoLiteralWithout(s: string, i: nat, lit: string, n: nat)
    requires n < |lit| && Avoids(s, {lit[n]})
    ensures LiteralEnd(s, i, lit).None?
  {
    if i + |lit| <= |s| {
      assert s[i + n] !in {lit[n]};
      assert s[i..i + |lit|][n] == s[i + n];
    }
  }

  lemma NoCdWithout(s: string, i: nat)
    requires Avoids(s, {'D', 'd'})
    ensures CdEnd(s, i).None?
  {
    if i + 1 < |s| { assert s[i + 1] !in {'D', 'd'}; }
  }

  lemma NoHgvsWithout(s: string, i: nat, n: nat)
    requires n < 2 && Avoids(s, [{'c'}, {'.'}][n])
    ensures HgvsEnd(s, i).None?
  {
    if n == 0 && i < |s| { assert s[i] !in {'c'}; }
    if n == 1 && i + 1 < |s| { assert s[i + 1] !in {'.'}; }
  }

  /** Characters a match of each pattern cannot do without: every match
      holds a character of each of these sets (a letter in either case). */
  function Needs(p: Pattern): seq<set<char>> {
    match p
    case Sea => [{'S', 's', '\U{017F}'}]
    case Alpha37 => [{'3'}, {'.'}, {'7'}]
    case Alpha42 => [{'4'}, {'.'}, {'2'}]
    case CdCode => [{'D', 'd'}]
    case Hgvs => [{'c'}, {'.'}]
  }

  /** A segment that lacks every character of one of those sets gives the
      pattern nothing to match. */
  lemma NoMatchWithout(p: Pattern, s: string, n: nat)
    requires n < |Needs(p)| && Avoids(s, Needs(p)[n])
    ensures Label(p, s).None?
  {
    forall i | 0 <= i <= |s|
      ensures MatchEnd(p, s, i).None?
    {
      match p
      case Sea => NoSeaWithout(s, i);
      case Alpha37 => NoLiteralWithout(s, i, "3.7", n);
      case Alpha42 => NoLiteralWithout(s, i, "4.2", n);
      case CdCode => NoCdWithout(s, i);
      case Hgvs => NoHgvsWithout(s, i, n);
    }
    SearchMisses(p, s, 0);
  }

  // The CD canonicaliser

  lemma {:induction false} DropSpaceHyphenAppend(a: string, b: string)
    ensures DropSpaceHyphen(a + b) == DropSpaceHyphen(a) + DropSpaceHyphen(b)
  {
    if |a| > 0 {
      assert (a + b)[1..] == a[1..] + b;
      DropSpaceHyphenAppend(a[1..], b);
    } else {
      assert a + b == b;
    }
  }

  /** A text with no white space and no hyphen is left as it is. */
  lemma {:induction false} DropSpaceHyphenClean(x: string)
    requires forall k :: 0 <= k < |x| ==> !IsSpace(x[k]) && x[k] != '-'
    ensures DropSpaceHyphen(x) == x
  {
    if |x| > 0 {
      DropSpaceHyphenClean(x[1..]);
      assert [x[0]] + x[1..] == x;
    }
  }

  /** Dropping space and hyphens from digits, space and hyphens with at
      least one digit leaves a non-empty run of digits. */
  lemma {:induction false} DropLeavesDigits(x: string)
    requires forall k :: 0 <= k < |x| ==> IsDigit(x[k]) || IsSpace(x[k]) || x[k] == '-'
    ensures forall k :: 0 <= k < |DropSpaceHyphen(x)| ==> IsDigit(DropSpaceHyphen(x)[k])
    ensures (exists k :: 0 <= k < |x| && IsDigit(x[k])) ==> |DropSpaceHyphen(x)| > 0
  {
    if |x| > 0 {
      DropLeavesDigits(x[1..]);
      if !IsDigit(x[0]) && (exists k :: 0 <= k < |x| && IsDigit(x[k])) {
        var k :| 0 <= k < |x| && IsDigit(x[k]);
        assert x[1..][k - 1] == x[k];
      }
    }
  }

  /** Digits, white space and the hyphen have no case. */
  lemma UpperKeeps(c: char)
    requires IsDigit(c) || IsSpace(c) || c == '-'
    ensures UpperChar(c) == c
  {
  }

  lemma UpperNoCase(x: string)
    requires forall k :: 0 <= k < |x| ==> IsDigit(x[k]) || IsSpace(x[k]) || x[k] == '-'
    ensures Upper(x) == x
  {
    forall k | 0 <= k < |x|
      ensures Upper(x)[k] == x[k]
    {
      UpperKeeps(x[k]);
    }
  }

  /** Upper-casing a CD match: "CD" and the rest unchanged. */
  lemma UpperOfCdMatch(m: string)
    requires |m| >= 2 && CharIs(m, 0, 'C', 'c') && CharIs(m, 1, 'D', 'd')
    requires forall k :: 2 <= k < |m| ==> IsDigit(m[k]) || IsSpace(m[k]) || m[k] == '-'
    ensures Upper(m) == "CD" + m[2..]
  {
    var head, tail := m[..2], m[2..];
    assert m == head + tail;
    UpperAppend(head, tail);
    assert Upper(head) == "CD";
    UpperNoCase(tail);
  }

  lemma DropAfterCd(tail: string)
    ensures DropSpaceHyphen("CD" + tail) == "CD" + DropSpaceHyphen(tail)
  {
    DropSpaceHyphenAppend("CD", tail);
    DropSpaceHyphenClean("CD");
  }

  lemma CdDigits(d: string)
    requires |d| > 0 && forall k :: 0 <= k < |d| ==> IsDigit(d[k])
    ensures IsCdLabel("CD" + d)
  {
  }

  /** The CD canonicaliser applied to a text of the shape the CD matcher
      accepts. */
  lemma CdCanonicalShape(m: string)
    requires |m| >= 3 && CharIs(m, 0, 'C', 'c') && CharIs(m, 1, 'D', 'd')
    requires forall k :: 2 <= k < |m| ==> IsDigit(m[k]) || IsSpace(m[k]) || m[k] == '-'
    requires exists k :: 2 <= k < |m| && IsDigit(m[k])
    ensures IsCdLabel(DropSpaceHyphen(Upper(m)))
  {
    var tail := m[2..];
    UpperOfCdMatch(m);
    var k0 :| 2 <= k0 < |m| && IsDigit(m[k0]);
    assert tail[k0 - 2] == m[k0];
    DropLeavesDigits(tail);
    DropAfterCd(tail);
    CdDigits(DropSpaceHyphen(tail));
  }

  /** The matched text of a CD match has the shape the canonicaliser needs. */
  lemma CdMatchShape(s: string, a: nat, b: nat)
    requires a <= b <= |s| && CdEnd(s, a) == Some(b)
    ensures var m := s[a..b];
      |m| >= 3 && CharIs(m, 0, 'C', 'c') && CharIs(m, 1, 'D', 'd')
      && (forall k :: 2 <= k < |m| ==> IsDigit(m[k]) || IsSpace(m[k]) || m[k] == '-')
      && exists k :: 2 <= k < |m| && IsDigit(m[k])
  {
    var m := s[a..b];
    CdEndShape(s, a);
    forall k | 2 <= k < |m|
      ensures IsDigit(m[k]) || IsSpace(m[k]) || m[k] == '-'
    {
      assert m[k] == s[a + k];
    }
    var k0 :| a + 2 <= k0 < b && IsDigit(s[k0]);
    assert m[k0 - a] == s[k0];
  }

  lemma UpperOfCdLabel(l: string)
    requires IsCdLabel(l)
    ensures Upper(l) == l
  {
    forall k | 0 <= k < |l|
      ensures Upper(l)[k] == l[k]
    {
      if k >= 2 { UpperKeeps(l[k]); }
    }
  }

  /** The CD canonicaliser returns "CD" followed by digits only: upper
      case, with no white space and no hyphen ("CD 41-42" gives "CD4142"). */
  lemma CdLabelShape(s: string)
    requires Label(CdCode, s).Some?
    ensures IsCdLabel(Label(CdCode, s).value)
    ensures Upper(Label(CdCode, s).value) == Label(CdCode, s).value
  {
    var (a, b) := Search(CdCode, s, 0).value;
    CdMatchShape(s, a, b);
    CdCanonicalShape(s[a..b]);
    UpperOfCdLabel(Label(CdCode, s).value);
  }

  /** A CD label is its own canonical form. */
  lemma CanonicalOfCdLabel(l: string)
    requires IsCdLabel(l)
    ensures Canonical(CdCode, l) == l
  {
    UpperOfCdLabel(l);
    DropSpaceHyphenClean(l);
  }

  // The HGVS canonicaliser

  lemma HgvsLabelShape(s: string)
    requires Label(Hgvs, s).Some?
    ensures IsHgvsLabel(Label(Hgvs, s).value)
  {
    var (a, b) := Search(Hgvs, s, 0).value;
    var l := s[a..b];
    HgvsEndShape(s, a);
    forall k | 2 <= k < |l|
      ensures IsDigit(l[k]) || IsAsciiUpper(l[k]) || l[k] in {'+', '-', '>'}
    {
      assert l[k] == s[a + k];
    }
  }

  /** In a text without capital letters an HGVS match ends at `>`. */
  lemma HgvsEndLower(s: string, i: nat)
    requires forall k :: 0 <= k < |s| ==> !IsAsciiUpper(s[k])
    requires HgvsEnd(s, i).Some?
    ensures s[HgvsEnd(s, i).value - 1] == '>'
  {
  }

  /** In a text without capital letters, such as the lower-cased result
      column, an HGVS match never carries a base: it ends at `>`. */
  lemma HgvsInLowerCaseText(s: string)
    requires forall k :: 0 <= k < |s| ==> !IsAsciiUpper(s[k])
    requires Label(Hgvs, s).Some?
    ensures var l := Label(Hgvs, s).value;
      l[|l| - 1] == '>' && forall k :: 0 <= k < |l| ==> !IsAsciiUpper(l[k])
  {
    var (a, b) := Search(Hgvs, s, 0).value;
    var l := s[a..b];
    HgvsEndLower(s, a);
    assert l[|l| - 1] == s[b - 1];
    forall k | 0 <= k < |l|
      ensures !IsAsciiUpper(l[k])
    {
      assert l[k] == s[a + k];
    }
  }

  // Every label is well formed

  /** Every label the extractor returns is one a canonicaliser produces. */
  lemma SegmentLabelIsLabel(s: string)
    requires SegmentLabel(s).Some?
    ensures IsLabel(SegmentLabel(s).value)
  {
    var j := FirstLabelFrom(Table, s);
    if Table[j] == CdCode {
      CdLabelShape(s);
    } else if Table[j] == Hgvs {
      HgvsLabelShape(s);
    }
  }

  lemma {:induction false} LabelsOfAreLabels(parts: seq<string>)
    ensures forall l :: l in LabelsOf(parts) ==> IsLabel(l)
  {
    if |parts| > 0 {
      LabelsOfAreLabels(parts[..|parts| - 1]);
      var last := SegmentLabel(parts[|parts| - 1]);
      if last.Some? {
        SegmentLabelIsLabel(parts[|parts| - 1]);
      }
    }
  }

  lemma ExtractGivesLabels(text: string)
    ensures forall l :: l in Extract(text) ==> IsLabel(l)
  {
    LabelsOfAreLabels(Segments(text));
  }

  /** Labels are plain ASCII. */
  lemma LabelIsAscii(l: string)
    requires IsLabel(l)
    ensures AllAscii(l)
  {
  }

  // Examples

  lemma SeaCdMatches()
    ensures SeaEnd("SEA CD41", 0) == Some(3)
    ensures CdEnd("SEA CD41", 4) == Some(8)
    ensures forall i :: 0 <= i < 4 ==> CdEnd("SEA CD41", i).None?
  {
  }

  lemma SeaCdLabels()
    ensures Label(Sea, "SEA CD41") == Some("SEA")
    ensures Label(CdCode, "SEA CD41") == Some("CD41")
  {
    var s := "SEA CD41";
    SeaCdMatches();
    SearchFinds(Sea, s, 0, 0);
    SearchFinds(CdCode, s, 0, 4);
    assert s[4..8] == "CD41";
    CanonicalOfCdLabel(s[4..8]);
  }

  /** A segment that names both "SEA" and a CD code gives "SEA" alone,
      although the CD pattern matches it too. */
  lemma SeaBeforeCd()
    ensures Label(CdCode, "SEA CD41") == Some("CD41")
    ensures SegmentLabel("SEA CD41") == Some("SEA")
  {
    SeaCdLabels();
    FirstMatchWins(Table, "SEA CD41", 0);
  }

  /** Two codes written "a, b", each free of separators and of white space
      at its ends, are the two segments `a` and `b`. */
  lemma SegmentsOfTwo(a: string, b: string)
    requires |a| > 0 && !IsSpace(a[0]) && !IsSpace(a[|a| - 1]) && Avoids(a, Separators)
    requires |b| > 0 && !IsSpace(b[0]) && !IsSpace(b[|b| - 1]) && Avoids(b, Separators)
    ensures Segments(a + ", " + b) == [a, b]
  {
    PiecesOfTwo(a, b);
    StripClean(a);
    StripLeadingSpace(' ', b);
    StripClean(b);
  }

  /** "a, b" splits at its comma into `a` and " b". */
  lemma PiecesOfTwo(a: string, b: string)
    requires |a| > 0 && !IsSpace(a[0]) && Avoids(a, Separators)
    requires |b| > 0 && !IsSpace(b[|b| - 1]) && Avoids(b, Separators)
    ensures Split(Strip(a + ", " + b), Separators) == [a, [' '] + b]
  {
    var text := a + ", " + b;
    assert text == a + [','] + ([' '] + b);
    StripClean(text);
    assert Avoids([' '] + b, Separators);
    SplitAt(a, ',', [' '] + b, Separators);
    SplitNone([' '] + b, Separators);
  }

  lemma CdExampleMatch()
    ensures CdEnd("CD 41-42", 0) == Some(8)
  {
  }

  lemma DropSpaceAndHyphen()
    ensures DropSpaceHyphen(" ") == "" && DropSpaceHyphen("-") == ""
  {
  }

  lemma DropLeadingSpace(x: string)
    ensures DropSpaceHyphen(" " + x) == DropSpaceHyphen(x)
  {
    DropSpaceHyphenAppend(" ", x);
    DropSpaceAndHyphen();
  }

  lemma DropTrailingHyphen(x: string)
    ensures DropSpaceHyphen(x + "-") == DropSpaceHyphen(x)
  {
    DropSpaceHyphenAppend(x, "-");
    DropSpaceAndHyphen();
  }

  lemma DropRange(d1: string, d2: string)
    requires forall k :: 0 <= k < |d1| ==> IsDigit(d1[k])
    requires forall k :: 0 <= k < |d2| ==> IsDigit(d2[k])
    ensures DropSpaceHyphen(" " + d1 + "-" + d2) == d1 + d2
  {
    DropSpaceHyphenAppend(" " + d1 + "-", d2);
    DropTrailingHyphen(" " + d1);
    DropLeadingSpace(d1);
    DropSpaceHyphenClean(d1);
    DropSpaceHyphenClean(d2);
  }

  lemma UpperOfRange(d1: string, d2: string)
    requires forall k :: 0 <= k < |d1| ==> IsDigit(d1[k])
    requires forall k :: 0 <= k < |d2| ==> IsDigit(d2[k])
    ensures Upper("CD " + d1 + "-" + d2) == "CD" + (" " + d1 + "-" + d2)
  {
    var tail := " " + d1 + "-" + d2;
    var m := "CD" + tail;
    assert m == "CD " + d1 + "-" + d2;
    forall k | 0 <= k < |tail|
      ensures IsDigit(tail[k]) || IsSpace(tail[k]) || tail[k] == '-'
    {
      if 1 <= k < 1 + |d1| {
        assert tail[k] == d1[k - 1];
      } else if k >= 2 + |d1| {
        assert tail[k] == d2[k - 2 - |d1|];
      }
    }
    UpperNoCase(tail);
    UpperAppend("CD", tail);
    assert Upper("CD") == "CD";
  }

  /** A CD range "CD d1-d2" written with a space loses the space and the
      hyphen. */
  lemma CdRangeCanonical(d1: string, d2: string)
    requires forall k :: 0 <= k < |d1| ==> IsDigit(d1[k])
    requires forall k :: 0 <= k < |d2| ==> IsDigit(d2[k])
    ensures Canonical(CdCode, "CD " + d1 + "-" + d2) == "CD" + d1 + d2
  {
    UpperOfRange(d1, d2);
    DropAfterCd(" " + d1 + "-" + d2);
    DropRange(d1, d2);
  }

  lemma CdExampleNotSea()
    ensures Label(Sea, "CD 41-42").None?
  {
    NoMatchWithout(Sea, "CD 41-42", 0);
  }

  lemma CdExampleNot37()
    ensures Label(Alpha37, "CD 41-42").None?
  {
    NoMatchWithout(Alpha37, "CD 41-42", 1);
  }

  lemma CdExampleNot42()
    ensures Label(Alpha42, "CD 41-42").None?
  {
    NoMatchWithout(Alpha42, "CD 41-42", 1);
  }

  lemma CdExampleSearch()
    ensures Search(CdCode, "CD 41-42", 0) == Some((0, 8))
  {
    CdExampleMatch();
    SearchFinds(CdCode, "CD 41-42", 0, 0);
  }

  lemma CdExampleCanonical()
    ensures Canonical(CdCode, "CD 41-42") == "CD4142"
  {
    CdRangeCanonical("41", "42");
    assert "CD " + "41" + "-" + "42" == "CD 41-42";
    assert "CD" + "41" + "42" == "CD4142";
  }

  lemma CdExampleLabel()
    ensures Label(CdCode, "CD 41-42") == Some("CD4142")
  {
    var a := "CD 41-42";
    CdExampleSearch();
    assert a[0..8] == a;
    CdExampleCanonical();
  }

  /** Only the CD pattern matches "CD 41-42"; its label loses the space and
      the hyphen. */
  lemma ExampleCdLabel()
    ensures SegmentLabel("CD 41-42") == Some("CD4142")
  {
    CdExampleNotSea();
    CdExampleNot37();
    CdExampleNot42();
    CdExampleLabel();
    TableOrder("CD 41-42");
  }

  lemma HgvsExampleMatch()
    ensures HgvsEnd("c.95A>G", 0) == Some(7)
  {
  }

  lemma HgvsExampleNotSea()
    ensures Label(Sea, "c.95A>G").None?
  {
    NoMatchWithout(Sea, "c.95A>G", 0);
  }

  lemma HgvsExampleNot37()
    ensures Label(Alpha37, "c.95A>G").None?
  {
    NoMatchWithout(Alpha37, "c.95A>G", 0);
  }

  lemma HgvsExampleNot42()
    ensures Label(Alpha42, "c.95A>G").None?
  {
    NoMatchWithout(Alpha42, "c.95A>G", 0);
  }

  lemma HgvsExampleNotCd()
    ensures Label(CdCode, "c.95A>G").None?
  {
    NoMatchWithout(CdCode, "c.95A>G", 0);
  }

  lemma HgvsExampleLabel()
    ensures Label(Hgvs, "c.95A>G") == Some("c.95A>G")
  {
    var c := "c.95A>G";
    HgvsExampleMatch();
    SearchFinds(Hgvs, c, 0, 0);
    assert c[0..7] == c;
  }

  /** Only the HGVS pattern matches "c.95A>G"; its label is the match. */
  lemma ExampleHgvsLabel()
    ensures SegmentLabel("c.95A>G") == Some("c.95A>G")
  {
    HgvsExampleNotSea();
    HgvsExampleNot37();
    HgvsExampleNot42();
    HgvsExampleNotCd();
    HgvsExampleLabel();
    TableOrder("c.95A>G");
  }

  lemma LabelsOfTwo(a: string, b: string)
    requires SegmentLabel(a).Some? && SegmentLabel(b).Some?
    ensures LabelsOf([a, b]) == [SegmentLabel(a).value, SegmentLabel(b).value]
  {
    var parts := [a, b];
    assert parts[..1] == [a] && parts[..1][..0] == [];
    assert LabelsOf([a]) == [SegmentLabel(a).value];
  }

  lemma ExampleSegments()
    ensures Segments("CD 41-42, c.95A>G") == ["CD 41-42", "c.95A>G"]
  {
    SegmentsOfTwo("CD 41-42", "c.95A>G");
    assert "CD 41-42" + ", " + "c.95A>G" == "CD 41-42, c.95A>G";
  }

  /** A CD code written with a space and a hyphen, then an HGVS code: two
      labels in text order, the CD label without its hyphen. */
  lemma CdAndHgvsExample()
    ensures Extract("CD 41-42, c.95A>G") == ["CD4142", "c.95A>G"]
  {
    ExampleSegments();
    ExampleCdLabel();
    ExampleHgvsLabel();
    LabelsOfTwo("CD 41-42", "c.95A>G");
  }

  /** A segment free of separators and of white space at its ends is its
      own single segment. */
  lemma SegmentsOfOne(a: string)
    requires |a| > 0 && !IsSpace(a[0]) && !IsSpace(a[|a| - 1]) && Avoids(a, Separators)
    ensures Segments(a) == [a]
  {
    StripClean(a);
    SplitNone(a, Separators);
  }

  /** "3.7" right after Greek alpha: `\b` does not hold between two word
      characters, so the literal pattern finds nothing. */
  lemma AlphaNotationNot37()
    ensures Label(Alpha37, "-\U{03B1}3.7").None?
  {
    var s := "-\U{03B1}3.7";
    forall i | 0 <= i <= |s|
      ensures MatchEnd(Alpha37, s, i).None?
    {
      if i == 2 {
        assert WordAt(s, 1) && WordAt(s, 2);
      } else if i + 3 <= |s| {
        assert s[i..i + 3] != "3.7" by { assert s[i..i + 3][0] == s[i]; }
      }
    }
    SearchMisses(Alpha37, s, 0);
  }

  /** A segment that no pattern matches has no label. */
  lemma Unlabelled(s: string)
    requires Label(Sea, s).None? && Label(Alpha37, s).None? && Label(Alpha42, s).None?
    requires Label(CdCode, s).None? && Label(Hgvs, s).None?
    ensures SegmentLabel(s).None?
  {
    TableOrder(s);
  }

  /** Each of the five patterns misses "-α3.7". */
  lemma AlphaSegmentUnlabelled()
    ensures SegmentLabel("-\U{03B1}3.7").None?
  {
    var s := "-\U{03B1}3.7";
    AlphaNotationNot37();
    AlphaNotationNotSea();
    AlphaNotationNot42();
    AlphaNotationNotCd();
    AlphaNotationNotHgvs();
    Unlabelled(s);
  }

  lemma AlphaNotationNotSea()
    ensures Label(Sea, "-\U{03B1}3.7").None?
  {
    NoMatchWithout(Sea, "-\U{03B1}3.7", 0);
  }

  lemma AlphaNotationNot42()
    ensures Label(Alpha42, "-\U{03B1}3.7").None?
  {
    NoMatchWithout(Alpha42, "-\U{03B1}3.7", 0);
  }

  lemma AlphaNotationNotCd()
    ensures Label(CdCode, "-\U{03B1}3.7").None?
  {
    NoMatchWithout(CdCode, "-\U{03B1}3.7", 0);
  }

  lemma AlphaNotationNotHgvs()
    ensures Label(Hgvs, "-\U{03B1}3.7").None?
  {
    NoMatchWithout(Hgvs, "-\U{03B1}3.7", 0);
  }

  /** "-α3.7" has no separator and no white space at its ends. */
  lemma AlphaSegmentClean()
    ensures var s := "-\U{03B1}3.7";
      |s| > 0 && !IsSpace(s[0]) && !IsSpace(s[|s| - 1]) && Avoids(s, Separators)
  {
  }

  /** A text that is one segment without a label yields no label. */
  lemma ExtractOfUnlabelled(a: string)
    requires Segments(a) == [a] && SegmentLabel(a).None?
    ensures Extract(a) == []
  {
    var parts := [a];
    assert parts[..|parts| - 1] == [] && parts[|parts| - 1] == a;
    assert LabelsOf(parts) == LabelsOf([]) + [];
  }

  /** The alpha-thalassaemia notation "-α3.7" yields no label at all: Greek
      alpha is a word character, and none of the other patterns has what it
      needs. */
  lemma AlphaNotationMissed()
    ensures IsWordChar('\U{03B1}')
    ensures Extract("-\U{03B1}3.7") == []
  {
    var s := "-\U{03B1}3.7";
    AlphaSegmentUnlabelled();
    AlphaSegmentClean();
    SegmentsOfOne(s);
    ExtractOfUnlabelled(s);
  }
}
