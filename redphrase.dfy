/** `extract_red_phrase` of utils.py: the phrase of a conclusion sentence
    that names the heterozygous mutation, from its marker up to the words
    "trên gen" ("on the gene").  `ExtractRedPhrase` is the code as written;
    `ExtractRedPhraseToEnd` is the evidently intended reading, which keeps
    the rest of the sentence when "trên gen" does not follow. */
module RedPhrase {
  import opened Text

  /** "dị hợp tử" (heterozygous). */
  const Heterozygous: string := "d\U{1ECB} h\U{1EE3}p t\U{1EED}"

  /** "đột biến " (mutation), the word in front of the preferred marker. */
  const MutationWord: string := "\U{0111}\U{1ED9}t bi\U{1EBF}n "

  /** "đột biến dị hợp tử", the marker tried first. */
  const Preferred: string := MutationWord + Heterozygous

  /** "trên gen", where the phrase ends. */
  const OnGene: string := "tr\U{00EA}n gen"

  // ---------------------------------------------------------------------
  // Python slicing

  function Clamp(x: int, n: nat): (r: nat)
    ensures r <= n
    ensures 0 <= x <= n ==> r == x
  {
    if x < 0 then 0 else if x > n then n else x
  }

  /** Python's `s[lo:hi]`: a negative bound counts from the end, bounds are
      clamped to the string, and crossed bounds give "". */
  function PySlice(s: string, lo: int, hi: int): (r: string)
    ensures 0 <= lo <= hi <= |s| ==> r == s[lo..hi]
    ensures hi == -1 && 0 <= lo < |s| ==> r == s[lo..|s| - 1]
  {
    var a := Clamp(if lo < 0 then lo + |s| else lo, |s|);
    var b := Clamp(if hi < 0 then hi + |s| else hi, |s|);
    if a < b then s[a..b] else ""
  }

  // ---------------------------------------------------------------------
  // The function as written, and the intended one

  /** The stripped Python slice from the first occurrence of `marker` to
      the first "trên gen" at or after it, whose position is -1 when there
      is none. */
  function PhraseFrom(s: string, marker: string): string
    requires Contains(s, marker)
  {
    var start := Find(s, marker, 0);
    var end := Find(s, OnGene, start);
    Strip(PySlice(s, start, end))
  }

  /** `extract_red_phrase(sentence)`. */
  function ExtractRedPhrase(s: string): string {
    if Contains(s, Preferred) then PhraseFrom(s, Preferred)
    else if Contains(s, Heterozygous) then PhraseFrom(s, Heterozygous)
    else ""
  }

  /** The slice that stops at "trên gen", or runs to the end of the
      sentence when no "trên gen" follows. */
  function PhraseToEnd(s: string, marker: string): string
    requires Contains(s, marker)
  {
    var start := Find(s, marker, 0);
    var end := Find(s, OnGene, start);
    Strip(if end < 0 then s[start..] else s[start..end])
  }

  /** `extract_red_phrase` as its authors evidently meant it. */
  function ExtractRedPhraseToEnd(s: string): string {
    if Contains(s, Preferred) then PhraseToEnd(s, Preferred)
    else if Contains(s, Heterozygous) then PhraseToEnd(s, Heterozygous)
    else ""
  }

  // ---------------------------------------------------------------------
  // Facts about the markers

  /** The preferred marker ends in the plain one. */
  lemma PreferredEndsInMarker()
    ensures Preferred[|MutationWord|..] == Heterozygous
  {
  }

  /** A sentence holding the preferred marker holds the plain one. */
  lemma PreferredHasMarker(s: string)
    requires Contains(s, Preferred)
    ensures Contains(s, Heterozygous)
  {
    var at := Find(s, Preferred, 0);
    PreferredEndsInMarker();
    var lo := at + |MutationWord|;
    var hi := at + |Preferred|;
    assert s[lo..hi] == Preferred[|MutationWord|..];
    assert HasAt(s[lo..hi], Heterozygous, 0);
    ContainsAt(s[lo..hi], Heterozygous, 0);
    ContainsSlice(s, lo, hi, Heterozygous);
  }

  /** No "trên gen" can start inside a marker: wherever the marker has a
      't', the next character is not an 'r'. */
  predicate NoGeneInside(marker: string) {
    forall k :: 0 <= k < |marker| && marker[k] == 't' ==> k + 1 < |marker| && marker[k + 1] != 'r'
  }

  lemma MarkersHoldNoGene()
    ensures NoGeneInside(Heterozygous)
    ensures NoGeneInside(Preferred)
  {
  }

  /** A marker shows no space at either end. */
  lemma MarkersAreClean()
    ensures !IsSpace(Heterozygous[0]) && !IsSpace(Heterozygous[|Heterozygous| - 1])
    ensures !IsSpace(Preferred[0]) && !IsSpace(Preferred[|Preferred| - 1])
  {
  }

  /** The "trên gen" that ends the phrase lies past the whole marker. */
  lemma GeneAfterMarker(s: string, start: nat, marker: string)
    requires HasAt(s, marker, start) && NoGeneInside(marker)
    ensures Find(s, OnGene, start) == -1 || Find(s, OnGene, start) >= start + |marker|
  {
    var e := Find(s, OnGene, start);
    if e != -1 && e < start + |marker| {
      NoGeneAt(s, start, marker, e);
    }
  }

  lemma NoGeneAt(s: string, start: nat, marker: string, e: nat)
    requires HasAt(s, marker, start) && NoGeneInside(marker)
    requires start <= e < start + |marker|
    ensures !HasAt(s, OnGene, e)
  {
    var k := e - start;
    assert s[e] == marker[k] by {
      assert s[start..start + |marker|][k] == marker[k];
    }
    if marker[k] == 't' {
      assert s[e + 1] == marker[k + 1] by {
        assert s[start..start + |marker|][k + 1] == marker[k + 1];
      }
    }
    assert OnGene[0] == 't' && OnGene[1] == 'r';
    HasAtIndex(s, OnGene, e, 0);
    HasAtIndex(s, OnGene, e, 1);
  }

  /** What a marker needs for the phrase to start with it. */
  predicate GoodMarker(marker: string) {
    |marker| > 0 && !IsSpace(marker[0]) && !IsSpace(marker[|marker| - 1]) && NoGeneInside(marker)
  }

  lemma MarkersAreGood()
    ensures GoodMarker(Heterozygous) && GoodMarker(Preferred)
  {
    MarkersHoldNoGene();
    MarkersAreClean();
  }

  /** Stripping a slice that starts with a clean marker keeps the marker. */
  lemma SliceKeepsMarker(s: string, start: nat, end: nat, marker: string)
    requires GoodMarker(marker) && HasAt(s, marker, start)
    requires start + |marker| <= end <= |s|
    ensures |Strip(s[start..end])| >= |marker| && Strip(s[start..end])[..|marker|] == marker
  {
    assert s[start..end] == marker + s[start + |marker|..end];
    StripKeepsHead(marker, s[start + |marker|..end]);
  }

  // ---------------------------------------------------------------------
  // What the function does

  /** A sentence without "dị hợp tử" gives "", as does the intended one. */
  lemma NoMarkerNoPhrase(s: string)
    requires !Contains(s, Heterozygous)
    ensures ExtractRedPhrase(s) == ""
    ensures ExtractRedPhraseToEnd(s) == ""
  {
    if Contains(s, Preferred) {
      PreferredHasMarker(s);
    }
  }

  /** When "trên gen" follows the marker, the phrase is the stripped text
      from the marker's first occurrence to the first "trên gen" after it,
      and the intended reading agrees. */
  lemma PhraseUpToGene(s: string, marker: string)
    requires marker == Preferred || marker == Heterozygous
    requires Contains(s, marker)
    requires Find(s, OnGene, Find(s, marker, 0)) >= 0
    ensures PhraseFrom(s, marker) == PhraseToEnd(s, marker)
    ensures PhraseFrom(s, marker) == Strip(s[Find(s, marker, 0)..Find(s, OnGene, Find(s, marker, 0))])
  {
  }

  /** The phrase starts with its marker whenever "trên gen" follows it. */
  lemma PhraseStartsWithMarker(s: string, marker: string)
    requires marker == Preferred || marker == Heterozygous
    requires Contains(s, marker)
    requires Find(s, OnGene, Find(s, marker, 0)) >= 0
    ensures |PhraseFrom(s, marker)| >= |marker|
    ensures PhraseFrom(s, marker)[..|marker|] == marker
  {
    var start := Find(s, marker, 0);
    MarkersAreGood();
    GeneAfterMarker(s, start, marker);
    SliceKeepsMarker(s, start, Find(s, OnGene, start), marker);
  }

  /** The code as written: with no "trên gen" after the marker, the slice
      `sentence[start:-1]` stops one character short of the end. */
  lemma PhraseWithoutGene(s: string, marker: string)
    requires marker == Preferred || marker == Heterozygous
    requires Contains(s, marker)
    requires Find(s, OnGene, Find(s, marker, 0)) == -1
    ensures PhraseFrom(s, marker) == Strip(s[Find(s, marker, 0)..|s| - 1])
  {
    var start := Find(s, marker, 0);
    assert start + |marker| <= |s|;
  }

  lemma MarkerAlone()
    ensures Find(Heterozygous, Heterozygous, 0) == 0
    ensures Find(Heterozygous, OnGene, 0) == -1
    ensures !Contains(Heterozygous, Preferred)
  {
    FindMissingChar(Heterozygous, OnGene, 0, 'r');
  }

  /** The sentence "dị hợp tử" on its own loses its last letter: the code
      returns "dị hợp t". */
  lemma CutShort()
    ensures ExtractRedPhrase(Heterozygous) == Heterozygous[..|Heterozygous| - 1]
    ensures ExtractRedPhrase(Heterozygous) != Heterozygous
  {
    MarkerAlone();
    var cut := Heterozygous[..|Heterozygous| - 1];
    assert PySlice(Heterozygous, 0, -1) == cut;
    assert !IsSpace(cut[0]) && !IsSpace(cut[|cut| - 1]);
    StripClean(cut);
  }

  /** The intended slice starts with its marker. */
  lemma PhraseToEndStartsWithMarker(s: string, marker: string)
    requires GoodMarker(marker)
    requires Contains(s, marker)
    ensures |PhraseToEnd(s, marker)| >= |marker|
    ensures PhraseToEnd(s, marker)[..|marker|] == marker
  {
    var start := Find(s, marker, 0);
    var end := Find(s, OnGene, start);
    GeneAfterMarker(s, start, marker);
    if end < 0 {
      SliceKeepsMarker(s, start, |s|, marker);
      assert s[start..] == s[start..|s|];
    } else {
      SliceKeepsMarker(s, start, end, marker);
    }
  }

  /** The intended reading: whenever the sentence holds "dị hợp tử", the
      phrase starts with the marker that was found, the preferred one when
      present. */
  lemma IntendedStartsWithMarker(s: string)
    requires Contains(s, Heterozygous)
    ensures Contains(s, Preferred) ==>
              |ExtractRedPhraseToEnd(s)| >= |Preferred|
              && ExtractRedPhraseToEnd(s)[..|Preferred|] == Preferred
    ensures !Contains(s, Preferred) ==>
              |ExtractRedPhraseToEnd(s)| >= |Heterozygous|
              && ExtractRedPhraseToEnd(s)[..|Heterozygous|] == Heterozygous
  {
    MarkersAreGood();
    if Contains(s, Preferred) {
      PhraseToEndStartsWithMarker(s, Preferred);
    } else {
      PhraseToEndStartsWithMarker(s, Heterozygous);
    }
  }

  /** The intended reading returns the marker itself for a sentence that
      is only the marker. */
  lemma IntendedKeepsMarker()
    ensures ExtractRedPhraseToEnd(Heterozygous) == Heterozygous
  {
    MarkerAlone();
    MarkersAreClean();
    assert Heterozygous[0..] == Heterozygous;
    StripClean(Heterozygous);
  }
}
