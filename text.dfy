/** Characters and the handful of Python string operations the report
    generator is built from: `in`, `find`, `strip`, `split`, `join`,
    `replace`, `lower` and `upper`.  Strings are sequences of code points. */
module Text {

  datatype Option<T> = None | Some(value: T)

  // ---------------------------------------------------------------------
  // Character classes

  /** Python's `str.isspace`, which is also what `\s` matches. */
  predicate IsSpace(c: char) {
    if c <= ' ' then
      c == ' ' || ('\t' <= c <= '\r') || ('\U{001C}' <= c <= '\U{001F}')
    else if c < '\U{0085}' then
      false
    else
      c == '\U{0085}' || c == '\U{00A0}' || c == '\U{1680}'
      || ('\U{2000}' <= c <= '\U{200A}') || c == '\U{2028}' || c == '\U{2029}'
      || c == '\U{202F}' || c == '\U{205F}' || c == '\U{3000}'
  }

  predicate IsDigit(c: char) { '0' <= c <= '9' }

  predicate IsAsciiUpper(c: char) { 'A' <= c <= 'Z' }

  predicate IsAscii(c: char) { c < '\U{0080}' }

  /** A character `\w` matches in a Python `str` pattern: a letter or a
      number (`str.isalnum`) or `_`.  Written out for ASCII, for U+0080 to
      U+052F (Latin-1, Latin Extended, IPA, spacing modifiers, Greek,
      Cyrillic) and for U+1E00 to U+1FFF (Latin Extended Additional, with
      every Vietnamese letter, and Greek Extended), as in Unicode 15.  Every
      other character counts as a non-word character. */
  predicate IsWordChar(c: char) {
    if c < '\U{0080}' then
      IsDigit(c) || IsAsciiUpper(c) || ('a' <= c <= 'z') || c == '_'
    else if c < '\U{0530}' then
      IsLatinGreekCyrillicWord(c)
    else
      '\U{1E00}' <= c <= '\U{1FFF}' && IsExtendedWord(c)
  }

  /** `\w` between U+0080 and U+052F.  Greek alpha (U+03B1), the letter of
      the alpha-thalassaemia deletions, is one of them. */
  predicate IsLatinGreekCyrillicWord(c: char) {
    c == '\U{00AA}' || ('\U{00B2}' <= c <= '\U{00B3}') || c == '\U{00B5}'
    || ('\U{00B9}' <= c <= '\U{00BA}') || ('\U{00BC}' <= c <= '\U{00BE}')
    || ('\U{00C0}' <= c <= '\U{00D6}') || ('\U{00D8}' <= c <= '\U{00F6}')
    || ('\U{00F8}' <= c <= '\U{02C1}') || ('\U{02C6}' <= c <= '\U{02D1}')
    || ('\U{02E0}' <= c <= '\U{02E4}') || c == '\U{02EC}' || c == '\U{02EE}'
    || ('\U{0370}' <= c <= '\U{0374}') || ('\U{0376}' <= c <= '\U{0377}')
    || ('\U{037A}' <= c <= '\U{037D}') || c == '\U{037F}' || c == '\U{0386}'
    || ('\U{0388}' <= c <= '\U{038A}') || c == '\U{038C}' || ('\U{038E}' <= c <= '\U{03A1}')
    || ('\U{03A3}' <= c <= '\U{03F5}') || ('\U{03F7}' <= c <= '\U{0481}')
    || ('\U{048A}' <= c <= '\U{052F}')
  }

  /** `\w` between U+1E00 and U+1FFF. */
  predicate IsExtendedWord(c: char) {
    ('\U{1E00}' <= c <= '\U{1F15}') || ('\U{1F18}' <= c <= '\U{1F1D}')
    || ('\U{1F20}' <= c <= '\U{1F45}') || ('\U{1F48}' <= c <= '\U{1F4D}')
    || ('\U{1F50}' <= c <= '\U{1F57}') || c == '\U{1F59}' || c == '\U{1F5B}'
    || c == '\U{1F5D}' || ('\U{1F5F}' <= c <= '\U{1F7D}') || ('\U{1F80}' <= c <= '\U{1FB4}')
    || ('\U{1FB6}' <= c <= '\U{1FBC}') || c == '\U{1FBE}' || ('\U{1FC2}' <= c <= '\U{1FC4}')
    || ('\U{1FC6}' <= c <= '\U{1FCC}') || ('\U{1FD0}' <= c <= '\U{1FD3}')
    || ('\U{1FD6}' <= c <= '\U{1FDB}') || ('\U{1FE0}' <= c <= '\U{1FEC}')
    || ('\U{1FF2}' <= c <= '\U{1FF4}') || ('\U{1FF6}' <= c <= '\U{1FFC}')
  }

  /** Every character of `s` is ASCII. */
  predicate AllAscii(s: string) {
    forall i :: 0 <= i < |s| ==> IsAscii(s[i])
  }

  /** No character of `s` is in `bad`. */
  predicate Avoids(s: string, bad: set<char>) {
    forall i :: 0 <= i < |s| ==> s[i] !in bad
  }

  // ---------------------------------------------------------------------
  // Case mapping, for ASCII, Latin-1 and the Vietnamese letters

  /** Lower-case partner of a letter: ASCII and Latin-1 capitals move by 32;
      the Vietnamese capitals Ă Đ Ĩ Ũ Ơ Ư and those of U+1EA0..U+1EF8 (even
      code points) move by 1.  Every other character is its own partner. */
  function LowerChar(c: char): (r: char)
    ensures IsAscii(c) ==> IsAscii(r)
  {
    if IsAsciiUpper(c) || ('\U{00C0}' <= c <= '\U{00DE}' && c != '\U{00D7}') then
      (c as int + 32) as char
    else if c == '\U{0102}' || c == '\U{0110}' || c == '\U{0128}' || c == '\U{0168}'
         || c == '\U{01A0}' || c == '\U{01AF}'
         || ('\U{1EA0}' <= c <= '\U{1EF8}' && c as int % 2 == 0) then
      (c as int + 1) as char
    else c
  }

  /** Upper-case partner of a letter, the inverse of `LowerChar`. */
  function UpperChar(c: char): (r: char)
    ensures IsAscii(c) ==> IsAscii(r)
  {
    if ('a' <= c <= 'z') || ('\U{00E0}' <= c <= '\U{00FE}' && c != '\U{00F7}') then
      (c as int - 32) as char
    else if c == '\U{0103}' || c == '\U{0111}' || c == '\U{0129}' || c == '\U{0169}'
         || c == '\U{01A1}' || c == '\U{01B0}'
         || ('\U{1EA1}' <= c <= '\U{1EF9}' && c as int % 2 == 1) then
      (c as int - 1) as char
    else c
  }

  /** Python's `str.lower`, character by character. */
  function Lower(s: string): (r: string)
    ensures |r| == |s|
    ensures forall i :: 0 <= i < |s| ==> r[i] == LowerChar(s[i])
  {
    seq(|s|, i requires 0 <= i < |s| => LowerChar(s[i]))
  }

  /** Python's `str.upper`, character by character. */
  function Upper(s: string): (r: string)
    ensures |r| == |s|
    ensures forall i :: 0 <= i < |s| ==> r[i] == UpperChar(s[i])
  {
    seq(|s|, i requires 0 <= i < |s| => UpperChar(s[i]))
  }

  lemma LowerAppend(a: string, b: string)
    ensures Lower(a + b) == Lower(a) + Lower(b)
  {
  }

  lemma UpperAppend(a: string, b: string)
    ensures Upper(a + b) == Upper(a) + Upper(b)
  {
  }

  /** Lower-casing keeps an ASCII string ASCII. */
  lemma LowerAscii(s: string)
    requires AllAscii(s)
    ensures AllAscii(Lower(s))
  {
  }

  // ---------------------------------------------------------------------
  // Searching

  /** `m` occurs in `s` at position `i`. */
  predicate HasAt(s: string, m: string, i: int) {
    0 <= i && i + |m| <= |s| && s[i..i + |m|] == m
  }

  /** Python's `s.find(m, from)`: the first position at or after `from`
      where `m` occurs, or -1. */
  function Find(s: string, m: string, from: nat): (r: int)
    requires from <= |s|
    ensures r == -1 || (from <= r && HasAt(s, m, r))
    ensures forall i :: from <= i && (r == -1 || i < r) ==> !HasAt(s, m, i)
    decreases |s| - from
  {
    if from + |m| > |s| then -1
    else if s[from..from + |m|] == m then from
    else Find(s, m, from + 1)
  }

  /** Python's `m in s`. */
  predicate Contains(s: string, m: string) {
    Find(s, m, 0) >= 0
  }

  lemma ContainsAt(s: string, m: string, i: int)
    requires HasAt(s, m, i)
    ensures Contains(s, m)
  {
  }

  /** A string that lacks one of the characters of `m` cannot contain `m`. */
  lemma MissingCharNotContained(s: string, m: string, c: char)
    requires c in m
    requires forall i :: 0 <= i < |s| ==> s[i] != c
    ensures !Contains(s, m)
  {
  }

  /** An occurrence fixes each character it covers. */
  lemma HasAtIndex(s: string, m: string, i: int, j: nat)
    requires j < |m|
    ensures HasAt(s, m, i) ==> s[i + j] == m[j]
  {
    if HasAt(s, m, i) {
      assert s[i..i + |m|][j] == m[j];
    }
  }

  /** `find` gives -1 when `s` lacks one of the characters of `m`. */
  lemma FindMissingChar(s: string, m: string, from: nat, c: char)
    requires from <= |s| && c in m
    requires forall i :: 0 <= i < |s| ==> s[i] != c
    ensures Find(s, m, from) == -1
  {
    var r := Find(s, m, from);
    var k :| 0 <= k < |m| && m[k] == c;
    HasAtIndex(s, m, r, k);
  }

  /** An occurrence in a string is an occurrence in any string that extends it. */
  lemma ContainsInfix(a: string, b: string, c: string, m: string)
    requires Contains(b, m)
    ensures Contains(a + b + c, m)
  {
    var r := Find(b, m, 0);
    assert (a + b + c)[|a| + r..|a| + r + |m|] == b[r..r + |m|];
    ContainsAt(a + b + c, m, |a| + r);
  }

  /** An occurrence in a slice is an occurrence in the whole string. */
  lemma ContainsSlice(s: string, lo: nat, hi: nat, m: string)
    requires lo <= hi <= |s|
    requires Contains(s[lo..hi], m)
    ensures Contains(s, m)
  {
    ContainsInfix(s[..lo], s[lo..hi], s[hi..], m);
    assert s[..lo] + s[lo..hi] + s[hi..] == s;
  }

  /** Index of the last occurrence of `c` in `s`, or -1. */
  function LastIndexOf(s: string, c: char): (r: int)
    ensures -1 <= r < |s|
    ensures r == -1 <==> c !in s
    ensures r >= 0 ==> r < |s| && s[r] == c && c !in s[r + 1..]
  {
    if |s| == 0 then -1
    else if s[|s| - 1] == c then |s| - 1
    else
      var r := LastIndexOf(s[..|s| - 1], c);
      LastIndexOfStep(s, c, r);
      r
  }

  /** Dropping a last character other than `c` keeps the last `c`. */
  lemma LastIndexOfStep(s: string, c: char, r: int)
    requires |s| > 0 && s[|s| - 1] != c && -1 <= r < |s| - 1
    requires r == -1 <==> c !in s[..|s| - 1]
    requires r >= 0 ==> s[r] == c && c !in s[..|s| - 1][r + 1..]
    ensures r == -1 <==> c !in s
    ensures r >= 0 ==> c !in s[r + 1..]
  {
    var n := |s| - 1;
    assert s == s[..n] + [s[n]];
    if r >= 0 {
      assert s[r + 1..] == s[..n][r + 1..] + [s[n]];
      NotInSnoc(s[..n][r + 1..], s[n], c);
      assert s[r] in s;
    } else {
      NotInSnoc(s[..n], s[n], c);
    }
  }

  lemma NotInSnoc(t: string, x: char, c: char)
    requires c !in t && x != c
    ensures c !in t + [x]
  {
  }

  /** The last occurrence is the only one with no occurrence after it. */
  lemma LastIndexOfUnique(s: string, c: char, h: nat)
    requires h < |s| && s[h] == c && c !in s[h + 1..]
    ensures LastIndexOf(s, c) == h
  {
    assert c in s;
    var r := LastIndexOf(s, c);
    assert 0 <= r < |s|;
  }

  /** `m in s` holds exactly when `m` occurs at some position. */
  lemma ContainsIff(s: string, m: string)
    ensures Contains(s, m) <==> exists i :: HasAt(s, m, i)
  {
    if exists i :: HasAt(s, m, i) {
      var i :| HasAt(s, m, i);
      ContainsAt(s, m, i);
    }
  }

  // ---------------------------------------------------------------------
  // Stripping

  /** `str.lstrip()`: drops the leading white space. */
  function LStrip(s: string): (r: string)
    ensures |r| <= |s|
    ensures r == [] || !IsSpace(r[0])
  {
    if |s| > 0 && IsSpace(s[0]) then LStrip(s[1..]) else s
  }

  /** `str.rstrip()`: drops the trailing white space. */
  function RStrip(s: string): (r: string)
    ensures |r| <= |s|
    ensures r == [] || !IsSpace(r[|r| - 1])
  {
    if |s| > 0 && IsSpace(s[|s| - 1]) then RStrip(s[..|s| - 1]) else s
  }

  /** What `lstrip` keeps is a suffix, and only white space goes. */
  lemma {:induction false} LStripSuffix(s: string)
    ensures LStrip(s) == s[|s| - |LStrip(s)|..]
    ensures forall i :: 0 <= i < |s| - |LStrip(s)| ==> IsSpace(s[i])
  {
    if |s| > 0 && IsSpace(s[0]) {
      LStripSuffix(s[1..]);
    }
  }

  /** What `rstrip` keeps is a prefix, and only white space goes. */
  lemma {:induction false} RStripPrefix(s: string)
    ensures RStrip(s) == s[..|RStrip(s)|]
    ensures forall i :: |RStrip(s)| <= i < |s| ==> IsSpace(s[i])
  {
    if |s| > 0 && IsSpace(s[|s| - 1]) {
      RStripPrefix(s[..|s| - 1]);
    }
  }

  /** `str.strip()`: no white space at either end. */
  function Strip(s: string): (r: string)
    ensures |r| <= |s|
    ensures r == [] || (!IsSpace(r[0]) && !IsSpace(r[|r| - 1]))
  {
    var l := LStrip(s);
    var r := RStrip(l);
    RStripPrefix(l);
    r
  }

  /** `strip` keeps a slice of the original; only white space goes. */
  lemma StripSlice(s: string)
    ensures |s| - |LStrip(s)| + |Strip(s)| <= |s|
    ensures Strip(s) == s[|s| - |LStrip(s)|..|s| - |LStrip(s)| + |Strip(s)|]
  {
    var l := LStrip(s);
    var r := RStrip(l);
    LStripSuffix(s);
    RStripPrefix(l);
    PrefixOfSuffix(s, |s| - |l|, |r|);
  }

  lemma PrefixOfSuffix(s: string, a: nat, m: nat)
    requires a + m <= |s|
    ensures s[a..][..m] == s[a..a + m]
  {
  }

  /** A string with no white space at its ends is its own strip. */
  lemma StripClean(s: string)
    requires s == [] || (!IsSpace(s[0]) && !IsSpace(s[|s| - 1]))
    ensures Strip(s) == s
  {
  }

  lemma StripIdempotent(s: string)
    ensures Strip(Strip(s)) == Strip(s)
  {
    StripClean(Strip(s));
  }

  /** A leading white-space character makes no difference to the strip. */
  lemma StripLeadingSpace(c: char, x: string)
    requires IsSpace(c)
    ensures Strip([c] + x) == Strip(x)
  {
    assert ([c] + x)[1..] == x;
  }

  /** What a stripped string contains, the original contains. */
  lemma ContainsStripped(s: string, m: string)
    requires Contains(Strip(s), m)
    ensures Contains(s, m)
  {
    var lo := |s| - |LStrip(s)|;
    StripSlice(s);
    ContainsSlice(s, lo, lo + |Strip(s)|, m);
  }

  /** Stripping keeps a leading part that starts and ends with non-space. */
  lemma StripKeepsHead(p: string, rest: string)
    requires |p| > 0 && !IsSpace(p[0]) && !IsSpace(p[|p| - 1])
    ensures |Strip(p + rest)| >= |p| && Strip(p + rest)[..|p|] == p
  {
    var s := p + rest;
    assert LStrip(s) == s;
    RStripKeepsHead(p, rest);
    RStripPrefix(s);
  }

  lemma {:induction false} RStripKeepsHead(p: string, rest: string)
    requires |p| > 0 && !IsSpace(p[|p| - 1])
    ensures |RStrip(p + rest)| >= |p|
    decreases |rest|
  {
    var s := p + rest;
    if |rest| > 0 && IsSpace(s[|s| - 1]) {
      assert s[..|s| - 1] == p + rest[..|rest| - 1];
      RStripKeepsHead(p, rest[..|rest| - 1]);
    }
  }

  // ---------------------------------------------------------------------
  // Splitting, joining, replacing

  /** `s` cut at every character of `seps` (Python's `split` on one
      separator, or a split on a one-character class). */
  function Split(s: string, seps: set<char>): (r: seq<string>)
    ensures |r| >= 1
    ensures forall k, i :: 0 <= k < |r| && 0 <= i < |r[k]| ==> r[k][i] !in seps
  {
    if |s| == 0 then [""]
    else if s[0] in seps then [""] + Split(s[1..], seps)
    else
      var rest := Split(s[1..], seps);
      [[s[0]] + rest[0]] + rest[1..]
  }

  /** A string free of separators is one piece. */
  lemma {:induction false} SplitNone(a: string, seps: set<char>)
    requires Avoids(a, seps)
    ensures Split(a, seps) == [a]
  {
    if |a| > 0 {
      SplitNone(a[1..], seps);
      assert a[0] !in seps;
      assert [a[0]] + a[1..] == a;
    }
  }

  /** A separator-free head followed by a separator is the first piece. */
  lemma {:induction false} SplitAt(a: string, c: char, b: string, seps: set<char>)
    requires Avoids(a, seps) && c in seps
    ensures Split(a + [c] + b, seps) == [a] + Split(b, seps)
  {
    if |a| > 0 {
      assert (a + [c] + b)[1..] == a[1..] + [c] + b;
      SplitAt(a[1..], c, b, seps);
      assert (a + [c] + b)[0] == a[0] && a[0] !in seps;
      assert [a[0]] + a[1..] == a;
    } else {
      assert (a + [c] + b)[1..] == b;
    }
  }

  /** `sep.join(xs)`. */
  function Join(xs: seq<string>, sep: string): string {
    if |xs| == 0 then ""
    else if |xs| == 1 then xs[0]
    else xs[0] + sep + Join(xs[1..], sep)
  }

  /** Splitting at one separator and joining with it gives the string back. */
  lemma {:induction false} JoinSplit(s: string, c: char)
    ensures Join(Split(s, {c}), [c]) == s
  {
    if |s| == 0 {
    } else if s[0] == c {
      JoinSplit(s[1..], c);
      var rest := Split(s[1..], {c});
      assert Split(s, {c}) == [""] + rest;
      assert Join([""] + rest, [c]) == "" + [c] + Join(rest, [c]);
    } else {
      JoinSplit(s[1..], c);
      var rest := Split(s[1..], {c});
      var r := [[s[0]] + rest[0]] + rest[1..];
      if |rest| == 1 {
        assert Join(r, [c]) == [s[0]] + rest[0];
      } else {
        assert Join(rest, [c]) == rest[0] + [c] + Join(rest[1..], [c]);
        assert r[1..] == rest[1..];
        assert Join(r, [c]) == [s[0]] + rest[0] + [c] + Join(rest[1..], [c]);
      }
    }
  }

  /** Python's `s.replace(pat, repl)`: every occurrence, scanning left to
      right without overlaps. */
  function Replace(s: string, pat: string, repl: string): string
    requires |pat| > 0
    decreases |s|
  {
    if |s| < |pat| then s
    else if s[..|pat|] == pat then repl + Replace(s[|pat|..], pat, repl)
    else [s[0]] + Replace(s[1..], pat, repl)
  }

  // ---------------------------------------------------------------------
  // Numbers

  /** Decimal digits of `n`, as Python's `str(n)` writes them. */
  function NatToString(n: nat): (r: string)
    ensures |r| >= 1
    ensures forall i :: 0 <= i < |r| ==> IsDigit(r[i])
    decreases n
  {
    if n < 10 then [('0' as int + n) as char]
    else NatToString(n / 10) + [('0' as int + n % 10) as char]
  }

  predicate AllDigits(s: string) {
    forall i :: 0 <= i < |s| ==> IsDigit(s[i])
  }

  /** The number a string of decimal digits denotes. */
  function DigitsValue(s: string): nat
    requires AllDigits(s)
  {
    if |s| == 0 then 0
    else DigitsValue(s[..|s| - 1]) * 10 + (s[|s| - 1] as int - '0' as int)
  }

  /** Reading the digits of `n` back gives `n`. */
  lemma {:induction false} NatToStringValue(n: nat)
    ensures AllDigits(NatToString(n)) && DigitsValue(NatToString(n)) == n
    decreases n
  {
    if n >= 10 {
      NatToStringValue(n / 10);
      var r := NatToString(n);
      assert r[..|r| - 1] == NatToString(n / 10);
    }
  }
}
