/** `filename_cleanup` of utils.py: a chain of four substitutions that turns
    a patient name into a safe file name.  The chain is modelled as written,
    and a per-character reference `CleanEach` states what it does. */
module Filename {
  import opened Text

  /** The nine characters the first substitution of `filename_cleanup`
      deletes, those a Windows file name cannot hold. */
  predicate IsReserved(c: char) {
    c == '<' || c == '>' || c == ':' || c == '"' || c == '/' || c == '\\'
    || c == '|' || c == '?' || c == '*'
  }

  /** Every character the cleaned name cannot hold. */
  predicate IsUnsafe(c: char) {
    IsReserved(c) || c == ' ' || c == '(' || c == ')' || c == '\U{03B1}' || c == '\U{0391}'
  }

  predicate Safe(s: string) {
    forall i :: 0 <= i < |s| ==> !IsUnsafe(s[i])
  }

  /** The first substitution: every reserved character deleted. */
  function DropReserved(s: string): (r: string)
    ensures |r| <= |s|
    ensures forall i :: 0 <= i < |r| ==> !IsReserved(r[i])
  {
    if |s| == 0 then ""
    else (if IsReserved(s[0]) then "" else [s[0]]) + DropReserved(s[1..])
  }

  /** The `str.replace` steps of `filename_cleanup`, in source order:
      alpha to Latin a and A, space to underscore, parentheses removed. */
  function Substitutions(x: string): string {
    var latin := Replace(Replace(x, "\U{03B1}", "a"), "\U{0391}", "A");
    var underscored := Replace(latin, " ", "_");
    Replace(Replace(underscored, "(", ""), ")", "")
  }

  /** `filename_cleanup(s)`: the reserved characters go first, then the
      substitutions run. */
  function FilenameCleanup(s: string): string {
    Substitutions(DropReserved(s))
  }

  // ---------------------------------------------------------------------
  // The per-character reference

  /** What becomes of one character: reserved characters and parentheses
      go, alpha becomes the Latin letter, a space becomes an underscore. */
  function CleanChar(c: char): (r: string)
    ensures |r| <= 1
    ensures Safe(r)
  {
    if IsReserved(c) || c == '(' || c == ')' then ""
    else if c == '\U{03B1}' then "a"
    else if c == '\U{0391}' then "A"
    else if c == ' ' then "_"
    else [c]
  }

  /** Each character of `s` cleaned on its own. */
  function CleanEach(s: string): (r: string)
    ensures |r| <= |s|
    ensures Safe(r)
  {
    if |s| == 0 then "" else CleanChar(s[0]) + CleanEach(s[1..])
  }

  // ---------------------------------------------------------------------
  // The chain is the per-character cleaning

  /** A one-character pattern is replaced at the head or the head is kept. */
  lemma ReplaceHead(h: string, rest: string, c: char, repl: string)
    requires |h| <= 1
    ensures Replace(h + rest, [c], repl) == Replace(h, [c], repl) + Replace(rest, [c], repl)
  {
    if |h| == 0 {
      assert h + rest == rest;
    } else {
      assert (h + rest)[..1] == h;
      assert (h + rest)[1..] == rest;
      assert Replace(h, [c], repl) == if h[0] == c then repl else h;
    }
  }

  lemma DropHead(c: char, rest: string)
    ensures DropReserved([c] + rest) == (if IsReserved(c) then "" else [c]) + DropReserved(rest)
  {
    assert ([c] + rest)[1..] == rest;
  }

  lemma ReplaceOne(h: string, c: char, repl: string)
    requires |h| <= 1
    ensures Replace(h, [c], repl) == if h == [c] then repl else h
  {
  }

  /** The substitutions work on a one-character head and the rest apart. */
  lemma SubstitutionsSplit(h: string, rest: string)
    requires |h| <= 1
    ensures Substitutions(h + rest) == Substitutions(h) + Substitutions(rest)
  {
    ReplaceHead(h, rest, '\U{03B1}', "a");
    ReplaceOne(h, '\U{03B1}', "a");
    var h1 := Replace(h, "\U{03B1}", "a");
    var r1 := Replace(rest, "\U{03B1}", "a");
    ReplaceHead(h1, r1, '\U{0391}', "A");
    ReplaceOne(h1, '\U{0391}', "A");
    var h2 := Replace(h1, "\U{0391}", "A");
    var r2 := Replace(r1, "\U{0391}", "A");
    ReplaceHead(h2, r2, ' ', "_");
    ReplaceOne(h2, ' ', "_");
    var h3 := Replace(h2, " ", "_");
    var r3 := Replace(r2, " ", "_");
    ReplaceHead(h3, r3, '(', "");
    ReplaceOne(h3, '(', "");
    var h4 := Replace(h3, "(", "");
    var r4 := Replace(r3, "(", "");
    ReplaceHead(h4, r4, ')', "");
  }

  /** The substitutions on one character that is not reserved. */
  lemma SubstitutionsOne(c: char)
    requires !IsReserved(c)
    ensures Substitutions([c]) == CleanChar(c)
  {
    var h0 := [c];
    ReplaceOne(h0, '\U{03B1}', "a");
    var h1 := Replace(h0, "\U{03B1}", "a");
    ReplaceOne(h1, '\U{0391}', "A");
    var h2 := Replace(h1, "\U{0391}", "A");
    ReplaceOne(h2, ' ', "_");
    var h3 := Replace(h2, " ", "_");
    ReplaceOne(h3, '(', "");
    var h4 := Replace(h3, "(", "");
    ReplaceOne(h4, ')', "");
  }

  /** The chain works on the first character and the rest apart. */
  lemma CleanupHead(c: char, rest: string)
    ensures FilenameCleanup([c] + rest) == CleanChar(c) + FilenameCleanup(rest)
  {
    DropHead(c, rest);
    var r0 := DropReserved(rest);
    if IsReserved(c) {
      assert "" + r0 == r0;
    } else {
      SubstitutionsSplit([c], r0);
      SubstitutionsOne(c);
    }
  }

  /** `filename_cleanup` cleans each character on its own. */
  lemma {:induction false} CleanupIsPerChar(s: string)
    ensures FilenameCleanup(s) == CleanEach(s)
  {
    if |s| > 0 {
      assert s == [s[0]] + s[1..];
      CleanupHead(s[0], s[1..]);
      CleanupIsPerChar(s[1..]);
    }
  }

  // ---------------------------------------------------------------------
  // What the cleaned name satisfies

  /** No reserved character, no space, no parenthesis and no alpha is
      left, and the name never grows. */
  lemma CleanupSafe(s: string)
    ensures Safe(FilenameCleanup(s))
    ensures |FilenameCleanup(s)| <= |s|
  {
    CleanupIsPerChar(s);
  }

  /** A name that is already safe is left as it is. */
  lemma {:induction false} CleanEachKeepsSafe(s: string)
    requires Safe(s)
    ensures CleanEach(s) == s
  {
    if |s| > 0 {
      CleanEachKeepsSafe(s[1..]);
      assert !IsUnsafe(s[0]);
      assert [s[0]] + s[1..] == s;
    }
  }

  /** Cleaning twice is cleaning once. */
  lemma CleanupIdempotent(s: string)
    ensures FilenameCleanup(FilenameCleanup(s)) == FilenameCleanup(s)
  {
    CleanupIsPerChar(s);
    CleanupIsPerChar(FilenameCleanup(s));
    CleanEachKeepsSafe(CleanEach(s));
  }

  /** Characters other than the unsafe ones are kept in place. */
  lemma CleanupKeepsOthers(s: string)
    requires Safe(s)
    ensures FilenameCleanup(s) == s
  {
    CleanupIsPerChar(s);
    CleanEachKeepsSafe(s);
  }

  lemma {:induction false} CleanEachAppend(a: string, b: string)
    ensures CleanEach(a + b) == CleanEach(a) + CleanEach(b)
  {
    if |a| > 0 {
      assert (a + b)[1..] == a[1..] + b;
      CleanEachAppend(a[1..], b);
    } else {
      assert a + b == b;
    }
  }

  lemma CleanEachOne(c: char)
    ensures CleanEach([c]) == CleanChar(c)
  {
    assert [c][1..] == "";
  }

  lemma ExampleNamePieces()
    ensures CleanEach("Case") == "Case" && CleanEach("Test") == "Test"
  {
    CleanEachKeepsSafe("Case");
    CleanEachKeepsSafe("Test");
  }

  lemma ExampleMiddle()
    ensures CleanEach(" (1)/") == "_1"
  {
    assert " (1)/" == [' '] + ['('] + ['1'] + [')'] + ['/'];
    CleanEachAppend([' '] + ['('] + ['1'] + [')'], ['/']);
    CleanEachAppend([' '] + ['('] + ['1'], [')']);
    CleanEachAppend([' '] + ['('], ['1']);
    CleanEachAppend([' '], ['(']);
    CleanEachOne(' ');
    CleanEachOne('(');
    CleanEachOne('1');
    CleanEachOne(')');
    CleanEachOne('/');
  }

  lemma CleanEachFour(a: string, b: string, c: string, d: string)
    ensures CleanEach(a + b + c + d) == CleanEach(a) + CleanEach(b) + CleanEach(c) + CleanEach(d)
  {
    CleanEachAppend(a + b + c, d);
    CleanEachAppend(a + b, c);
    CleanEachAppend(a, b);
  }

  lemma ExampleSplit()
    ensures "Case (1)/Test*" == "Case" + " (1)/" + "Test" + "*"
  {
  }

  lemma ExampleJoin()
    ensures "Case" + "_1" + "Test" + "" == "Case_1Test"
  {
  }

  lemma ExampleCleanEach()
    ensures CleanEach("Case (1)/Test*") == "Case_1Test"
  {
    ExampleSplit();
    CleanEachFour("Case", " (1)/", "Test", "*");
    ExampleNamePieces();
    ExampleMiddle();
    CleanEachOne('*');
    ExampleJoin();
  }

  /** "Case (1)/Test*" gives "Case_1Test". */
  lemma CleanupExample()
    ensures FilenameCleanup("Case (1)/Test*") == "Case_1Test"
  {
    CleanupIsPerChar("Case (1)/Test*");
    ExampleCleanEach();
  }
}
