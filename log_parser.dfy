/**
 * `analyze_log` of log_parser/main.py: every line of a log whose lower-cased
 * form contains one of four fixed keywords is reported, stripped, behind a
 * fixed tag, in input order.
 *
 * The file is given as the sequence of lines its iteration yields (each with
 * its line terminator, if any); standard output is the sequence of lines
 * `print` writes, each without the newline `print` ends it with.
 */
module LogParser {
  import opened Text

  /** The keyword list of `analyze_log`, spelled as the program spells it. */
  const SourceKeywords: seq<string> := ["failed password", "error", "invalid user", "unathorized"]

  /** The first argument of the `print` call; `print` separates it from the line by one space. */
  const WarningTag: string := "[WARNING] Suspicious Entry:"

  /**
   * A keyword a lower-cased line can contain: not empty, free of capitals, and
   * starting and ending with a character that is not whitespace.
   */
  ghost predicate WellFormedKeyword(k: string) {
    k != [] && NoUpper(k) && !IsSpace(k[0]) && !IsSpace(k[|k| - 1])
  }

  ghost predicate WellFormedKeywords(keywords: seq<string>) {
    forall j :: 0 <= j < |keywords| ==> WellFormedKeyword(keywords[j])
  }

  /** `any(keyword in line.lower() for keyword in keywords)`. */
  predicate IsFlagged(keywords: seq<string>, line: string) {
    AnyOccurs(keywords, ToLower(line))
  }

  /** The test `analyze_log` applies to each line. */
  predicate IsSuspicious(line: string) {
    IsFlagged(SourceKeywords, line)
  }

  /** The text `print("[WARNING] Suspicious Entry:", line.strip())` writes, without its newline. */
  function Warning(line: string): string {
    WarningTag + " " + Strip(line)
  }

  /**
   * What a loop over `lines` prints when it prints `show(line)` for every line
   * `keep` accepts and nothing for the others.
   */
  function Select(keep: string -> bool, show: string -> string, lines: seq<string>): (r: seq<string>)
    ensures |r| <= |lines|
  {
    if lines == [] then
      []
    else
      (if keep(lines[0]) then [show(lines[0])] else []) + Select(keep, show, lines[1..])
  }

  /** The lines printed for `lines`: the warning of every flagged line, in input order. */
  function Report(keywords: seq<string>, lines: seq<string>): seq<string> {
    Select(line => IsFlagged(keywords, line), Warning, lines)
  }

  /** `analyze_log` over the lines of its file: the loop that prints a warning per suspicious line. */
  method AnalyzeLog(lines: seq<string>) returns (output: seq<string>)
    ensures output == Report(SourceKeywords, lines)
  {
    output := [];
    for n := 0 to |lines|
      invariant output == Report(SourceKeywords, lines[..n])
    {
      ReportStep(SourceKeywords, lines, n);
      var line := lines[n];
      if IsSuspicious(line) {
        output := output + [Warning(line)];
      }
    }
    assert lines[..|lines|] == lines;
  }

  // ---------------------------------------------------------------------------
  // The test of one line
  // ---------------------------------------------------------------------------

  /** The keywords as the program spells them are well formed. */
  lemma SourceKeywordsWellFormed()
    ensures WellFormedKeywords(SourceKeywords)
  {
    assert WellFormedKeyword("failed password");
    assert WellFormedKeyword("error");
    assert WellFormedKeyword("invalid user");
    assert WellFormedKeyword("unathorized");
  }

  /** The characters of `line` from `i` on, lower-cased, spell `k`. */
  ghost predicate MatchesIgnoringCase(k: string, line: string, i: int) {
    0 <= i && i + |k| <= |line| && forall t :: 0 <= t < |k| ==> LowerChar(line[i + t]) == k[t]
  }

  lemma OccursInLowerAt(k: string, line: string, i: int)
    ensures OccursAt(k, ToLower(line), i) <==> MatchesIgnoringCase(k, line, i)
  {
    if 0 <= i && i + |k| <= |line| {
      var w := ToLower(line)[i..i + |k|];
      assert forall t :: 0 <= t < |k| ==> w[t] == LowerChar(line[i + t]);
      if MatchesIgnoringCase(k, line, i) {
        assert w == k;
      }
    }
  }

  /**
   * A line is flagged exactly when, at some position, its characters read
   * case-insensitively spell one of the keywords.
   */
  lemma FlaggedIffMatches(keywords: seq<string>, line: string)
    ensures IsFlagged(keywords, line)
        <==> exists j, i :: 0 <= j < |keywords| && MatchesIgnoringCase(keywords[j], line, i)
  {
    if IsFlagged(keywords, line) {
      var j :| 0 <= j < |keywords| && Occurs(keywords[j], ToLower(line));
      var i :| OccursAt(keywords[j], ToLower(line), i);
      OccursInLowerAt(keywords[j], line, i);
    }
    if j, i :| 0 <= j < |keywords| && MatchesIgnoringCase(keywords[j], line, i) {
      OccursInLowerAt(keywords[j], line, i);
    }
  }

  /** Changing only the case of letters never changes whether a line is flagged. */
  lemma FlaggedIgnoresCase(keywords: seq<string>, a: string, b: string)
    requires SameIgnoringCase(a, b)
    ensures IsFlagged(keywords, a) <==> IsFlagged(keywords, b)
  {
    ToLowerIgnoresCase(a, b);
  }

  /**
   * Matching is plain substring containment: a keyword, written in any case,
   * anywhere inside a line, flags the line, whatever surrounds it.
   */
  lemma FlaggedByKeywordInside(keywords: seq<string>, j: int, p: string, v: string, q: string)
    requires 0 <= j < |keywords| && NoUpper(keywords[j])
    requires SameIgnoringCase(v, keywords[j])
    ensures IsFlagged(keywords, p + v + q)
  {
    var k := keywords[j];
    ToLowerConcat(p + v, q);
    ToLowerConcat(p, v);
    ToLowerIgnoresCase(v, k);
    ToLowerOfLower(k);
    OccursInContext(ToLower(p), k, ToLower(q));
  }

  /** Extending a flagged line on either side leaves it flagged. */
  lemma FlaggedGrows(keywords: seq<string>, p: string, line: string, q: string)
    requires IsFlagged(keywords, line)
    ensures IsFlagged(keywords, p + line + q)
  {
    FlaggedIffMatches(keywords, line);
    var j, i :| 0 <= j < |keywords| && MatchesIgnoringCase(keywords[j], line, i);
    var k := keywords[j];
    var s := p + line + q;
    forall t | 0 <= t < |k| ensures LowerChar(s[|p| + i + t]) == k[t] {
      assert s[|p| + i + t] == line[i + t];
    }
    assert MatchesIgnoringCase(k, s, |p| + i);
    FlaggedIffMatches(keywords, s);
  }

  /**
   * The keywords start and end with a non-whitespace character, so testing the
   * unstripped line (as the program does) or the stripped line it prints gives
   * the same answer.
   */
  lemma FlaggedIgnoresStrip(keywords: seq<string>, line: string)
    requires WellFormedKeywords(keywords)
    ensures IsFlagged(keywords, Strip(line)) <==> IsFlagged(keywords, line)
  {
    var r := Strip(line);
    var a :| StrippedAt(line, r, a);
    FlaggedIffStrippedFlagged(keywords, line, r, a);
  }

  lemma FlaggedIffStrippedFlagged(keywords: seq<string>, line: string, r: string, a: int)
    requires WellFormedKeywords(keywords) && StrippedAt(line, r, a)
    ensures IsFlagged(keywords, r) <==> IsFlagged(keywords, line)
  {
    if IsFlagged(keywords, r) {
      StrippedSplits(line, r, a);
      FlaggedGrows(keywords, line[..a], r, line[a + |r|..]);
    }
    if IsFlagged(keywords, line) {
      FlaggedLineFlagsStrip(keywords, line, r, a);
    }
  }

  /** A flagged line keeps its verdict once stripped: the match lies inside the stripped part. */
  lemma FlaggedLineFlagsStrip(keywords: seq<string>, line: string, r: string, a: int)
    requires WellFormedKeywords(keywords) && StrippedAt(line, r, a) && IsFlagged(keywords, line)
    ensures IsFlagged(keywords, r)
  {
    FlaggedIffMatches(keywords, line);
    var j, i :| 0 <= j < |keywords| && MatchesIgnoringCase(keywords[j], line, i);
    MatchInsideStrip(keywords[j], line, r, a, i);
    FlaggedIffMatches(keywords, r);
  }

  /** A match of a well-formed keyword lies wholly inside the stripped part of the line. */
  lemma MatchInsideStrip(k: string, line: string, r: string, a: int, i: int)
    requires WellFormedKeyword(k) && StrippedAt(line, r, a) && MatchesIgnoringCase(k, line, i)
    ensures MatchesIgnoringCase(k, r, i - a)
  {
    var e := i + |k| - 1;
    assert LowerChar(line[i]) == k[0] && LowerChar(line[e]) == k[|k| - 1];
    assert !IsSpace(line[i]) && !IsSpace(line[e]);
    assert a <= i;
    assert e < a + |r|;
    forall t | 0 <= t < |k| ensures LowerChar(r[i - a + t]) == k[t] {
      assert r[i - a + t] == line[i + t];
    }
  }

  /** Any of the program's keywords, in any case, anywhere in a line, makes it suspicious. */
  lemma SuspiciousWhenContains(k: string, p: string, v: string, q: string)
    requires k in SourceKeywords && SameIgnoringCase(v, k)
    ensures IsSuspicious(p + v + q)
  {
    SourceKeywordsWellFormed();
    var j :| 0 <= j < |SourceKeywords| && SourceKeywords[j] == k;
    FlaggedByKeywordInside(SourceKeywords, j, p, v, q);
  }

  /** Matching is not whole-word: "Errors" and "terror" contain "error", wherever they stand in a line. */
  lemma ErrorInsideWordsReported(p: string, q: string)
    ensures IsSuspicious(p + "Errors" + q) && IsSuspicious(p + "terror" + q)
  {
    SuspiciousWhenContains("error", p, "Error", "s" + q);
    assert p + "Error" + ("s" + q) == p + "Errors" + q;
    SuspiciousWhenContains("error", p + "t", "error", q);
    assert p + "t" + "error" + q == p + "terror" + q;
  }

  /**
   * The program's list spells "unathorized", so the word "unauthorized", in any
   * case, never makes a line suspicious: the line is reported only if the text
   * before or after the word would be reported on its own.
   */
  lemma MisspelledKeywordMissesUnauthorized(p: string, v: string, q: string)
    requires SameIgnoringCase(v, "unauthorized")
    ensures IsSuspicious(p + v + q) <==> IsSuspicious(p) || IsSuspicious(q)
    ensures !IsSuspicious(p) && !IsSuspicious(q) ==> Report(SourceKeywords, [p + v + q]) == []
  {
    var u := "unauthorized";
    assert NoUpper(u);
    NoSourceKeywordOverlaps(u);
    FlaggedAround(SourceKeywords, p, v, u, q);
    assert [p + v + q][1..] == [];
  }

  /**
   * A word `v` that no keyword overlaps, whatever its case, adds nothing to the
   * verdict: the line is flagged exactly when the text before or after it is.
   */
  lemma FlaggedAround(keywords: seq<string>, p: string, v: string, u: string, q: string)
    requires NoUpper(u) && SameIgnoringCase(v, u)
    requires forall j, d :: 0 <= j < |keywords| && -|keywords[j]| < d < |u| ==> !AgreesAt(keywords[j], u, d)
    ensures IsFlagged(keywords, p + v + q) <==> IsFlagged(keywords, p) || IsFlagged(keywords, q)
  {
    ToLowerOfLower(u);
    ToLowerIgnoresCase(v, u);
    ToLowerConcat(p, v);
    ToLowerConcat(p + v, q);
    AnyOccursAround(keywords, ToLower(p), u, ToLower(q));
  }

  /**
   * No keyword of the program agrees with "unauthorized" at any offset where
   * the two overlap: none occurs inside it, none contains it, and no end of a
   * keyword is a start of the word or the other way round.
   */
  lemma NoSourceKeywordOverlaps(u: string)
    requires u == "unauthorized"
    ensures forall j, d ::
      0 <= j < |SourceKeywords| && -|SourceKeywords[j]| < d < |u| ==> !AgreesAt(SourceKeywords[j], u, d)
  {
    var k0, k1, k2, k3 := "failed password", "error", "invalid user", "unathorized";
    forall d | -|k0| < d < |u| ensures !AgreesAt(k0, u, d) {
      if d >= 0 {
        assert k0[0] != u[d];
      } else {
        assert k0[-d] != u[0];
      }
    }
    forall d | -|k1| < d < |u| ensures !AgreesAt(k1, u, d) {
      if d == 10 {
        assert k1[1] != u[11];
      } else if d >= 0 {
        assert k1[0] != u[d];
      } else {
        assert k1[-d] != u[0];
      }
    }
    forall d | -|k2| < d < |u| ensures !AgreesAt(k2, u, d) {
      if d == 8 {
        assert k2[1] != u[9];
      } else if d == -8 {
        assert k2[9] != u[1];
      } else if d >= 0 {
        assert k2[0] != u[d];
      } else {
        assert k2[-d] != u[0];
      }
    }
    forall d | -|k3| < d < |u| ensures !AgreesAt(k3, u, d) {
      if d == 0 {
        assert k3[3] != u[3];
      } else if d == 3 {
        assert k3[1] != u[4];
      } else if d >= 0 {
        assert k3[0] != u[d];
      } else {
        assert k3[-d] != u[0];
      }
    }
    assert SourceKeywords == [k0, k1, k2, k3];
  }

  /** The keyword list with "unauthorized" spelled correctly. */
  const IntendedKeywords: seq<string> := ["failed password", "error", "invalid user", "unauthorized"]

  /** With the intended spelling, "unauthorized" in any case anywhere in a line flags it. */
  lemma IntendedReportsUnauthorized(p: string, v: string, q: string)
    requires SameIgnoringCase(v, "unauthorized")
    ensures IsFlagged(IntendedKeywords, p + v + q)
    ensures Report(IntendedKeywords, [p + v + q]) == [Warning(p + v + q)]
  {
    assert NoUpper("unauthorized");
    FlaggedByKeywordInside(IntendedKeywords, 3, p, v, q);
    assert [p + v + q][1..] == [];
  }

  // ---------------------------------------------------------------------------
  // The output of a run
  // ---------------------------------------------------------------------------

  /** Selecting from a log in two pieces selects from the pieces one after the other. */
  lemma {:induction false} SelectAppend(keep: string -> bool, show: string -> string, a: seq<string>, b: seq<string>)
    ensures Select(keep, show, a + b) == Select(keep, show, a) + Select(keep, show, b)
  {
    if a == [] {
      assert a + b == b;
    } else {
      var head := if keep(a[0]) then [show(a[0])] else [];
      assert (a + b)[0] == a[0];
      assert (a + b)[1..] == a[1..] + b;
      assert Select(keep, show, a + b) == head + Select(keep, show, a[1..] + b);
      assert Select(keep, show, a) == head + Select(keep, show, a[1..]);
      SelectAppend(keep, show, a[1..], b);
      assert head + (Select(keep, show, a[1..]) + Select(keep, show, b))
          == (head + Select(keep, show, a[1..])) + Select(keep, show, b);
    }
  }

  /** Reporting a log in two pieces reports the pieces one after the other. */
  lemma ReportAppend(keywords: seq<string>, a: seq<string>, b: seq<string>)
    ensures Report(keywords, a + b) == Report(keywords, a) + Report(keywords, b)
  {
    SelectAppend(line => IsFlagged(keywords, line), Warning, a, b);
  }

  /** Reporting one more line adds that line's warning, if it has one, at the end. */
  lemma ReportStep(keywords: seq<string>, lines: seq<string>, n: nat)
    requires n < |lines|
    ensures Report(keywords, lines[..n + 1])
         == Report(keywords, lines[..n])
            + (if IsFlagged(keywords, lines[n]) then [Warning(lines[n])] else [])
  {
    assert lines[..n + 1] == lines[..n] + [lines[n]];
    SelectAppend(line => IsFlagged(keywords, line), Warning, lines[..n], [lines[n]]);
    assert [lines[n]][1..] == [];
  }

  /** The positions, in increasing order, of the lines of `lines` at or after `from` that `keep` accepts. */
  function Kept(keep: string -> bool, lines: seq<string>, from: nat): (idx: seq<nat>)
    ensures forall x :: 0 <= x < |idx| ==> from <= idx[x] < |lines|
    ensures forall x, y :: 0 <= x < y < |idx| ==> idx[x] < idx[y]
    ensures forall i :: from <= i < |lines| ==> (keep(lines[i]) <==> i in idx)
    decreases |lines| - from
  {
    if from >= |lines| then
      []
    else
      (if keep(lines[from]) then [from] else []) + Kept(keep, lines, from + 1)
  }

  /** The j-th line selected from `lines[from..]` is `show` of the j-th kept line. */
  lemma {:induction false} SelectFrom(keep: string -> bool, show: string -> string, lines: seq<string>, from: nat)
    requires from <= |lines|
    ensures |Select(keep, show, lines[from..])| == |Kept(keep, lines, from)|
    ensures forall j :: 0 <= j < |Kept(keep, lines, from)| ==>
      Select(keep, show, lines[from..])[j] == show(lines[Kept(keep, lines, from)[j]])
    decreases |lines| - from
  {
    if from < |lines| {
      var rest := lines[from..];
      assert rest[0] == lines[from] && rest[1..] == lines[from + 1..];
      SelectFrom(keep, show, lines, from + 1);
      var r, r' := Select(keep, show, rest), Select(keep, show, lines[from + 1..]);
      var idx, idx' := Kept(keep, lines, from), Kept(keep, lines, from + 1);
      if keep(lines[from]) {
        assert r == [show(lines[from])] + r' && idx == [from] + idx';
        forall j | 0 <= j < |idx| ensures r[j] == show(lines[idx[j]]) {
          if j > 0 { assert r[j] == r'[j - 1] && idx[j] == idx'[j - 1]; }
        }
      } else {
        assert r == r' && idx == idx';
      }
    }
  }

  /**
   * The output holds one warning per flagged line and nothing else, in the
   * order of the lines: with `idx` the positions of the flagged lines in
   * increasing order, its j-th entry is the warning of line `idx[j]`.
   */
  lemma ReportSelectsFlaggedLines(keywords: seq<string>, lines: seq<string>)
    ensures var idx := Kept(line => IsFlagged(keywords, line), lines, 0);
      && (forall i :: 0 <= i < |lines| ==> (IsFlagged(keywords, lines[i]) <==> i in idx))
      && |Report(keywords, lines)| == |idx|
      && forall j :: 0 <= j < |idx| ==> Report(keywords, lines)[j] == Warning(lines[idx[j]])
  {
    SelectFrom(line => IsFlagged(keywords, line), Warning, lines, 0);
    assert lines[0..] == lines;
  }

  /** A line in which several keywords match still yields exactly one warning. */
  lemma OneWarningPerLine(line: string, j1: int, i1: int, j2: int, i2: int)
    requires 0 <= j1 < j2 < |SourceKeywords|
    requires MatchesIgnoringCase(SourceKeywords[j1], line, i1)
    requires MatchesIgnoringCase(SourceKeywords[j2], line, i2)
    ensures Report(SourceKeywords, [line]) == [Warning(line)]
  {
    FlaggedIffMatches(SourceKeywords, line);
    assert [line][1..] == [];
    assert Report(SourceKeywords, [line]) == [Warning(line)] + Report(SourceKeywords, []);
  }

  /**
   * The printed line is the tag, one space and the line without the
   * whitespace around it (line terminators included).
   */
  lemma WarningStripsLine(pre: string, body: string, post: string)
    requires forall i :: 0 <= i < |pre| ==> IsSpace(pre[i])
    requires forall i :: 0 <= i < |post| ==> IsSpace(post[i])
    requires body != [] ==> !IsSpace(body[0]) && !IsSpace(body[|body| - 1])
    ensures Warning(pre + body + post) == "[WARNING] Suspicious Entry: " + body
  {
    var line := pre + body + post;
    assert line[|pre|..|pre| + |body|] == body;
    assert StrippedAt(line, body, |pre|);
    StripUnique(line, body, Strip(line));
  }
}
