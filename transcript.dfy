/**
 * `parse_courses`: the transcript text is cut into terms at the term headers, each
 * term's lines are repaired where two course codes ran together on one line, and
 * every course-record match of the repaired term text becomes a course.
 */
module Transcript {
  import opened Wrappers
  import opened Text
  import opened Patterns

  /** One row of the course table: code, name, letter grade, grade point and credits (AKTS). */
  datatype Course = Course(code: string, name: string, grade: string, gradePoint: string, credit: nat)

  // ---------------------------------------------------------------------------
  // The searches
  // ---------------------------------------------------------------------------

  /**
   * The three `re` searches of `parse_courses`: `finditer` over the term headers, and
   * `findall` over the course codes of a line and over the course records of a term.
   * The parser is stated for any searches that answer as `re` does (`SearchesOk`);
   * `Re` gives the matches of the patterns of `Patterns`.
   */
  datatype Searches = Searches(
    headers: string -> seq<Match>, codes: string -> seq<Match>, records: string -> seq<Match>)

  /** Matches within `s`, each ending after it starts and before the next one starts. */
  ghost predicate InOrder(ms: seq<Match>, s: string) {
    (forall i :: 0 <= i < |ms| ==> ms[i].start < ms[i].end <= |s|)
    && forall i :: 0 <= i < |ms| - 1 ==> ms[i].end <= ms[i + 1].start
  }

  /** Each match has the text it covers as its only group. */
  ghost predicate WholeGroups(ms: seq<Match>, s: string) {
    forall i :: 0 <= i < |ms| ==> ms[i].start <= ms[i].end <= |s| && ms[i].groups == [s[ms[i].start..ms[i].end]]
  }

  /** All matches carry the five groups of a record. */
  ghost predicate AllRecords(ms: seq<Match>) {
    forall i :: 0 <= i < |ms| ==> RecordGroups(ms[i].groups)
  }

  /** What the parser relies on about the searches. */
  ghost predicate SearchesOk(re: Searches) {
    (forall s :: InOrder(re.headers(s), s))
    && (forall s :: WholeGroups(re.codes(s), s))
    && (forall s :: AllRecords(re.records(s)))
  }

  /** The searches of `parse_courses`, with its three patterns. */
  const Re: Searches := Searches(
    s => FindAll(TermHeader, s), s => FindAll(CourseCode, s), s => FindAll(CourseRecord, s))

  /** The header matches are in order. */
  lemma HeadersInOrder(s: string)
    ensures InOrder(FindAll(TermHeader, s), s)
  {
  }

  /** A code match has the code it covers as its group. */
  lemma CodesWhole(s: string)
    ensures WholeGroups(FindAll(CourseCode, s), s)
  {
    var ms := FindAll(CourseCode, s);
    forall i | 0 <= i < |ms| ensures ms[i].start <= ms[i].end <= |s| && ms[i].groups == [s[ms[i].start..ms[i].end]] {
      FindAllAt(CourseCode, s, i);
    }
  }

  /** Every record match that `FindAll` reports has the five groups of a record. */
  lemma RecordsShaped(s: string)
    ensures AllRecords(FindAll(CourseRecord, s))
  {
    var ms := FindAll(CourseRecord, s);
    forall i | 0 <= i < |ms| ensures RecordGroups(ms[i].groups) {
      FindAllAt(CourseRecord, s, i);
      MatchAtGroups(s, ms[i].start);
    }
  }

  /** The searches of the patterns answer as the parser expects. */
  lemma ReOk()
    ensures SearchesOk(Re)
  {
    forall s ensures InOrder(Re.headers(s), s) {
      HeadersInOrder(s);
    }
    forall s ensures WholeGroups(Re.codes(s), s) {
      CodesWhole(s);
    }
    forall s ensures AllRecords(Re.records(s)) {
      RecordsShaped(s);
    }
  }

  // ---------------------------------------------------------------------------
  // Line repair
  // ---------------------------------------------------------------------------

  /**
   * Where a line is cut in two: when the line holds two course codes or more, at the
   * first occurrence of the second code's text, which is never after that code.
   */
  function SplitPoint(re: Searches, line: string): (k: Option<nat>)
    requires SearchesOk(re)
    ensures k.None? <==> |re.codes(line)| < 2
    ensures k.Some? ==> var second := re.codes(line)[1];
      k.value <= second.start && OccursAt(line, second.groups[0], k.value)
      && forall j :: 0 <= j < k.value ==> !OccursAt(line, second.groups[0], j)
  {
    var parts := re.codes(line);
    if |parts| < 2 then None
    else
      var second := parts[1];
      assert OccursAt(line, second.groups[0], second.start);
      Some(Find(line, second.groups[0]) as nat)
  }

  /** The repaired line, each of its pieces followed by "\n". */
  function RepairLine(re: Searches, line: string): (r: string)
    requires SearchesOk(re)
    ensures SplitPoint(re, line).None? ==> r == line + "\n"
    ensures SplitPoint(re, line).Some? ==> var k := SplitPoint(re, line).value;
      k <= |line| && r == line[..k] + "\n" + line[k..] + "\n"
  {
    match SplitPoint(re, line)
    case None => line + "\n"
    case Some(k) => line[..k] + "\n" + line[k..] + "\n"
  }

  /** The repaired lines, one after another. */
  function Cleaned(re: Searches, lines: seq<string>): string
    requires SearchesOk(re)
  {
    if lines == [] then "" else Cleaned(re, lines[..|lines| - 1]) + RepairLine(re, lines[|lines| - 1])
  }

  /** Without the break it inserts, the repaired line is the line followed by "\n". */
  lemma RepairOnlyBreaks(re: Searches, line: string)
    requires SearchesOk(re)
    ensures SplitPoint(re, line).Some? ==> var k := SplitPoint(re, line).value;
      RepairLine(re, line)[..k] + RepairLine(re, line)[k + 1..] == line + "\n"
    ensures SplitPoint(re, line).None? ==> RepairLine(re, line) == line + "\n"
  {
    if SplitPoint(re, line).Some? {
      DeleteBreak(line, SplitPoint(re, line).value);
    }
  }

  lemma DeleteBreak(line: string, k: nat)
    requires k <= |line|
    ensures var r := line[..k] + "\n" + line[k..] + "\n"; r[..k] + r[k + 1..] == line + "\n"
  {
    var r := line[..k] + "\n" + line[k..] + "\n";
    assert r[..k] == line[..k];
    assert r[k + 1..] == line[k..] + "\n";
    assert line[..k] + line[k..] == line;
  }

  /** Cleaning writes lines that hold at most one code back unchanged, each followed by "\n". */
  lemma {:induction false} CleanedUnchanged(re: Searches, lines: seq<string>)
    requires SearchesOk(re)
    requires forall i :: 0 <= i < |lines| ==> |re.codes(lines[i])| < 2
    ensures Cleaned(re, lines) == Terminated(lines)
    decreases |lines|
  {
    if lines != [] {
      var front := lines[..|lines| - 1];
      assert forall i :: 0 <= i < |front| ==> front[i] == lines[i];
      CleanedUnchanged(re, front);
      TerminatedSnoc(front, lines[|lines| - 1]);
      assert front + [lines[|lines| - 1]] == lines;
    }
  }

  lemma {:induction false} TerminatedSnoc(lines: seq<string>, line: string)
    ensures Terminated(lines + [line]) == Terminated(lines) + line + "\n"
    decreases |lines|
  {
    if lines == [] {
      assert [] + [line] == [line];
    } else {
      assert (lines + [line])[1..] == lines[1..] + [line];
      TerminatedSnoc(lines[1..], line);
    }
  }

  /**
   * A term whose only line boundary is "\n" and in which no line holds two codes is
   * cleaned into itself, with a final "\n" added when it lacks one.
   */
  lemma CleanedTerm(re: Searches, body: string)
    requires SearchesOk(re)
    requires forall i :: 0 <= i < |body| && IsLineBreak(body[i]) ==> body[i] == '\n'
    requires forall i :: 0 <= i < |SplitLines(body)| ==> |re.codes(SplitLines(body)[i])| < 2
    ensures Cleaned(re, SplitLines(body)) == if body == [] || body[|body| - 1] == '\n' then body else body + "\n"
  {
    CleanedUnchanged(re, SplitLines(body));
    SplitLinesRoundTrip(body);
  }

  // ---------------------------------------------------------------------------
  // Records
  // ---------------------------------------------------------------------------

  /** The course that the five groups of a record match describe. */
  function ToCourse(g: seq<string>): Course
    requires RecordGroups(g)
  {
    Course(Strip(g[0]), Strip(g[1]), if g[2] != [] then Strip(g[2]) else [],
           if g[3] != [] then CommasToDots(g[3]) else [], DigitsValue(g[4]))
  }

  /** Neither a line break nor whitespace at either end. */
  predicate NoBreakOrEnds(t: string) {
    (forall i :: 0 <= i < |t| ==> t[i] != '\n') && (t == [] || (!IsSpace(t[0]) && !IsSpace(t[|t| - 1])))
  }

  /**
   * A course as the record pattern admits it: a course code, a name with neither a line
   * break nor surrounding spaces, a grade or none, and a grade point of digits and dots.
   */
  ghost predicate WellFormed(c: Course) {
    IsCodeToken(c.code) && NoBreakOrEnds(c.name) && (c.grade == [] || IsGradeToken(c.grade))
    && forall i :: 0 <= i < |c.gradePoint| ==> IsDigit(c.gradePoint[i]) || c.gradePoint[i] == '.'
  }

  /**
   * The course of a record match keeps the code and the grade as matched, strips the
   * name, reads the comma of the grade point as a dot and the credits as a number.
   */
  lemma CourseOfRecord(g: seq<string>)
    requires RecordGroups(g)
    ensures var c := ToCourse(g);
      WellFormed(c) && c.code == g[0] && c.name == Strip(g[1]) && c.grade == g[2]
      && c.gradePoint == CommasToDots(g[3]) && c.credit == DigitsValue(g[4])
  {
    CodeHasNoSpaceEnds(g[0]);
    StripDot(g[1]);
    if g[2] != [] {
      GradeHasNoSpaceEnds(g[2]);
    }
    if g[3] == [] {
      assert |CommasToDots(g[3])| == 0;
    }
    PointDigitsAndDots(g[3]);
  }

  /** A grade point of digits and commas reads as digits and dots. */
  lemma PointDigitsAndDots(t: string)
    requires AllIn(PointChar, t)
    ensures forall i :: 0 <= i < |CommasToDots(t)| ==> IsDigit(CommasToDots(t)[i]) || CommasToDots(t)[i] == '.'
  {
    forall i | 0 <= i < |CommasToDots(t)|
      ensures IsDigit(CommasToDots(t)[i]) || CommasToDots(t)[i] == '.'
    {
      assert InClass(PointChar, t[i]);
    }
  }

  lemma CodeHasNoSpaceEnds(t: string)
    requires IsCodeToken(t)
    ensures Strip(t) == t
  {
    var i: nat, j: nat :| CodeShape(t, i, j);
    assert !IsSpace(t[|t| - 1]);
    if i > 0 { assert IsDigit(t[0]); } else { assert IsCodeLetter(t[0]); }
  }

  lemma GradeHasNoSpaceEnds(t: string)
    requires IsGradeToken(t)
    ensures Strip(t) == t
  {
  }

  /** Stripping a name that holds no "\n" leaves a name without breaks and without surrounding spaces. */
  lemma StripDot(t: string)
    requires AllIn(Dot, t)
    ensures NoBreakOrEnds(Strip(t))
  {
    var r := Strip(t);
    var a :| 0 <= a <= |t| && OccursAt(t, r, a);
    forall i | 0 <= i < |r| ensures r[i] != '\n' {
      assert r[i] == t[a + i];
    }
  }

  /** The first `k` record matches become courses, in order. */
  function CoursesOf(ms: seq<Match>, k: nat): (cs: seq<Course>)
    requires AllRecords(ms) && k <= |ms|
    ensures |cs| == k
  {
    if k == 0 then [] else CoursesOf(ms, k - 1) + [ToCourse(ms[k - 1].groups)]
  }

  /** The `i`-th course is built from the `i`-th record match. */
  lemma {:induction false} CoursesOfAt(ms: seq<Match>, k: nat, i: nat)
    requires AllRecords(ms) && i < k <= |ms|
    ensures CoursesOf(ms, k)[i] == ToCourse(ms[i].groups)
    decreases k
  {
    if i < k - 1 {
      CoursesOfAt(ms, k - 1, i);
    }
  }

  /** The record matches become courses, in order. */
  function ToCourses(ms: seq<Match>): seq<Course>
    requires AllRecords(ms)
  {
    CoursesOf(ms, |ms|)
  }

  /** The courses of one term: the record matches of its repaired text, in match order. */
  function TermCourses(re: Searches, body: string): seq<Course>
    requires SearchesOk(re)
  {
    ToCourses(re.records(Cleaned(re, SplitLines(body))))
  }

  // ---------------------------------------------------------------------------
  // Terms
  // ---------------------------------------------------------------------------

  /**
   * The text of term `i`: from the end of its header to the start of the next header,
   * or to the end of the text; it never reaches back before its own header.
   */
  function Segment(re: Searches, text: string, i: nat): (body: string)
    requires SearchesOk(re) && i < |re.headers(text)|
    ensures var hs := re.headers(text);
      OccursAt(text, body, hs[i].end) && hs[0].end <= hs[i].end
      && hs[i].end + |body| == if i + 1 < |hs| then hs[i + 1].start else |text|
  {
    var hs := re.headers(text);
    HeadersAfterFirst(hs, text, i);
    var end := if i + 1 < |hs| then hs[i + 1].start else |text|;
    text[hs[i].end..end]
  }

  /** Later headers end after the first one. */
  lemma {:induction false} HeadersAfterFirst(hs: seq<Match>, text: string, i: nat)
    requires InOrder(hs, text) && i < |hs|
    ensures hs[0].end <= hs[i].end
    decreases i
  {
    if i > 0 {
      HeadersAfterFirst(hs, text, i - 1);
    }
  }

  /** The courses of the first `i` terms, term after term. */
  function CoursesUpTo(re: Searches, text: string, i: nat): seq<Course>
    requires SearchesOk(re) && i <= |re.headers(text)|
  {
    if i == 0 then [] else CoursesUpTo(re, text, i - 1) + TermCourses(re, Segment(re, text, i - 1))
  }

  /** What `parse_courses` returns for `text`. */
  function Courses(re: Searches, text: string): seq<Course>
    requires SearchesOk(re)
  {
    CoursesUpTo(re, text, |re.headers(text)|)
  }

  // ---------------------------------------------------------------------------
  // The parser
  // ---------------------------------------------------------------------------

  /** One step of the line-repair loop: the line, cut before a second code when it has one, with its breaks. */
  method RepairStep(re: Searches, line: string) returns (piece: string)
    requires SearchesOk(re)
    ensures piece == RepairLine(re, line)
  {
    var parts := re.codes(line);
    if |parts| >= 2 {
      RepairAt(re, line);
      var secondCode := parts[1].groups[0];
      var index := Find(line, secondCode);
      piece := line[..index] + "\n" + line[index..] + "\n";
    } else {
      piece := line + "\n";
    }
  }

  /** The line-repair loop of `parse_courses` over the text of one term. */
  method CleanTerm(re: Searches, donemText: string) returns (cleaned: string)
    requires SearchesOk(re)
    ensures cleaned == Cleaned(re, SplitLines(donemText))
  {
    var lines := SplitLines(donemText);
    cleaned := "";
    var j := 0;
    while j < |lines|
      invariant 0 <= j <= |lines|
      invariant cleaned == Cleaned(re, lines[..j])
    {
      CleanedSnoc(re, lines, j);
      var piece := RepairStep(re, lines[j]);
      cleaned := cleaned + piece;
      j := j + 1;
    }
    assert lines[..j] == lines;
  }

  /** The repaired text of one more line is the repaired text so far and the repaired line. */
  lemma CleanedSnoc(re: Searches, lines: seq<string>, j: nat)
    requires SearchesOk(re) && j < |lines|
    ensures Cleaned(re, lines[..j + 1]) == Cleaned(re, lines[..j]) + RepairLine(re, lines[j])
  {
    assert lines[..j + 1][..j] == lines[..j];
  }

  /** A line with two codes or more is cut where `find` puts the second code's text. */
  lemma RepairAt(re: Searches, line: string)
    requires SearchesOk(re) && |re.codes(line)| >= 2
    ensures |re.codes(line)[1].groups| == 1
    ensures var i := Find(line, re.codes(line)[1].groups[0]);
      0 <= i <= |line| && RepairLine(re, line) == line[..i] + "\n" + line[i..] + "\n"
  {
    CodeAt(re, line, 1);
    var m := re.codes(line)[1];
    assert OccursAt(line, m.groups[0], m.start);
  }

  /** A code match's only group is its own text. */
  lemma CodeAt(re: Searches, line: string, i: nat)
    requires SearchesOk(re) && i < |re.codes(line)|
    ensures var m := re.codes(line)[i]; m.start <= m.end <= |line| && m.groups == [line[m.start..m.end]]
  {
    assert WholeGroups(re.codes(line), line);
  }

  /** The record loop of `parse_courses`: one course per record match of the repaired text. */
  method TermRecords(re: Searches, cleaned: string) returns (dersler: seq<Course>)
    requires SearchesOk(re)
    ensures dersler == ToCourses(re.records(cleaned))
  {
    var records := re.records(cleaned);
    dersler := [];
    var k := 0;
    while k < |records|
      invariant 0 <= k <= |records|
      invariant dersler == CoursesOf(records, k)
    {
      dersler := dersler + [ToCourse(records[k].groups)];
      k := k + 1;
    }
  }

  /** `parse_courses` over the given searches: the courses of every term, in the order of the terms. */
  method ParseCourses(re: Searches, text: string) returns (dersler: seq<Course>)
    requires SearchesOk(re)
    ensures dersler == Courses(re, text)
  {
    dersler := [];
    var donemler := re.headers(text);
    var i := 0;
    while i < |donemler|
      invariant 0 <= i <= |donemler|
      invariant dersler == CoursesUpTo(re, text, i)
    {
      var termCourses := ParseTerm(re, text, i);
      dersler := dersler + termCourses;
      i := i + 1;
    }
  }

  /** One step of the term loop of `parse_courses`: the courses of term `i`. */
  method ParseTerm(re: Searches, text: string, i: nat) returns (termCourses: seq<Course>)
    requires SearchesOk(re) && i < |re.headers(text)|
    ensures termCourses == TermCourses(re, Segment(re, text, i))
  {
    var donemler := re.headers(text);
    var start := donemler[i].end;
    var end := if i + 1 < |donemler| then donemler[i + 1].start else |text|;
    var donemText := text[start..end];
    assert donemText == Segment(re, text, i);
    var cleaned := CleanTerm(re, donemText);
    termCourses := TermRecords(re, cleaned);
  }

  // ---------------------------------------------------------------------------
  // Properties
  // ---------------------------------------------------------------------------

  /** A text without a term header yields no courses. */
  lemma NoHeaderNoCourses(text: string)
    requires forall q :: 0 <= q <= |text| ==> MatchAt(TermHeader, text, q).None?
    ensures SearchesOk(Re) && Courses(Re, text) == []
  {
    ReOk();
    FindAllEmpty(TermHeader, text);
    assert Re.headers(text) == [];
  }

  /** Every course of one term is well formed. */
  lemma TermCoursesShaped(re: Searches, body: string)
    requires SearchesOk(re)
    ensures forall c :: c in TermCourses(re, body) ==> WellFormed(c)
  {
    var ms := re.records(Cleaned(re, SplitLines(body)));
    var cs := ToCourses(ms);
    assert TermCourses(re, body) == cs;
    forall c | c in cs ensures WellFormed(c) {
      var k :| 0 <= k < |cs| && cs[k] == c;
      CoursesOfAt(ms, |ms|, k);
      CourseOfRecord(ms[k].groups);
    }
  }

  /** Every course of the first `i` terms is well formed. */
  lemma {:induction false} CoursesUpToShaped(re: Searches, text: string, i: nat)
    requires SearchesOk(re) && i <= |re.headers(text)|
    ensures forall c :: c in CoursesUpTo(re, text, i) ==> WellFormed(c)
    decreases i
  {
    if i > 0 {
      CoursesUpToShaped(re, text, i - 1);
      TermCoursesShaped(re, Segment(re, text, i - 1));
    }
  }

  /** Every course `parse_courses` returns is well formed. */
  lemma CoursesShaped(re: Searches, text: string)
    requires SearchesOk(re)
    ensures forall c :: c in Courses(re, text) ==> WellFormed(c)
  {
    CoursesUpToShaped(re, text, |re.headers(text)|);
  }
}
