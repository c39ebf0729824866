/**
 * The three regular expressions of `parse_courses`, written as item sequences for the
 * backtracking matcher, and the left-to-right scan that `re.finditer` and
 * `re.findall` perform with them.
 */
module Patterns {
  import opened Wrappers
  import opened Text
  import opened Matcher

  /** A match of one of the patterns: its span and its capture groups. */
  datatype Match = Match(start: nat, end: nat, groups: seq<string>)

  /** The patterns `parse_courses` runs: term header, course code, course record. */
  datatype Pattern = TermHeader | CourseCode | CourseRecord

  /** `\s+` */
  const Gap: Item := Repeat(Space, 1, None, true)

  /** `\d+\.\s*\d{4}\s*-\s*\d{4}\s+(Güz|Bahar)\s+Dönemi` */
  const HeaderItems: seq<Item> := [
    Repeat(Digit, 1, None, true), OneOf(["."], false), Repeat(Space, 0, None, true),
    Repeat(Digit, 4, Some(4), true), Repeat(Space, 0, None, true), OneOf(["-"], false),
    Repeat(Space, 0, None, true), Repeat(Digit, 4, Some(4), true), Gap,
    OneOf(["Güz", "Bahar"], false), Gap, OneOf(["Dönemi"], false)]

  /** `\d*[A-ZÇĞİÖŞÜ]{3,}\d{5,7}` */
  const CodeItems: seq<Item> := [
    Repeat(Digit, 0, None, true), Repeat(CodeLetter, 3, None, true), Repeat(Digit, 5, Some(7), true)]

  /**
   * The alternatives of the grade group `[A-F][\+\-]?|G\+|G\-`, in the order the engine
   * tries them: a letter with its sign before the bare letter; a bare "G" is not a grade.
   */
  const GradeWords: seq<string> := [
    "A+", "A-", "A", "B+", "B-", "B", "C+", "C-", "C", "D+", "D-", "D",
    "E+", "E-", "E", "F+", "F-", "F", "G+", "G-"]

  /** A grade as the alternatives describe it: a letter A to F with an optional sign, or G with a sign. */
  predicate IsGradeToken(t: string) {
    (|t| == 1 && 'A' <= t[0] <= 'F')
    || (|t| == 2 && ('A' <= t[0] <= 'G') && (t[1] == '+' || t[1] == '-'))
  }

  /** The listed alternatives are exactly the grades. */
  lemma GradeWordsExact(t: string)
    ensures t in GradeWords <==> IsGradeToken(t)
  {
    if IsGradeToken(t) {
      if |t| == 1 {
        assert t == [t[0]];
      } else {
        assert t == [t[0], t[1]];
      }
    }
  }

  /** `(code)\s+(.+?)\s+(grade)?\s+([\d,]*)\s+(\d+)`; the groups end at offsets 2, 4, 6, 8 and 10. */
  const RecordItems: seq<Item> := [
    Repeat(Digit, 0, None, true), Repeat(CodeLetter, 3, None, true), Repeat(Digit, 5, Some(7), true),
    Gap, Repeat(Dot, 1, None, false), Gap, OneOf(GradeWords, true),
    Gap, Repeat(PointChar, 0, None, true), Gap, Repeat(Digit, 1, None, true)]

  function Items(pat: Pattern): seq<Item> {
    match pat
    case TermHeader => HeaderItems
    case CourseCode => CodeItems
    case CourseRecord => RecordItems
  }

  /** The digits, letters and digits of a course code, split at `i` and `j`. */
  predicate CodeShape(t: string, i: nat, j: nat) {
    AllInRange(Digit, t, 0, i) && AllInRange(CodeLetter, t, i, j) && i + 3 <= j
    && AllInRange(Digit, t, j, |t|) && j + 5 <= |t| <= j + 7
  }

  /** The whole of `t` matches the course-code pattern. */
  ghost predicate IsCodeToken(t: string) {
    exists i: nat, j: nat :: CodeShape(t, i, j)
  }

  /** The five groups of a course-record match. */
  ghost predicate RecordGroups(groups: seq<string>) {
    |groups| == 5 && IsCodeToken(groups[0]) && groups[1] != [] && AllIn(Dot, groups[1])
    && (groups[2] == [] || IsGradeToken(groups[2])) && AllIn(PointChar, groups[3])
    && groups[4] != [] && AllIn(Digit, groups[4])
  }

  /** The groups of the match `ends` of `pat` at `p`: the whole match, or the five of a record. */
  function GroupsOf(pat: Pattern, s: string, p: nat, ends: seq<nat>): seq<string>
    requires |ends| == |Items(pat)| && Ordered(s, p, ends)
  {
    assert p <= ends[|ends| - 1] <= |s|;
    if pat == CourseRecord then
      assert p <= ends[2] && ends[3] <= ends[4] <= |s| && ends[5] <= ends[6] <= |s|;
      assert ends[7] <= ends[8] <= |s| && ends[9] <= ends[10] <= |s|;
      [s[p..ends[2]], s[ends[3]..ends[4]], s[ends[5]..ends[6]], s[ends[7]..ends[8]], s[ends[9]..ends[10]]]
    else [s[p..ends[|ends| - 1]]]
  }

  /** Digits, letters and digits, from `p` to `e0`, `e1` and `e2`, form a course code. */
  lemma CodePieces(s: string, p: nat, e0: nat, e1: nat, e2: nat)
    requires ItemOk(Repeat(Digit, 0, None, true), s, p, e0)
    requires ItemOk(Repeat(CodeLetter, 3, None, true), s, e0, e1)
    requires ItemOk(Repeat(Digit, 5, Some(7), true), s, e1, e2)
    ensures IsCodeToken(s[p..e2])
  {
    RangeOfSlice(Digit, s, p, e2, 0, e0 - p);
    RangeOfSlice(CodeLetter, s, p, e2, e0 - p, e1 - p);
    RangeOfSlice(Digit, s, p, e2, e1 - p, e2 - p);
    assert CodeShape(s[p..e2], e0 - p, e1 - p);
  }

  /** A stretch of class `k` is a string of that class. */
  lemma RangePiece(k: CharClass, s: string, i: nat, j: nat)
    requires AllInRange(k, s, i, j)
    ensures AllIn(k, s[i..j])
  {
    RangeOfSlice(k, s, i, j, 0, j - i);
  }

  /** The optional grade group covers a grade or nothing. */
  lemma GradePiece(s: string, i: nat, j: nat)
    requires ItemOk(OneOf(GradeWords, true), s, i, j)
    ensures s[i..j] == [] || IsGradeToken(s[i..j])
  {
    if i < j {
      var w :| 0 <= w < |GradeWords| && j == i + |GradeWords[w]| && OccursAt(s, GradeWords[w], i);
      assert s[i..j] == GradeWords[w];
      GradeWordsExact(s[i..j]);
    }
  }

  /** The groups of a record match have the shapes their sub-patterns allow. */
  lemma RecordPieces(s: string, p: nat, ends: seq<nat>)
    requires Fits(RecordItems, s, p, ends) && Ordered(s, p, ends)
    ensures RecordGroups(GroupsOf(CourseRecord, s, p, ends))
  {
    FitsPieces(RecordItems, s, p, ends);
    var e := ends;
    assert ItemOk(RecordItems[0], s, p, e[0]);
    assert ItemOk(RecordItems[1], s, e[0], e[1]);
    assert ItemOk(RecordItems[2], s, e[1], e[2]);
    CodePieces(s, p, e[0], e[1], e[2]);
    assert ItemOk(RecordItems[4], s, e[3], e[4]);
    RangePiece(Dot, s, e[3], e[4]);
    assert ItemOk(RecordItems[6], s, e[5], e[6]);
    GradePiece(s, e[5], e[6]);
    assert ItemOk(RecordItems[8], s, e[7], e[8]);
    RangePiece(PointChar, s, e[7], e[8]);
    assert ItemOk(RecordItems[10], s, e[9], e[10]);
    RangePiece(Digit, s, e[9], e[10]);
  }

  /** Every pattern takes at least one character, so every match ends after it starts. */
  lemma MatchNotEmpty(pat: Pattern, s: string, p: nat, ends: seq<nat>)
    requires Fits(Items(pat), s, p, ends) && Ordered(s, p, ends)
    ensures p < ends[|ends| - 1]
  {
    FitsPieces(Items(pat), s, p, ends);
    assert ItemOk(Items(pat)[0], s, p, ends[0]);
    if pat != TermHeader {
      assert ItemOk(Items(pat)[1], s, ends[0], ends[1]);
    }
  }

  /** The match that the fitting `ends` of `pat` at `p` describe. */
  function MatchOf(pat: Pattern, s: string, p: nat, ends: seq<nat>): (m: Match)
    requires Fits(Items(pat), s, p, ends)
    ensures m.start == p < m.end <= |s| && m.end == ends[|ends| - 1]
    ensures pat == CourseRecord ==> RecordGroups(m.groups)
    ensures pat != CourseRecord ==> m.groups == [s[p..m.end]]
  {
    FitsOrdered(Items(pat), s, p, ends);
    MatchNotEmpty(pat, s, p, ends);
    if pat == CourseRecord then
      RecordPieces(s, p, ends);
      Match(p, ends[|ends| - 1], GroupsOf(pat, s, p, ends))
    else Match(p, ends[|ends| - 1], GroupsOf(pat, s, p, ends))
  }

  /** The match of `pat` that the regex engine reports when it tries offset `p`. */
  function MatchAt(pat: Pattern, s: string, p: nat): (r: Option<Match>)
    requires p <= |s|
    ensures r.Some? ==> r.value.start == p < r.value.end <= |s|
    ensures r.Some? && pat != CourseRecord ==> r.value.groups == [s[p..r.value.end]]
  {
    match Run(Items(pat), s, p)
    case None => None
    case Some(ends) =>
      RunSound(Items(pat), s, p);
      Some(MatchOf(pat, s, p, ends))
  }

  /** The groups of a reported record match have the shapes their sub-patterns allow. */
  lemma MatchAtGroups(s: string, p: nat)
    requires p <= |s| && MatchAt(CourseRecord, s, p).Some?
    ensures RecordGroups(MatchAt(CourseRecord, s, p).value.groups)
  {
  }

  /** There is a match at `p` exactly when the pattern can match there. */
  lemma MatchAtExact(pat: Pattern, s: string, p: nat)
    requires p <= |s|
    ensures MatchAt(pat, s, p).Some? <==> exists ends :: Fits(Items(pat), s, p, ends)
  {
    match Run(Items(pat), s, p)
    case Some(ends) =>
      RunSound(Items(pat), s, p);
      assert MatchAt(pat, s, p) == Some(MatchOf(pat, s, p, ends));
      assert exists e :: Fits(Items(pat), s, p, e);
    case None =>
      assert MatchAt(pat, s, p) == None;
      forall e | Fits(Items(pat), s, p, e) ensures false {
        RunFirst(Items(pat), s, p, e);
      }
  }

  /** The match reported at `p` is the first one in the order in which the engine tries them. */
  lemma MatchAtFirst(pat: Pattern, s: string, p: nat)
    requires p <= |s| && MatchAt(pat, s, p).Some?
    ensures exists ends :: First(Items(pat), s, p, ends) && MatchAt(pat, s, p) == Some(MatchOf(pat, s, p, ends))
  {
    var ends := Run(Items(pat), s, p).value;
    RunIsFirst(Items(pat), s, p);
    assert First(Items(pat), s, p, ends);
  }

  // The scan

  /** A matcher that reports, at each offset up to `n`, a match that starts there and ends after it. */
  ghost predicate Proper(f: nat -> Option<Match>, n: nat) {
    forall q: nat :: q <= n && f(q).Some? ==> f(q).value.start == q < f(q).value.end <= n
  }

  /**
   * `re.finditer` from offset `p` of a text `n` long, with `f` the match at each
   * offset: try every offset from left to right and resume after each match.
   */
  function Scan(f: nat -> Option<Match>, n: nat, p: nat): (ms: seq<Match>)
    requires p <= n && Proper(f, n)
    ensures forall i :: 0 <= i < |ms| ==> p <= ms[i].start < ms[i].end <= n
    ensures forall i :: 0 <= i < |ms| - 1 ==> ms[i].end <= ms[i + 1].start
    decreases n - p
  {
    if p == n then []
    else
      match f(p)
      case Some(m) => [m] + Scan(f, n, m.end)
      case None => Scan(f, n, p + 1)
  }

  /** Every match the scan reports is the one `f` reports at its start. */
  lemma {:induction false} ScanReports(f: nat -> Option<Match>, n: nat, p: nat, i: nat)
    requires p <= n && Proper(f, n) && i < |Scan(f, n, p)|
    ensures f(Scan(f, n, p)[i].start) == Some(Scan(f, n, p)[i])
    decreases n - p
  {
    match f(p)
    case Some(m) =>
      if i > 0 {
        ScanReports(f, n, m.end, i - 1);
        assert Scan(f, n, p)[i] == Scan(f, n, m.end)[i - 1];
      }
    case None =>
      ScanReports(f, n, p + 1, i);
  }

  /** Every offset at which `f` reports a match lies within a match the scan reports. */
  lemma {:induction false} ScanCovers(f: nat -> Option<Match>, n: nat, p: nat, q: nat)
    requires p <= q <= n && Proper(f, n) && f(q).Some?
    ensures exists i :: 0 <= i < |Scan(f, n, p)| && Scan(f, n, p)[i].start <= q < Scan(f, n, p)[i].end
    decreases n - p
  {
    if p < n {
      match f(p)
      case Some(m) =>
        if m.end <= q {
          ScanCovers(f, n, m.end, q);
        }
        CoverCons(m, Scan(f, n, m.end), q);
        assert Scan(f, n, p) == [m] + Scan(f, n, m.end);
      case None =>
        assert p != q;
        ScanCovers(f, n, p + 1, q);
        assert Scan(f, n, p) == Scan(f, n, p + 1);
    }
  }

  /** A match before matches that cover `q`, or a match that covers `q` itself, gives matches that cover `q`. */
  lemma CoverCons(m: Match, rest: seq<Match>, q: nat)
    requires (m.start <= q < m.end) || exists i :: 0 <= i < |rest| && rest[i].start <= q < rest[i].end
    ensures exists i :: 0 <= i < |[m] + rest| && ([m] + rest)[i].start <= q < ([m] + rest)[i].end
  {
    if !(m.start <= q < m.end) {
      var i :| 0 <= i < |rest| && rest[i].start <= q < rest[i].end;
      assert ([m] + rest)[i + 1] == rest[i];
    } else {
      assert ([m] + rest)[0] == m;
    }
  }

  /** The scan from `p` reports nothing exactly when `f` reports nothing at or after `p`. */
  lemma {:induction false} ScanEmpty(f: nat -> Option<Match>, n: nat, p: nat)
    requires p <= n && Proper(f, n)
    ensures Scan(f, n, p) == [] <==> forall q :: p <= q <= n ==> f(q).None?
    decreases n - p
  {
    if p < n {
      match f(p)
      case Some(m) =>
      case None => ScanEmpty(f, n, p + 1);
    }
  }

  /** The match of `pat` that the engine reports at each offset of `s`. */
  function MatcherOf(pat: Pattern, s: string): (f: nat -> Option<Match>)
    ensures Proper(f, |s|)
  {
    (q: nat) => if q <= |s| then MatchAt(pat, s, q) else None
  }

  /** `re.finditer(pat, s)`, and `re.findall` when only the groups are kept. */
  function FindAll(pat: Pattern, s: string): (ms: seq<Match>)
    ensures forall i :: 0 <= i < |ms| ==> ms[i].start < ms[i].end <= |s|
    ensures forall i :: 0 <= i < |ms| - 1 ==> ms[i].end <= ms[i + 1].start
  {
    Scan(MatcherOf(pat, s), |s|, 0)
  }

  /** Every match `FindAll` reports is the match of the pattern at its start. */
  lemma FindAllAt(pat: Pattern, s: string, i: nat)
    requires i < |FindAll(pat, s)|
    ensures MatchAt(pat, s, FindAll(pat, s)[i].start) == Some(FindAll(pat, s)[i])
  {
    var f := MatcherOf(pat, s);
    assert FindAll(pat, s) == Scan(f, |s|, 0);
    ScanReports(f, |s|, 0, i);
  }

  /** `FindAll` skips no match: every offset where the pattern matches lies within a reported match. */
  lemma FindAllCovers(pat: Pattern, s: string, q: nat)
    requires q <= |s| && MatchAt(pat, s, q).Some?
    ensures exists i :: 0 <= i < |FindAll(pat, s)| && FindAll(pat, s)[i].start <= q < FindAll(pat, s)[i].end
  {
    var f := MatcherOf(pat, s);
    assert f(q) == MatchAt(pat, s, q);
    ScanCovers(f, |s|, 0, q);
    assert FindAll(pat, s) == Scan(f, |s|, 0);
  }

  /** `FindAll` finds nothing exactly when the pattern matches at no offset. */
  lemma FindAllEmpty(pat: Pattern, s: string)
    ensures FindAll(pat, s) == [] <==> forall q :: 0 <= q <= |s| ==> MatchAt(pat, s, q).None?
  {
    var f := MatcherOf(pat, s);
    assert forall q :: 0 <= q <= |s| ==> f(q) == MatchAt(pat, s, q);
    ScanEmpty(f, |s|, 0);
    assert FindAll(pat, s) == Scan(f, |s|, 0);
  }
}
