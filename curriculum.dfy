/**
 * The curriculum checks: `zorunlu_ders_kontrolu` sorts every mandatory course into
 * "never taken" or "taken, but failed every time", and `secmeli_ders_kontrolu` reports
 * the elective groups of which too few alternatives were passed. A course of the
 * transcript counts for a name when its own name, lowered, contains the lowered name.
 */
module Curriculum {
  import opened Wrappers
  import opened Text
  import opened Transcript

  /** A course of a curriculum table and its credits. */
  datatype Requirement = Requirement(course: string, credit: nat)

  /** The mandatory courses of one term of the curriculum, in table order. */
  datatype Semester = Semester(name: string, courses: seq<Requirement>)

  /** A `(donem, ders, akts)` triple of the reports. */
  datatype Entry = Entry(term: string, course: string, credit: nat)

  /** A course of the transcript counts for `course`: its lowered name contains the lowered course name. */
  predicate Mentions(row: Course, course: string) {
    Contains(Lower(row.name), Lower(course))
  }

  // ---------------------------------------------------------------------------
  // Mandatory courses
  // ---------------------------------------------------------------------------

  /** `bulunan`: the rows that count for `course`, in row order. */
  function Found(rows: seq<Course>, course: string): seq<Course> {
    if rows == [] then []
    else Found(rows[..|rows| - 1], course) + if Mentions(rows[|rows| - 1], course) then [rows[|rows| - 1]] else []
  }

  /** The rows of `bulunan` are exactly the rows that count for `course`. */
  lemma {:induction false} FoundMember(rows: seq<Course>, course: string, x: Course)
    ensures x in Found(rows, course) <==> x in rows && Mentions(x, course)
    decreases |rows|
  {
    if rows != [] {
      var front := rows[..|rows| - 1];
      FoundMember(front, course, x);
      assert rows == front + [rows[|rows| - 1]];
    }
  }

  /** Every grade is "F". */
  predicate AllF(rows: seq<Course>) {
    forall i :: 0 <= i < |rows| ==> rows[i].grade == "F"
  }

  /** The triples of one term, in table order. */
  function SemesterEntries(term: string, reqs: seq<Requirement>): seq<Entry> {
    if reqs == [] then []
    else SemesterEntries(term, reqs[..|reqs| - 1]) + [Entry(term, reqs[|reqs| - 1].course, reqs[|reqs| - 1].credit)]
  }

  /** The triples of all terms, term after term. */
  function Entries(sems: seq<Semester>): seq<Entry> {
    if sems == [] then [] else Entries(sems[..|sems| - 1]) + SemesterEntries(sems[|sems| - 1].name, sems[|sems| - 1].courses)
  }

  /** The triples for which no row counts: `alinmamis`. */
  function NotTaken(rows: seq<Course>, es: seq<Entry>): seq<Entry> {
    if es == [] then []
    else NotTaken(rows, es[..|es| - 1]) + if Found(rows, es[|es| - 1].course) == [] then [es[|es| - 1]] else []
  }

  /** The triples for which some row counts and every such row is graded "F": `basarisiz`. */
  function AllFailed(rows: seq<Course>, es: seq<Entry>): seq<Entry> {
    if es == [] then []
    else
      var f := Found(rows, es[|es| - 1].course);
      AllFailed(rows, es[..|es| - 1]) + if f != [] && AllF(f) then [es[|es| - 1]] else []
  }

  lemma NotTakenSnoc(rows: seq<Course>, es: seq<Entry>, e: Entry)
    ensures NotTaken(rows, es + [e]) == NotTaken(rows, es) + if Found(rows, e.course) == [] then [e] else []
  {
    assert (es + [e])[..|es|] == es;
  }

  lemma AllFailedSnoc(rows: seq<Course>, es: seq<Entry>, e: Entry)
    ensures var f := Found(rows, e.course);
      AllFailed(rows, es + [e]) == AllFailed(rows, es) + if f != [] && AllF(f) then [e] else []
  {
    assert (es + [e])[..|es|] == es;
  }

  /** The body of the inner loop of `zorunlu_ders_kontrolu`: the triple goes to at most one of the two lists. */
  method CheckCourse(rows: seq<Course>, e: Entry, alinmamis0: seq<Entry>, basarisiz0: seq<Entry>)
    returns (alinmamis: seq<Entry>, basarisiz: seq<Entry>)
    ensures alinmamis == alinmamis0 + if Found(rows, e.course) == [] then [e] else []
    ensures basarisiz == basarisiz0 + if Found(rows, e.course) != [] && AllF(Found(rows, e.course)) then [e] else []
  {
    alinmamis, basarisiz := alinmamis0, basarisiz0;
    var bulunan := Found(rows, e.course);
    if bulunan == [] {
      alinmamis := alinmamis + [e];
    } else if AllF(bulunan) {
      basarisiz := basarisiz + [e];
    }
  }

  /**
   * The inner loop of `zorunlu_ders_kontrolu` over the courses of one term, appending
   * to the lists built so far for the triples `done` of the earlier terms.
   */
  method CheckSemester(rows: seq<Course>, sem: Semester, ghost done: seq<Entry>, alinmamis0: seq<Entry>, basarisiz0: seq<Entry>)
    returns (alinmamis: seq<Entry>, basarisiz: seq<Entry>)
    requires alinmamis0 == NotTaken(rows, done) && basarisiz0 == AllFailed(rows, done)
    ensures alinmamis == NotTaken(rows, done + SemesterEntries(sem.name, sem.courses))
    ensures basarisiz == AllFailed(rows, done + SemesterEntries(sem.name, sem.courses))
  {
    alinmamis, basarisiz := alinmamis0, basarisiz0;
    ghost var es := done;
    var j := 0;
    while j < |sem.courses|
      invariant 0 <= j <= |sem.courses|
      invariant es == done + SemesterEntries(sem.name, sem.courses[..j])
      invariant alinmamis == NotTaken(rows, es) && basarisiz == AllFailed(rows, es)
    {
      var e := Entry(sem.name, sem.courses[j].course, sem.courses[j].credit);
      NotTakenSnoc(rows, es, e);
      AllFailedSnoc(rows, es, e);
      alinmamis, basarisiz := CheckCourse(rows, e, alinmamis, basarisiz);
      SemesterEntriesSnoc(sem, j);
      es := es + [e];
      j := j + 1;
    }
    assert sem.courses[..j] == sem.courses;
  }

  lemma SemesterEntriesSnoc(sem: Semester, j: nat)
    requires j < |sem.courses|
    ensures SemesterEntries(sem.name, sem.courses[..j + 1])
      == SemesterEntries(sem.name, sem.courses[..j]) + [Entry(sem.name, sem.courses[j].course, sem.courses[j].credit)]
  {
    assert sem.courses[..j + 1][..j] == sem.courses[..j];
  }

  /** `zorunlu_ders_kontrolu(df, zorunlu_dersler)` */
  method CheckMandatory(rows: seq<Course>, sems: seq<Semester>) returns (alinmamis: seq<Entry>, basarisiz: seq<Entry>)
    ensures alinmamis == NotTaken(rows, Entries(sems))
    ensures basarisiz == AllFailed(rows, Entries(sems))
  {
    alinmamis, basarisiz := [], [];
    var i := 0;
    while i < |sems|
      invariant 0 <= i <= |sems|
      invariant alinmamis == NotTaken(rows, Entries(sems[..i]))
      invariant basarisiz == AllFailed(rows, Entries(sems[..i]))
    {
      alinmamis, basarisiz := CheckSemester(rows, sems[i], Entries(sems[..i]), alinmamis, basarisiz);
      assert sems[..i + 1][..i] == sems[..i];
      i := i + 1;
    }
    assert sems[..i] == sems;
  }

  /** A triple is reported as never taken exactly when no row of the transcript counts for it. */
  lemma {:induction false} NotTakenMember(rows: seq<Course>, es: seq<Entry>, e: Entry)
    ensures e in NotTaken(rows, es) <==> e in es && forall x :: x in rows ==> !Mentions(x, e.course)
    decreases |es|
  {
    if es != [] {
      var front := es[..|es| - 1];
      NotTakenMember(rows, front, e);
      assert es == front + [es[|es| - 1]];
      var f := Found(rows, e.course);
      if f != [] {
        FoundMember(rows, e.course, f[0]);
      } else {
        forall x | x in rows ensures !Mentions(x, e.course) { FoundMember(rows, e.course, x); }
      }
    }
  }

  /**
   * A triple is reported as failed exactly when some row counts for it and every row
   * that counts for it is graded "F".
   */
  lemma AllFailedMember(rows: seq<Course>, es: seq<Entry>, e: Entry)
    ensures e in AllFailed(rows, es) <==>
      e in es && (exists x :: x in rows && Mentions(x, e.course))
      && forall x :: x in rows && Mentions(x, e.course) ==> x.grade == "F"
  {
    AllFailedIn(rows, es, e);
    FailedOnly(rows, e.course);
  }

  /** A triple is reported as failed exactly when it is listed and its `bulunan` is non-empty and all "F". */
  lemma {:induction false} AllFailedIn(rows: seq<Course>, es: seq<Entry>, e: Entry)
    ensures e in AllFailed(rows, es) <==> e in es && Found(rows, e.course) != [] && AllF(Found(rows, e.course))
    decreases |es|
  {
    if es != [] {
      var front := es[..|es| - 1];
      AllFailedIn(rows, front, e);
      assert es == front + [es[|es| - 1]];
    }
  }

  /** `bulunan` is non-empty and all "F" exactly when some row counts for the course and every such row is graded "F". */
  lemma FailedOnly(rows: seq<Course>, course: string)
    ensures var f := Found(rows, course);
      f != [] && AllF(f) <==>
      (exists x :: x in rows && Mentions(x, course)) && forall x :: x in rows && Mentions(x, course) ==> x.grade == "F"
  {
    var f := Found(rows, course);
    if f != [] {
      FoundMember(rows, course, f[0]);
    } else {
      forall x | x in rows ensures !Mentions(x, course) { FoundMember(rows, course, x); }
    }
    if AllF(f) {
      forall x | x in rows && Mentions(x, course) ensures x.grade == "F" {
        FoundMember(rows, course, x);
        var k :| 0 <= k < |f| && f[k] == x;
      }
    } else {
      var k :| 0 <= k < |f| && f[k].grade != "F";
      FoundMember(rows, course, f[k]);
    }
  }

  /** No triple is reported both as never taken and as failed. */
  lemma MandatoryDisjoint(rows: seq<Course>, es: seq<Entry>, e: Entry)
    ensures !(e in NotTaken(rows, es) && e in AllFailed(rows, es))
  {
    NotTakenMember(rows, es, e);
    AllFailedMember(rows, es, e);
  }

  /**
   * Neither report lists anything exactly when every mandatory course has a row that
   * counts for it and is not graded "F".
   */
  lemma MandatoryMet(rows: seq<Course>, es: seq<Entry>)
    ensures NotTaken(rows, es) == [] && AllFailed(rows, es) == [] <==>
      forall e :: e in es ==> exists x :: x in rows && Mentions(x, e.course) && x.grade != "F"
  {
    if NotTaken(rows, es) == [] && AllFailed(rows, es) == [] {
      forall e | e in es ensures exists x :: x in rows && Mentions(x, e.course) && x.grade != "F" {
        NotTakenMember(rows, es, e);
        AllFailedMember(rows, es, e);
      }
    }
    if NotTaken(rows, es) != [] {
      NotTakenMember(rows, es, NotTaken(rows, es)[0]);
    }
    if AllFailed(rows, es) != [] {
      AllFailedMember(rows, es, AllFailed(rows, es)[0]);
    }
  }

  // ---------------------------------------------------------------------------
  // Elective groups
  // ---------------------------------------------------------------------------

  /** An elective group: its alternatives and how many of them must be passed. */
  datatype ElectiveGroup = ElectiveGroup(term: string, alternatives: seq<Requirement>, required: int)

  /** A report of `secmeli_ders_kontrolu`: the passed alternatives, the deficit, the requirement and the alternatives. */
  datatype Shortfall = Shortfall(term: string, taken: seq<Requirement>, missing: int, required: int, alternatives: seq<Requirement>)

  /** `df_gecilen`: the rows whose grade is not "F", in row order. */
  function Passed(rows: seq<Course>): seq<Course> {
    if rows == [] then []
    else Passed(rows[..|rows| - 1]) + if rows[|rows| - 1].grade != "F" then [rows[|rows| - 1]] else []
  }

  /** `df_gecilen` holds exactly the rows not graded "F". */
  lemma {:induction false} PassedMember(rows: seq<Course>, x: Course)
    ensures x in Passed(rows) <==> x in rows && x.grade != "F"
    decreases |rows|
  {
    if rows != [] {
      var front := rows[..|rows| - 1];
      PassedMember(front, x);
      assert rows == front + [rows[|rows| - 1]];
    }
  }

  /** `any(ders.lower() in ad.lower() for ad in df_gecilen["Ders Adı"])` */
  predicate TakenIn(passed: seq<Course>, course: string) {
    exists i :: 0 <= i < |passed| && Mentions(passed[i], course)
  }

  /** `alinmis`: the alternatives that a passed row counts for, in table order. */
  function TakenAlternatives(passed: seq<Course>, alts: seq<Requirement>): seq<Requirement> {
    if alts == [] then []
    else
      TakenAlternatives(passed, alts[..|alts| - 1])
      + if TakenIn(passed, alts[|alts| - 1].course) then [alts[|alts| - 1]] else []
  }

  /** `alinmis` holds exactly the alternatives that a passed row counts for. */
  lemma {:induction false} TakenMember(passed: seq<Course>, alts: seq<Requirement>, a: Requirement)
    ensures a in TakenAlternatives(passed, alts) <==> a in alts && TakenIn(passed, a.course)
    decreases |alts|
  {
    if alts != [] {
      var front := alts[..|alts| - 1];
      TakenMember(passed, front, a);
      assert alts == front + [alts[|alts| - 1]];
    }
  }

  /** The report for one group, when fewer alternatives were passed than it requires. */
  function GroupReport(passed: seq<Course>, g: ElectiveGroup): Option<Shortfall> {
    var alinmis := TakenAlternatives(passed, g.alternatives);
    if |alinmis| < g.required then Some(Shortfall(g.term, alinmis, g.required - |alinmis|, g.required, g.alternatives))
    else None
  }

  /** The reports of the groups, in table order, against the passed rows. */
  function ShortfallsOf(passed: seq<Course>, groups: seq<ElectiveGroup>): seq<Shortfall> {
    if groups == [] then []
    else
      var r := GroupReport(passed, groups[|groups| - 1]);
      ShortfallsOf(passed, groups[..|groups| - 1]) + if r.Some? then [r.value] else []
  }

  /** What `secmeli_ders_kontrolu(df, secmeli_sartlar)` returns. */
  function Shortfalls(rows: seq<Course>, groups: seq<ElectiveGroup>): seq<Shortfall> {
    ShortfallsOf(Passed(rows), groups)
  }

  /** The inner loop of `secmeli_ders_kontrolu`: the alternatives a passed row counts for, in table order. */
  method TakenOf(gecilen: seq<Course>, alternatives: seq<Requirement>) returns (alinmis: seq<Requirement>)
    ensures alinmis == TakenAlternatives(gecilen, alternatives)
  {
    alinmis := [];
    var j := 0;
    while j < |alternatives|
      invariant 0 <= j <= |alternatives|
      invariant alinmis == TakenAlternatives(gecilen, alternatives[..j])
    {
      var ders := alternatives[j];
      if TakenIn(gecilen, ders.course) {
        alinmis := alinmis + [ders];
      }
      assert alternatives[..j + 1][..j] == alternatives[..j];
      j := j + 1;
    }
    assert alternatives[..j] == alternatives;
  }

  /** `secmeli_ders_kontrolu(df, secmeli_sartlar)` */
  method CheckElectives(rows: seq<Course>, groups: seq<ElectiveGroup>) returns (eksik: seq<Shortfall>)
    ensures eksik == Shortfalls(rows, groups)
  {
    var gecilen := Passed(rows);
    eksik := [];
    var i := 0;
    while i < |groups|
      invariant 0 <= i <= |groups|
      invariant eksik == ShortfallsOf(gecilen, groups[..i])
    {
      var detay := groups[i];
      var alinmis := TakenOf(gecilen, detay.alternatives);
      if |alinmis| < detay.required {
        eksik := eksik + [Shortfall(detay.term, alinmis, detay.required - |alinmis|, detay.required, detay.alternatives)];
      }
      assert groups[..i + 1][..i] == groups[..i];
      i := i + 1;
    }
    assert groups[..i] == groups;
  }

  /**
   * A group is reported exactly when fewer of its alternatives were passed than it
   * requires, and then with the passed alternatives and a positive deficit.
   */
  lemma GroupReported(passed: seq<Course>, g: ElectiveGroup)
    ensures var r := GroupReport(passed, g); var taken := TakenAlternatives(passed, g.alternatives);
      (r.Some? <==> |taken| < g.required)
      && (r.Some? ==> r.value.taken == taken && r.value.missing == g.required - |taken| > 0
                      && r.value.term == g.term && r.value.required == g.required)
  {
  }

  /** `eksik` holds exactly the reports of the groups that have one. */
  lemma {:induction false} ShortfallsMember(passed: seq<Course>, groups: seq<ElectiveGroup>, s: Shortfall)
    ensures s in ShortfallsOf(passed, groups) <==> exists g :: g in groups && GroupReport(passed, g) == Some(s)
    decreases |groups|
  {
    if groups != [] {
      var front := groups[..|groups| - 1];
      var last := groups[|groups| - 1];
      ShortfallsMember(passed, front, s);
      assert groups == front + [last];
      if s in ShortfallsOf(passed, groups) {
        if s in ShortfallsOf(passed, front) {
          var g :| g in front && GroupReport(passed, g) == Some(s);
          assert g in groups;
        } else {
          assert GroupReport(passed, last) == Some(s);
        }
      }
      if exists g :: g in groups && GroupReport(passed, g) == Some(s) {
        var g :| g in groups && GroupReport(passed, g) == Some(s);
        if g != last {
          assert g in front;
        }
      }
    }
  }

  /** Every report has a positive deficit and lists only alternatives of a passed course. */
  lemma {:induction false} ShortfallsShaped(passed: seq<Course>, groups: seq<ElectiveGroup>)
    ensures forall s :: s in ShortfallsOf(passed, groups) ==>
      s.missing > 0 && s.missing + |s.taken| == s.required
      && forall a :: a in s.taken ==> a in s.alternatives && TakenIn(passed, a.course)
    decreases |groups|
  {
    if groups != [] {
      ShortfallsShaped(passed, groups[..|groups| - 1]);
      var g := groups[|groups| - 1];
      forall a | a in TakenAlternatives(passed, g.alternatives)
        ensures a in g.alternatives && TakenIn(passed, a.course)
      {
        TakenMember(passed, g.alternatives, a);
      }
    }
  }

  /** No group is reported exactly when every group has at least as many passed alternatives as it requires. */
  lemma {:induction false} ElectivesMet(passed: seq<Course>, groups: seq<ElectiveGroup>)
    ensures ShortfallsOf(passed, groups) == [] <==>
      forall g :: g in groups ==> |TakenAlternatives(passed, g.alternatives)| >= g.required
    decreases |groups|
  {
    if groups != [] {
      var front := groups[..|groups| - 1];
      ElectivesMet(passed, front);
      assert groups == front + [groups[|groups| - 1]];
    }
  }

  /** Filtering out the failed rows twice is filtering them out once. */
  lemma {:induction false} PassedIdempotent(rows: seq<Course>)
    ensures Passed(Passed(rows)) == Passed(rows)
    decreases |rows|
  {
    if rows != [] {
      var front := rows[..|rows| - 1];
      PassedIdempotent(front);
      var last := rows[|rows| - 1];
      if last.grade != "F" {
        var p := Passed(front) + [last];
        assert p[..|p| - 1] == Passed(front) && p[|p| - 1] == last;
        assert Passed(rows) == p;
        assert Passed(p) == Passed(Passed(front)) + [last];
      } else {
        assert Passed(rows) == Passed(front);
      }
    }
  }

  /** Only rows not graded "F" count: the reports are those of the passed rows, and a failed row changes nothing. */
  lemma OnlyPassedCount(rows: seq<Course>, groups: seq<ElectiveGroup>, r: Course)
    requires r.grade == "F"
    ensures Shortfalls(Passed(rows), groups) == Shortfalls(rows, groups)
    ensures Shortfalls(rows + [r], groups) == Shortfalls(rows, groups)
  {
    PassedIdempotent(rows);
    assert (rows + [r])[..|rows|] == rows;
    assert Passed(rows + [r]) == Passed(rows);
  }
}
