/**
 * What the page computes once the PDF's text is extracted: the student's details,
 * the course rows deduplicated on code and name, the credit total, and the two
 * curriculum checks over the deduplicated rows.
 */
module Analysis {
  import opened Wrappers
  import opened Transcript
  import opened StudentInfo
  import opened Curriculum
  import opened Credits

  /** The results the page displays, and whether it shows its "all requirements met" message. */
  datatype Page = Page(
    info: Info, df: seq<Course>, toplamAkts: nat, alinmamis: seq<Entry>, basarisiz: seq<Entry>,
    secmeliEksikler: seq<Shortfall>, complete: bool)

  /**
   * Lines 210-243 on the extracted text. When `parse_courses` finds no course, line 212
   * builds a data frame without columns, `df["Harf Notu"]` on line 213 raises `KeyError`
   * and the page stops before it shows anything: `None`.
   */
  method Analyze(allText: string, sems: seq<Semester>, groups: seq<ElectiveGroup>) returns (page: Option<Page>)
    ensures SearchesOk(Re)
    ensures page.None? <==> Courses(Re, allText) == []
    ensures page.Some? ==> var p := page.value;
      p.info == ParseStudentInfo(allText)
      && p.df == DedupLast(Courses(Re, allText)) && p.toplamAkts == TotalCredits(Courses(Re, allText))
      && p.alinmamis == NotTaken(p.df, Entries(sems)) && p.basarisiz == AllFailed(p.df, Entries(sems))
      && p.secmeliEksikler == Shortfalls(p.df, groups)
      && (p.complete <==>
            (forall e :: e in Entries(sems) ==> exists x :: x in p.df && Mentions(x, e.course) && x.grade != "F")
            && forall g :: g in groups ==> |TakenAlternatives(Passed(p.df), g.alternatives)| >= g.required)
  {
    ReOk();
    var info := ParseStudentInfo(allText);
    var dersler := ParseCourses(Re, allText);
    if dersler == [] {
      return None;
    }
    var df := DedupLast(dersler);
    var toplamAkts := PassedCredits(df);
    var alinmamis, basarisiz := CheckMandatory(df, sems);
    var secmeliEksikler := CheckElectives(df, groups);
    var complete := alinmamis == [] && basarisiz == [] && secmeliEksikler == [];
    MandatoryMet(df, Entries(sems));
    ElectivesMet(Passed(df), groups);
    page := Some(Page(info, df, toplamAkts, alinmamis, basarisiz, secmeliEksikler, complete));
  }
}
