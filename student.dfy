/**
 * `parse_student_info`: four labelled fields of the transcript header, each read with
 * `re.search`; a field that is not found reads "Bulunamadı", and the name and the
 * programme are cut before the word "Öğretim" and stripped.
 */
module StudentInfo {
  import opened Wrappers
  import opened Text
  import opened Matcher

  /** The value of a field that is not found. */
  const Missing: string := "Bulunamadı"

  /** `\s*` */
  const Spaces: Item := Repeat(Space, 0, None, true)

  /** `T\.C\. Kimlik No\s*:\s*(\d{11})` */
  const IdItems: seq<Item> := [
    OneOf(["T.C. Kimlik No"], false), Spaces, OneOf([":"], false), Spaces, Repeat(Digit, 11, Some(11), true)]

  /** `Öğrenci No\s*:\s*(\d+)` */
  const NumberItems: seq<Item> := [
    OneOf(["Öğrenci No"], false), Spaces, OneOf([":"], false), Spaces, Repeat(Digit, 1, None, true)]

  /** `Adı Soyadı\s*:\s*(.*)` */
  const NameItems: seq<Item> := [
    OneOf(["Adı Soyadı"], false), Spaces, OneOf([":"], false), Spaces, Repeat(Dot, 0, None, true)]

  // `Bölüm\s*/\s*Program\s*:\s*(.*)`
  const ProgramItems: seq<Item> := [
    OneOf(["Bölüm"], false), Spaces, OneOf(["/"], false), Spaces, OneOf(["Program"], false), Spaces,
    OneOf([":"], false), Spaces, Repeat(Dot, 0, None, true)]

  /** The fields `parse_student_info` returns. */
  datatype Info = Info(tcNo: string, studentNo: string, name: string, program: string)

  /**
   * Group 1 of `re.search(pattern, s)` for a pattern whose group is its last item: the
   * text that item covers in the match found, or `None` when there is no match.
   */
  function Group(items: seq<Item>, s: string): Option<string>
    requires |items| >= 2
  {
    match Search(items, s, 0)
    case None => None
    case Some(found) =>
      SearchFinds(items, s, 0);
      FitsOrdered(items, s, found.0, found.1);
      var e := found.1;
      assert found.0 <= e[|e| - 2] <= e[|e| - 1] <= |s|;
      Some(s[e[|e| - 2]..e[|e| - 1]])
  }

  /** Group 1 of the pattern, or "Bulunamadı". */
  function Field(items: seq<Item>, s: string): string
    requires |items| >= 2
  {
    match Group(items, s)
    case None => Missing
    case Some(g) => g
  }

  /** Group 1 of the pattern cut as `g.split("Öğretim")[0].strip()`, or "Bulunamadı". */
  function CutField(items: seq<Item>, s: string): string
    requires |items| >= 2
  {
    match Group(items, s)
    case None => Missing
    case Some(g) => Cut(g)
  }

  /** `g.split("Öğretim")[0].strip()` */
  function Cut(g: string): string {
    Strip(Before(g, "Öğretim"))
  }

  /** `parse_student_info(text)` */
  function ParseStudentInfo(text: string): Info {
    Info(Field(IdItems, text), Field(NumberItems, text), CutField(NameItems, text), CutField(ProgramItems, text))
  }

  // Properties of the search

  /** A group is found exactly when the pattern matches somewhere. */
  lemma GroupFound(items: seq<Item>, s: string)
    requires |items| >= 2
    ensures Group(items, s).Some? ==> exists q: nat, e :: q <= |s| && Fits(items, s, q, e)
    ensures (exists q: nat, e :: q <= |s| && Fits(items, s, q, e)) ==> Group(items, s).Some?
  {
    if Search(items, s, 0).None? {
      SearchMisses(items, s, 0);
    } else {
      var found := Search(items, s, 0).value;
      SearchFinds(items, s, 0);
      var q: nat, e := found.0, found.1;
      assert q <= |s| && Fits(items, s, q, e);
    }
  }

  /**
   * A found group is the text of the last item in the first match at the leftmost
   * offset where the pattern matches.
   */
  lemma GroupIsLeftmost(items: seq<Item>, s: string)
    requires |items| >= 2 && Group(items, s).Some?
    ensures exists q: nat, e ::
      q <= |s| && First(items, s, q, e) && (forall r: nat, b :: r < q ==> !Fits(items, s, r, b))
      && |e| == |items| && OccursAt(s, Group(items, s).value, e[|e| - 2])
      && e[|e| - 2] + |Group(items, s).value| == e[|e| - 1]
  {
    var found := Search(items, s, 0).value;
    SearchFinds(items, s, 0);
    var e := found.1;
    FitsOrdered(items, s, found.0, e);
    assert found.0 <= e[|e| - 2] <= e[|e| - 1] <= |s|;
  }

  /** The group of a pattern that ends in a repeat is a run of the repeated class, as long as the repeat allows. */
  lemma GroupClass(items: seq<Item>, s: string)
    requires |items| >= 2 && items[|items| - 1].Repeat? && Group(items, s).Some?
    ensures var it := items[|items| - 1]; var g := Group(items, s).value;
      AllIn(it.k, g) && it.lo <= |g| && (it.hi.Some? ==> |g| <= it.hi.value)
  {
    var found := Search(items, s, 0).value;
    SearchFinds(items, s, 0);
    var e := found.1;
    FitsPieces(items, s, found.0, e);
    FitsOrdered(items, s, found.0, e);
    var t := |items| - 1;
    assert ItemOk(items[t], s, StartOf(found.0, e, t), e[t]);
    assert StartOf(found.0, e, t) == e[|e| - 2];
    RangeOfSlice(items[t].k, s, e[t - 1], e[t], 0, e[t] - e[t - 1]);
  }

  /** No line break, no "Öğretim", no whitespace at either end. */
  predicate Clean(c: string) {
    (forall i :: 0 <= i < |c| ==> c[i] != '\n') && !Contains(c, "Öğretim")
    && (c == [] || (!IsSpace(c[0]) && !IsSpace(c[|c| - 1])))
  }

  /** A piece of a string without `w` has no `w` either. */
  lemma PieceLacks(b: string, c: string, a: nat, w: string)
    requires OccursAt(b, c, a) && !Contains(b, w)
    ensures !Contains(c, w)
  {
    if Contains(c, w) {
      assert b[a..a + |c|] == c;
      ContainsInSlice(b, a, a + |c|, w);
    }
  }

  /** Cutting a `.*` group, which holds no line break, leaves no line break. */
  lemma CutNoBreak(g: string)
    requires AllIn(Dot, g)
    ensures forall i :: 0 <= i < |Cut(g)| ==> Cut(g)[i] != '\n'
  {
    var b := Before(g, "Öğretim");
    assert b == g[..|b|];
    var c := Strip(b);
    var a :| 0 <= a <= |b| && OccursAt(b, c, a);
    forall i | 0 <= i < |c| ensures c[i] != '\n' {
      assert c[i] == b[a + i] == g[a + i];
    }
  }

  /** Cutting at "Öğretim" leaves no "Öğretim". */
  lemma CutNoWord(g: string)
    ensures !Contains(Cut(g), "Öğretim")
  {
    var b := Before(g, "Öğretim");
    var c := Strip(b);
    var a :| 0 <= a <= |b| && OccursAt(b, c, a);
    PieceLacks(b, c, a, "Öğretim");
  }

  /** What `Cut` leaves of a `.*` group is clean. */
  lemma CutShape(g: string)
    requires AllIn(Dot, g)
    ensures Clean(Cut(g))
  {
    CutNoBreak(g);
    CutNoWord(g);
  }

  /**
   * A field whose group is a run of digits is "Bulunamadı" exactly when its pattern matches
   * nowhere, and otherwise the group itself.
   */
  lemma DigitField(items: seq<Item>, s: string)
    requires |items| >= 2 && items[|items| - 1].Repeat? && items[|items| - 1].k == Digit
    ensures var v := Field(items, s);
      (v == Missing <==> forall q: nat, e :: q <= |s| ==> !Fits(items, s, q, e))
      && (Group(items, s).Some? ==> v == Group(items, s).value)
      && (v != Missing ==> AllIn(Digit, v) && items[|items| - 1].lo <= |v|
                           && (items[|items| - 1].hi.Some? ==> |v| <= items[|items| - 1].hi.value))
  {
    GroupFound(items, s);
    if Group(items, s).Some? {
      GroupClass(items, s);
      assert !IsDigit(Missing[0]);
    }
  }

  /**
   * A cut field is "Bulunamadı" when its pattern matches nowhere; otherwise it is the
   * group's text before the first "Öğretim", stripped, and clean.
   */
  lemma LineField(items: seq<Item>, s: string)
    requires |items| >= 2 && items[|items| - 1].Repeat? && items[|items| - 1].k == Dot
    ensures var v := CutField(items, s);
      ((forall q: nat, e :: q <= |s| ==> !Fits(items, s, q, e)) ==> v == Missing)
      && ((exists q: nat, e :: q <= |s| && Fits(items, s, q, e)) ==> Clean(v))
      && (Group(items, s).Some? ==> v == Strip(Before(Group(items, s).value, "Öğretim")))
  {
    GroupFound(items, s);
    if Group(items, s).Some? {
      GroupClass(items, s);
      CutShape(Group(items, s).value);
    }
  }

  /** The identity number is "Bulunamadı" exactly when its pattern matches nowhere, and its eleven-digit group otherwise. */
  lemma IdField(text: string)
    ensures var v := ParseStudentInfo(text).tcNo;
      (v == Missing <==> forall q: nat, e :: q <= |text| ==> !Fits(IdItems, text, q, e))
      && (v != Missing ==> |v| == 11 && AllIn(Digit, v) && v == Group(IdItems, text).value)
  {
    DigitField(IdItems, text);
  }

  /** The student number is "Bulunamadı" exactly when its pattern matches nowhere, and its group of digits otherwise. */
  lemma NumberField(text: string)
    ensures var v := ParseStudentInfo(text).studentNo;
      (v == Missing <==> forall q: nat, e :: q <= |text| ==> !Fits(NumberItems, text, q, e))
      && (v != Missing ==> v != [] && AllIn(Digit, v) && v == Group(NumberItems, text).value)
  {
    DigitField(NumberItems, text);
  }

  /**
   * The name is "Bulunamadı" when its pattern matches nowhere. Otherwise it is the text after
   * the colon and any whitespace, which may start on a later line, up to the end of that line,
   * cut before the first "Öğretim" and stripped; it is clean.
   */
  lemma NameField(text: string)
    ensures var v := ParseStudentInfo(text).name;
      ((forall q: nat, e :: q <= |text| ==> !Fits(NameItems, text, q, e)) ==> v == Missing)
      && ((exists q: nat, e :: q <= |text| && Fits(NameItems, text, q, e)) ==> Clean(v))
      && (Group(NameItems, text).Some? ==> v == Strip(Before(Group(NameItems, text).value, "Öğretim")))
  {
    LineField(NameItems, text);
  }

  /**
   * The programme is "Bulunamadı" when its pattern matches nowhere. Otherwise it is the text
   * after the colon and any whitespace, which may start on a later line, up to the end of that
   * line, cut before the first "Öğretim" and stripped; it is clean.
   */
  lemma ProgramField(text: string)
    ensures var v := ParseStudentInfo(text).program;
      ((forall q: nat, e :: q <= |text| ==> !Fits(ProgramItems, text, q, e)) ==> v == Missing)
      && ((exists q: nat, e :: q <= |text| && Fits(ProgramItems, text, q, e)) ==> Clean(v))
      && (Group(ProgramItems, text).Some? ==> v == Strip(Before(Group(ProgramItems, text).value, "Öğretim")))
  {
    LineField(ProgramItems, text);
  }
}
