# Transcript analysis, modelled in Dafny

`transkript_analiz.py` is a Streamlit page for students of a Turkish university. Given a
transcript PDF, it extracts the text, reads the student's details and every course row
(code, name, letter grade, grade point, AKTS credits) term by term, and adds up the
credits passed. It then checks the rows against the curriculum. The checks look for
mandatory courses never taken or only ever failed with "F", and for elective groups of
which too few alternatives were passed.

The model covers everything between the extracted text and what the page displays:

- `Text`: the Python string primitives the script relies on. These are `\s`, `\d`,
  `str.find`, `str.strip`, `str.splitlines`, `str.split(...)[0]`,
  `str.replace(",", ".")`, `int` and `str.lower`.
- `Matcher`: a backtracking regular-expression matcher for the constructs the
  patterns use: classes with `*`, `+`, `{m,n}` and lazy `+?`, and alternations with an
  optional `?`. It tries the choices in the order Python's `re` tries them. The lemmas
  prove that what it finds is a match, that it is the first match in that order, and
  that `re.search` returns the leftmost one.
- `Patterns`: the three patterns of `parse_courses`, with `re.finditer`/`re.findall` as
  a left-to-right scan that resumes after each match.
- `Transcript`: `parse_courses`. It covers the term segments between headers, the
  line-repair loop that puts a line break before a second course code, and the record
  loop. `parse_courses` is modelled as the methods `CleanTerm`, `TermRecords` and
  `ParseCourses`, proved against specification functions.
- `StudentInfo`: `parse_student_info`.
- `Curriculum`: the imperative `zorunlu_ders_kontrolu` and `secmeli_ders_kontrolu`, as
  methods with nested loops, proved against filter functions.
- `Credits`: `drop_duplicates(subset=["Kodu", "Ders Adı"], keep="last")` and the AKTS
  sum over rows not graded "F".
- `Analysis`: the sequence of lines 210-223, which feeds the deduplicated rows to both
  checks.

The searches `parse_courses` performs are passed to the Transcript functions as a value
of type `Searches`. It bundles one function each for the header, course-code and
course-record `finditer`. The predicate `SearchesOk` says what the parser needs of them:

- the headers come in text order;
- each code match's group is its own text;
- each record match has five groups of the record pattern's shapes.

`Transcript.Re` holds the three searches built from `Patterns.FindAll`, and
`Transcript.ReOk` proves that it satisfies `SearchesOk`. `ParseCourses(Re, text)` is
thus `parse_courses(text)`. The lemmas stated for every `re` with `SearchesOk(re)`
hold for `Re` in particular.

Behaviour of the code worth knowing, all of it modelled as written:

- A bare "G" is not a grade. The grade alternation on line 43 admits "A" to "F" with an
  optional sign, "G+" and "G-" only (`Patterns.GradeWordsExact`). In a row whose grade is a
  bare "G" or is missing, the grade group matches nothing, and its two surrounding `\s+`
  must then match two separate whitespace runs. So such a row is read only when at least
  two whitespace characters come before the grade point (the "G" then becomes part of the
  name). A row with single spaces throughout gives no record on its own line.
- The code pattern on lines 33 and 43 is `\d*[A-ZÇĞİÖŞÜ]{3,}\d{5,7}`. Nothing strips a prefix
  or suffix from a code.
- A run of digits followed by letters, with no digits after the letters, is not a code:
  the letters must be followed by five to seven digits.
- The repair on lines 35-37 splits at `line.find(second_code)`, the first occurrence of the
  second code's text. When the first code ends with that text, this offset lies inside
  the first code ("1ODY12345 ODY12345" is cut after "1"). `Transcript.SplitPoint` states
  this: the cut is the first occurrence, at or before the second match.
- When `parse_courses` finds no course, line 212 builds a data frame without columns, and
  line 213's `df["Harf Notu"]` raises `KeyError`. The page stops before it shows anything.
  `Analysis.Analyze` returns `None` exactly then.
- The name and programme patterns on lines 10 and 12 end in `\s*:\s*(.*)`. The `\s*` after
  the colon also matches line breaks, so when nothing follows the colon on the label's line,
  the group is the next line that holds something other than whitespace. For
  "Adı Soyadı :" followed by the line "Bölüm / Program : ODYOLOJİ", that next line becomes
  the name.

## Model

| member | source | states |
|---|---|---|
| Text.FindFrom | transkript_analiz.py:36 | the result is -1 exactly when the substring occurs at no offset from `i`, otherwise the first offset from `i` where it occurs |
| Text.Find | transkript_analiz.py:36 | `line.find(t)`: -1 exactly when `t` occurs nowhere, otherwise its first occurrence |
| Text.Contains | transkript_analiz.py:63 | `t in s`, defined by recursion over `s`; `ContainsAt` states its meaning |
| Text.ContainsAt | transkript_analiz.py:63 | the substring test holds exactly when the substring occurs at some offset |
| Text.ContainsFind | transkript_analiz.py:36 | a substring is contained exactly when `find` does not return -1 |
| Text.ContainsInSlice | transkript_analiz.py:77 | a substring of a slice is a substring of the whole string |
| Text.Before | transkript_analiz.py:11 | `split("Öğretim")[0]`: when the separator occurs, the prefix up to its first occurrence, so the separator follows it and occurs nowhere earlier; the whole string when it does not occur |
| Text.IsSpace | transkript_analiz.py:47-49 | the whitespace set of `str.isspace()` and of the `\s` class, as the code points it holds; `Strip` and `StripOnlySpaces` remove exactly these |
| Text.Strip | transkript_analiz.py:47-49 | `strip()`: a piece of the string with no whitespace at either end; a string already without such ends is returned unchanged |
| Text.StripOnlySpaces | transkript_analiz.py:11 | `strip()` removes only whitespace: everything before and after the kept piece is whitespace |
| Text.StripSpaces | transkript_analiz.py:47-49 | the leading and the trailing run that `strip` removes are whitespace |
| Text.StripEnds | transkript_analiz.py:47-49 | the piece between those runs neither starts nor ends with whitespace |
| Text.StripUnchanged | transkript_analiz.py:47-49 | a string without whitespace at either end has empty leading and trailing runs |
| Text.TrailingSpaces | transkript_analiz.py:47-49 | the count of trailing whitespace characters, with a non-space before them |
| Text.RunLength | transkript_analiz.py:43 | the length of the longest run of a character class from an offset |
| Text.IsLineBreak | transkript_analiz.py:32 | the line boundaries `str.splitlines()` cuts at, as code points; `SplitLinesNoBreak` states that no line holds one |
| Text.LineEnd | transkript_analiz.py:32 | the first line boundary at or after an offset, or the end of the string |
| Text.SplitLines | transkript_analiz.py:32 | `splitlines()`, defined line by line; `SplitLinesNoBreak` and `SplitLinesRoundTrip` state its properties |
| Text.SplitLinesNoBreak | transkript_analiz.py:32 | `splitlines()`: no line contains a line boundary |
| Text.SplitLinesRoundTrip | transkript_analiz.py:32-40 | for text whose only line boundary is "\n", writing each line back with "\n" gives the text again, with "\n" added when it lacked a final one |
| Text.RoundTripStep | transkript_analiz.py:32-40 | writing back a first line that ends in "\n" before the rest, written back, gives the text again, with "\n" added when it lacked a final one |
| Text.OnlyNewlinesAfter | transkript_analiz.py:32 | a suffix of a text whose only line boundary is "\n" has no other boundary |
| Text.CommasToDots | transkript_analiz.py:50 | `replace(",", ".")`: same length; each comma becomes a dot and every other character stays |
| Text.DigitsValue | transkript_analiz.py:51 | `int(akts)`: the decimal value of the digits, most significant first; `CourseOfRecord` uses it for the credits |
| Text.LowerChar | transkript_analiz.py:58 | lowering gives at least one character; an ASCII capital becomes its ASCII small letter, and a character below U+00C0 that is not a capital is kept |
| Text.Lower | transkript_analiz.py:62 | lowering never shortens a string |
| Text.LowerAppend | transkript_analiz.py:62-63 | lowering a concatenation lowers each part and concatenates the results |
| Text.LowerOccurs | transkript_analiz.py:62-63 | an occurrence of a name in a string gives an occurrence of the lowered name in the lowered string |
| Text.LowerKeepsContains | transkript_analiz.py:62-63 | a row name that holds a course name as written still holds it after both are lowered |
| Matcher.Descending | transkript_analiz.py:43 | the ends a greedy repeat tries are exactly those from `lo` to `hi`, longest first: the k-th is `hi - k` |
| Matcher.Ascending | transkript_analiz.py:43 | the ends the lazy `.+?` tries are exactly those from `lo` to `hi`, shortest first: the k-th is `lo + k` |
| Matcher.WordEnds | transkript_analiz.py:24 | the ends an alternation tries are exactly the ends of its words that occur at the offset |
| Matcher.WordEndsOrder | transkript_analiz.py:24 | those ends come in the order the alternatives are written: the k-th belongs to the k-th occurring word, by increasing index, and every occurring word has one |
| Matcher.Choices | transkript_analiz.py:43 | the ends the engine tries for one item, in its order; `ChoicesExact` and `ChoicesOrder` state their meaning |
| Matcher.ChoicesOrder | transkript_analiz.py:43 | a greedy repeat tries strictly shorter ends one after another, a lazy repeat strictly longer ones; an alternation tries its words' ends in written order and, when optional, the empty choice last |
| Matcher.ChoicesExact | transkript_analiz.py:43 | the ends the engine tries for one item are exactly the ends at which that item matches |
| Matcher.Run | transkript_analiz.py:8-13 | one match attempt at an offset: the first way, in the engine's order, in which the items match; `RunSound`, `RunFirst` and `RunIsFirst` state its meaning |
| Matcher.TryEach | transkript_analiz.py:43 | backtracking over one item's ends in order, each followed by the rest of the pattern; `TryEachSound` and `TryEachFirst` state its meaning |
| Matcher.RunSound | transkript_analiz.py:43 | what the backtracking run finds is a match of the whole pattern |
| Matcher.TryEachSound | transkript_analiz.py:43 | trying the first item's ends in order finds a match whose first end is among them |
| Matcher.FitsPieces | transkript_analiz.py:43 | each item of a match covers the stretch from where the previous item ended |
| Matcher.FitsOrdered | transkript_analiz.py:43 | the item ends of a match lie within the text and never go back |
| Matcher.RunFirst | transkript_analiz.py:43 | whenever the pattern matches at an offset, the run finds a match there, and that match is tried no later than any other |
| Matcher.TryEachFirst | transkript_analiz.py:43 | trying the ends in order finds a match tried no later than any match whose first end is among them |
| Matcher.RunIsFirst | transkript_analiz.py:43 | a match the run finds is the first one in the engine's order |
| Matcher.Search | transkript_analiz.py:8-13 | `re.search`, trying each offset from the left; `SearchFinds` and `SearchMisses` state its meaning |
| Matcher.SearchFinds | transkript_analiz.py:8-12 | `re.search` finds, at the leftmost offset where the pattern matches, the engine's first match there; no earlier offset matches |
| Matcher.SearchMisses | transkript_analiz.py:8-13 | `re.search` finds nothing only when the pattern matches at no offset |
| Patterns.HeaderItems | transkript_analiz.py:24 | the term-header pattern `\d+\.\s*\d{4}\s*-\s*\d{4}\s+(Güz or Bahar)\s+Dönemi` item by item, its outer group being the whole match; `FindAllAt`, `FindAllCovers` and `FindAllEmpty` state what `finditer` reports with it |
| Patterns.CodeItems | transkript_analiz.py:33 | the code pattern `\d*[A-ZÇĞİÖŞÜ]{3,}\d{5,7}` item by item; `CodePieces` states what a match of it covers |
| Patterns.RecordItems | transkript_analiz.py:43 | the record pattern item by item: the code, `\s+`, a lazy `.+?`, `\s+`, the optional grade alternation, `\s+`, `[\d,]*`, `\s+`, `\d+`; `RecordPieces` and `GradeWordsExact` state what its groups cover |
| Patterns.GradeWordsExact | transkript_analiz.py:43 | the grade alternatives are exactly a letter A to F with an optional sign, "G+" and "G-" |
| Patterns.CodePieces | transkript_analiz.py:33 | digits, at least three code letters, then five to seven digits make a course code |
| Patterns.GradePiece | transkript_analiz.py:43 | the optional grade group covers a grade or nothing |
| Patterns.RecordPieces | transkript_analiz.py:43 | the five groups of a record match are a code, a name of non-newline characters, an optional grade, a grade point of digits and commas, and a non-empty digit string |
| Patterns.MatchNotEmpty | transkript_analiz.py:24 | every match takes at least one character |
| Patterns.MatchOf | transkript_analiz.py:43-45 | a match's span ends where its last item ends; a record match has the five record groups, other matches their whole text |
| Patterns.MatchAt | transkript_analiz.py:33 | a match reported at an offset starts there and ends after it; a code or header match's group is its own text |
| Patterns.MatchAtGroups | transkript_analiz.py:43-45 | a reported record match has five groups of the record shapes |
| Patterns.MatchAtExact | transkript_analiz.py:43 | a match is reported at an offset exactly when the pattern can match there |
| Patterns.MatchAtFirst | transkript_analiz.py:43 | the match reported at an offset is the engine's first match there |
| Patterns.Scan | transkript_analiz.py:24 | `finditer`'s matches lie in the scanned range, each starting no earlier than the previous one ends |
| Patterns.ScanReports | transkript_analiz.py:24 | every match of the scan is the match the pattern gives at its start |
| Patterns.ScanCovers | transkript_analiz.py:24 | every offset where the pattern matches lies inside a match the scan reports |
| Patterns.ScanEmpty | transkript_analiz.py:24-25 | the scan reports nothing exactly when the pattern matches at no offset |
| Patterns.MatcherOf | transkript_analiz.py:24 | the pattern's match at each offset starts there and ends after it |
| Patterns.FindAll | transkript_analiz.py:44 | `findall`'s matches are non-empty, in the text and in order without overlap |
| Patterns.FindAllAt | transkript_analiz.py:44 | every match `FindAll` reports is the pattern's match at its start |
| Patterns.FindAllCovers | transkript_analiz.py:33 | `findall` skips no match: every offset where the pattern matches lies within a reported match |
| Patterns.FindAllEmpty | transkript_analiz.py:24-25 | no header is found exactly when the header pattern matches at no offset |
| Transcript.HeadersInOrder | transkript_analiz.py:24-27 | the header matches lie in the text, in order |
| Transcript.CodesWhole | transkript_analiz.py:33-35 | each code match's only group is the matched text |
| Transcript.RecordsShaped | transkript_analiz.py:44-45 | every record match has the five record groups |
| Transcript.ReOk | transkript_analiz.py:24-44 | the script's three searches satisfy what the parser needs of them |
| Transcript.SplitPoint | transkript_analiz.py:33-36 | a line is cut exactly when it holds two or more codes, at the first occurrence of the second code's text, which is at or before the second match |
| Transcript.RepairLine | transkript_analiz.py:34-39 | a line with fewer than two codes becomes the line and "\n"; otherwise the two pieces around the cut, each followed by "\n" |
| Transcript.RepairOnlyBreaks | transkript_analiz.py:34-39 | the repair adds no more than one "\n": deleting the break at the cut gives the line followed by "\n" |
| Transcript.CleanedUnchanged | transkript_analiz.py:31-40 | lines with fewer than two codes are written back unchanged, each followed by "\n" |
| Transcript.CleanedTerm | transkript_analiz.py:31-40 | a term text whose only line boundary is "\n" and with no line holding two codes comes out of cleaning as itself, with a final "\n" added when it lacked one |
| Transcript.ToCourse | transkript_analiz.py:45-52 | the row built from one record match's groups; `CourseOfRecord` states what each field holds |
| Transcript.CourseOfRecord | transkript_analiz.py:45-52 | a record's course is well formed and keeps the code and grade, strips the name, has the grade point with each comma read as a dot and reads the credits as the number its digits spell |
| Transcript.CodeHasNoSpaceEnds | transkript_analiz.py:47 | stripping a code changes nothing |
| Transcript.GradeHasNoSpaceEnds | transkript_analiz.py:49 | stripping a grade changes nothing |
| Transcript.StripDot | transkript_analiz.py:48 | a stripped name has neither a line break nor whitespace ends |
| Transcript.PointDigitsAndDots | transkript_analiz.py:43-50 | a grade point of digits and commas, with its commas read as dots, holds only digits and dots |
| Transcript.CoursesOf | transkript_analiz.py:44-52 | as many courses as record matches |
| Transcript.CoursesOfAt | transkript_analiz.py:44-52 | the i-th course is built from the i-th record match |
| Transcript.Segment | transkript_analiz.py:26-28 | the text of term i runs from the end of its header to the start of the next header, or to the end of the text, and never starts before the first header's end |
| Transcript.RepairStep | transkript_analiz.py:33-39 | one pass of the repair loop yields the repaired line |
| Transcript.RepairAt | transkript_analiz.py:34-37 | a line with two or more codes is cut where `find` puts the second code's text, which lies within the line |
| Transcript.CodeAt | transkript_analiz.py:33-35 | a code match lies within the line and its only group is its own text |
| Transcript.Cleaned | transkript_analiz.py:31-40 | the repaired lines of a term, one after another; `CleanedUnchanged` and `CleanedTerm` state its properties |
| Transcript.CleanTerm | transkript_analiz.py:31-40 | the repair loop produces the repaired lines of the term text, one after another |
| Transcript.TermRecords | transkript_analiz.py:43-52 | the record loop produces one course per record match, in match order |
| Transcript.TermCourses | transkript_analiz.py:28-52 | the courses of one term's text: the record matches of its repaired text; `TermCoursesShaped` states their shape |
| Transcript.CoursesUpTo | transkript_analiz.py:25-52 | the courses of the first i terms, term after term |
| Transcript.Courses | transkript_analiz.py:22-53 | `parse_courses(text)`: the courses of every term; `ParseCourses` computes it and `CoursesShaped` states their shape |
| Transcript.ParseTerm | transkript_analiz.py:26-52 | one pass of the term loop yields the courses of that term's text |
| Transcript.ParseCourses | transkript_analiz.py:22-53 | `parse_courses` is the courses of each term in term order, each term's courses in match order |
| Transcript.NoHeaderNoCourses | transkript_analiz.py:24-25 | a text where the header pattern matches nowhere has no courses |
| Transcript.TermCoursesShaped | transkript_analiz.py:43-52 | every course of a term is well formed |
| Transcript.CoursesUpToShaped | transkript_analiz.py:25-52 | every course of the first i terms is well formed |
| Transcript.CoursesShaped | transkript_analiz.py:22-53 | every course `parse_courses` returns has a code token, a clean name, an optional grade and a grade point of digits and dots |
| StudentInfo.IdItems | transkript_analiz.py:8 | the pattern `T\.C\. Kimlik No\s*:\s*(\d{11})` item by item; `IdField` states what its group yields |
| StudentInfo.NumberItems | transkript_analiz.py:9 | the pattern `Öğrenci No\s*:\s*(\d+)` item by item; `NumberField` states what its group yields |
| StudentInfo.NameItems | transkript_analiz.py:10 | the pattern `Adı Soyadı\s*:\s*(.*)` item by item; `NameField` states what its group yields |
| StudentInfo.ProgramItems | transkript_analiz.py:12 | the pattern `Bölüm\s*/\s*Program\s*:\s*(.*)` item by item; `ProgramField` states what its group yields |
| StudentInfo.Group | transkript_analiz.py:8-16 | `.group(1)` of `re.search`, or nothing without a match; `GroupFound`, `GroupIsLeftmost` and `GroupClass` state its meaning |
| StudentInfo.Field | transkript_analiz.py:15-16 | the group, or "Bulunamadı" without a match; `DigitField` states its meaning |
| StudentInfo.CutField | transkript_analiz.py:10-13 | the cut group, or "Bulunamadı" without a match; `LineField` states its meaning |
| StudentInfo.Cut | transkript_analiz.py:11-13 | `.split("Öğretim")[0].strip()`; `CutNoBreak`, `CutNoWord` and `CutShape` state its meaning |
| StudentInfo.ParseStudentInfo | transkript_analiz.py:7-19 | `parse_student_info`: the four fields; `IdField`, `NumberField`, `NameField` and `ProgramField` state what each holds |
| StudentInfo.GroupFound | transkript_analiz.py:8-12 | a field's group is found exactly when its pattern matches at some offset |
| StudentInfo.GroupIsLeftmost | transkript_analiz.py:8-12 | a found group is the text of the last item in the first match at the leftmost matching offset |
| StudentInfo.GroupClass | transkript_analiz.py:8-9 | a group that ends in a repeat is a run of the repeated class, as long as the repeat allows |
| StudentInfo.PieceLacks | transkript_analiz.py:11 | a piece of a string that lacks a word lacks that word too |
| StudentInfo.CutNoBreak | transkript_analiz.py:10-13 | cutting and stripping a `.*` group leaves no line break |
| StudentInfo.CutNoWord | transkript_analiz.py:11 | cutting at "Öğretim" and stripping leaves no "Öğretim" |
| StudentInfo.CutShape | transkript_analiz.py:11 | what is left of a line after cutting at "Öğretim" and stripping has no line break, no "Öğretim" and no whitespace ends |
| StudentInfo.DigitField | transkript_analiz.py:15-16 | a digit field is "Bulunamadı" exactly when its pattern matches nowhere; otherwise it is the group, digits within the repeat's bounds |
| StudentInfo.LineField | transkript_analiz.py:10-13 | a name-like field is "Bulunamadı" when its pattern matches nowhere; when it matches, it is the group cut before the first "Öğretim" and stripped, and clean |
| StudentInfo.IdField | transkript_analiz.py:8 | the identity number is "Bulunamadı" exactly when its pattern matches nowhere, and otherwise the group, eleven digits |
| StudentInfo.NumberField | transkript_analiz.py:9 | the student number is "Bulunamadı" exactly when its pattern matches nowhere, and otherwise the group, a non-empty digit string |
| StudentInfo.NameField | transkript_analiz.py:10-11 | the name is "Bulunamadı" when its pattern matches nowhere; when it matches, the text after the colon and any whitespace (possibly starting on a later line) up to the end of that line, cut before the first "Öğretim" and stripped, which is clean |
| StudentInfo.ProgramField | transkript_analiz.py:12-13 | the programme is "Bulunamadı" when its pattern matches nowhere; when it matches, the text after the colon and any whitespace (possibly starting on a later line) up to the end of that line, cut before the first "Öğretim" and stripped, which is clean |
| Curriculum.Entries | transkript_analiz.py:60-61 | the (term, course, credits) triples of the two nested `.items()` loops, term after term and in table order within a term; `CheckMandatory` walks them |
| Curriculum.Mentions | transkript_analiz.py:58-63 | a row mentions a course when its lowered name contains the lowered course name; `LowerKeepsContains` shows a name written as in the curriculum is mentioned |
| Curriculum.Found | transkript_analiz.py:63 | `bulunan`, the rows that mention a course, in order; `FoundMember` states its meaning |
| Curriculum.NotTaken | transkript_analiz.py:64-65 | the never-taken triples in curriculum order; `NotTakenMember` states its meaning |
| Curriculum.AllFailed | transkript_analiz.py:66-67 | the failed-only triples in curriculum order; `AllFailedMember` states its meaning |
| Curriculum.FoundMember | transkript_analiz.py:63 | `bulunan` holds exactly the rows whose lowered name contains the lowered course name |
| Curriculum.CheckCourse | transkript_analiz.py:62-67 | one course appends its triple to the never-taken list when no row mentions it, and to the failed list when some row mentions it and all such rows are graded "F"; nothing else changes |
| Curriculum.CheckSemester | transkript_analiz.py:61-67 | the inner loop extends both reports with the triples of one semester's courses |
| Curriculum.CheckMandatory | transkript_analiz.py:56-68 | the loops produce the never-taken triples and the failed-only triples, in curriculum order |
| Curriculum.NotTakenMember | transkript_analiz.py:63-65 | a triple is never taken exactly when it is in the curriculum and no row mentions its course |
| Curriculum.AllFailedIn | transkript_analiz.py:66-67 | a triple is failed exactly when it is in the curriculum, its mentioning rows are non-empty and all graded "F" |
| Curriculum.FailedOnly | transkript_analiz.py:63-67 | the mentioning rows are non-empty and all graded "F" exactly when some row mentions the course and every mentioning row is graded "F" |
| Curriculum.AllFailedMember | transkript_analiz.py:66-67 | a triple is failed exactly when it is in the curriculum, some row mentions its course, and every such row is graded "F" |
| Curriculum.MandatoryDisjoint | transkript_analiz.py:64-67 | no triple is both never taken and failed |
| Curriculum.MandatoryMet | transkript_analiz.py:64-67 | both mandatory reports are empty exactly when every mandatory course has a mentioning row not graded "F" |
| Curriculum.Passed | transkript_analiz.py:72 | `df_gecilen`, the rows not graded "F", in order; `PassedMember` states its meaning |
| Curriculum.TakenIn | transkript_analiz.py:77 | `any(ders.lower() in ad.lower() ...)`: some passed row mentions the course; `TakenMember` uses it |
| Curriculum.TakenAlternatives | transkript_analiz.py:75-78 | `alinmis`, the alternatives a passed row mentions, in order; `TakenMember` states its meaning |
| Curriculum.GroupReport | transkript_analiz.py:79-86 | the report of one group when fewer alternatives were passed than it requires; `GroupReported` states its meaning |
| Curriculum.ShortfallsOf | transkript_analiz.py:74-87 | the reports of the groups against the passed rows, in table order; `ShortfallsMember` and `ShortfallsShaped` state its meaning |
| Curriculum.Shortfalls | transkript_analiz.py:71-87 | `eksik`, one report per group with too few passed alternatives; `GroupReported` and `ShortfallsShaped` state its meaning |
| Curriculum.PassedMember | transkript_analiz.py:72 | `df_gecilen` holds exactly the rows not graded "F" |
| Curriculum.TakenMember | transkript_analiz.py:76-78 | `alinmis` holds exactly the alternatives whose name a passed row's name contains |
| Curriculum.TakenOf | transkript_analiz.py:75-78 | the inner loop collects the alternatives a passed row mentions, in order |
| Curriculum.CheckElectives | transkript_analiz.py:71-87 | the loops produce one report per group with too few passed alternatives, in curriculum order |
| Curriculum.GroupReported | transkript_analiz.py:79-86 | a group is reported exactly when fewer alternatives were passed than required, with the passed alternatives and the deficit `required - taken`, which is positive |
| Curriculum.ShortfallsMember | transkript_analiz.py:74-87 | `eksik` holds a report exactly when some group of the table has that report |
| Curriculum.ShortfallsShaped | transkript_analiz.py:79-86 | every report has a positive deficit that adds up with the passed count to the requirement, and lists only passed alternatives of its group |
| Curriculum.ElectivesMet | transkript_analiz.py:79 | no group is reported exactly when every group has at least as many passed alternatives as it requires |
| Curriculum.PassedIdempotent | transkript_analiz.py:72 | dropping the "F" rows twice is dropping them once |
| Curriculum.OnlyPassedCount | transkript_analiz.py:72 | the elective reports depend only on the rows not graded "F"; adding an "F" row changes none |
| Credits.DedupLast | transkript_analiz.py:212 | `drop_duplicates(subset=["Kodu", "Ders Adı"], keep="last")`; the lemmas below state its meaning |
| Credits.PassedCredits | transkript_analiz.py:213 | the AKTS sum over rows not graded "F" |
| Credits.TotalCredits | transkript_analiz.py:212-213 | `toplam_akts`: the AKTS sum over the deduplicated rows not graded "F"; `TotalAfterRetake` and `TotalWithoutRepeats` state its meaning |
| Credits.DedupKeys | transkript_analiz.py:212 | a (code, name) key occurs after deduplication exactly when it occurred before |
| Credits.DedupDistinct | transkript_analiz.py:212 | after deduplication every key occurs once |
| Credits.DedupKeepsLast | transkript_analiz.py:212 | a row survives deduplication exactly when no later row has its code and name |
| Credits.DedupSnoc | transkript_analiz.py:212 | a row appended to the transcript replaces every earlier row with its key and comes last |
| Credits.DedupDistinctIdentity | transkript_analiz.py:212 | rows with distinct keys are left as they are |
| Credits.DedupIdempotent | transkript_analiz.py:212 | deduplicating twice is deduplicating once |
| Credits.TotalAfterRetake | transkript_analiz.py:212-213 | after a retake the total is the credits of the other courses plus the new row's credits when it is not graded "F"; the earlier attempt no longer counts |
| Credits.TotalWithoutRepeats | transkript_analiz.py:213 | without repeated courses the total is the AKTS sum over the rows not graded "F" |
| Analysis.Analyze | transkript_analiz.py:210-243 | with the script's own searches: the page stops (`None`) exactly when no course is parsed; otherwise it shows the student's details, the deduplicated rows, their total and both checks over the deduplicated rows, and the "all requirements met" message exactly when every mandatory course has a passed mention and every elective group is satisfied |

## Left out

- PDF reading with `pdfplumber`, including the joining of page texts with "\n" that skips pages without text (lines 207-208). The model starts from the joined text.
- The Streamlit page itself (lines 201-206 and 215-244): titles, the upload widget, and the formatting of the messages. `Analysis.Analyze` returns the values the page formats.
- The curriculum tables `zorunlu_dersler` and `secmeli_sartlar` (lines 90-198) are parameters of the checks. Python dictionaries become sequences in insertion order, so duplicate keys, which a dictionary cannot hold, are possible in the model.
- pandas internals. A data frame is a sequence of `Course` rows in order, a boolean mask is a filter that keeps the order, and `sum` is a sum over naturals.
- Curriculum.Found: `str.contains(ders_lower)` on line 63 is a regular-expression search. The model tests plain substring containment, so a name such as "VESTİBULER  PATOLO. TANI. VE DEĞERLENDİRİLME" on line 138, whose dots match any character, is approximated.
- Text.Lower: `str.lower` is modelled for the ASCII and Latin-1 capitals and for Ğ, Ş and İ ("i" and a combining dot). Other characters stay unchanged, and no case folding beyond this is modelled.
- Text.IsDigit: `\d` is the ASCII digits. Python's `re` also admits other Unicode decimal digits, which transcripts do not contain.
- StudentInfo.LineField: states "Bulunamadı" in one direction only. A cut group that itself reads "Bulunamadı" cannot be told apart from a miss.
- StudentInfo.NameField: the same one-direction statement for "Bulunamadı", for the same reason.
- StudentInfo.ProgramField: the same one-direction statement for "Bulunamadı", for the same reason.
- Patterns.FindAll: the contract states bounds and order. Coverage and "each match is the pattern's match at its start" are separate lemmas (`FindAllCovers`, `FindAllAt`), which keeps the function cheap for the verifier.
- The AKTS credits are unbounded naturals, and `Credits.PassedCredits` is an exact sum. pandas' 64-bit integer sum cannot overflow on a transcript.
