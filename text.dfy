/**
 * String primitives of Python that the transcript script relies on: the character
 * classes `\s` and `\d` of `re`, `str.find`, `str.strip`, `str.splitlines`,
 * `str.replace(",", ".")`, `str.lower` and `int` on a digit string.
 */
module Text {

  /** Whitespace as `str.isspace()` and the `\s` class of `re` see it. */
  predicate IsSpace(c: char) {
    var n := c as int;
    n == 0x20 || (0x09 <= n <= 0x0D) || (0x1C <= n <= 0x1F) || n == 0x85 || n == 0xA0
    || n == 0x1680 || (0x2000 <= n <= 0x200A) || n == 0x2028 || n == 0x2029
    || n == 0x202F || n == 0x205F || n == 0x3000
  }

  /** The `\d` class, restricted to the ASCII digits. */
  predicate IsDigit(c: char) {
    '0' <= c <= '9'
  }

  /** The letter class `[A-ZÇĞİÖŞÜ]` of the course-code pattern. */
  predicate IsCodeLetter(c: char) {
    ('A' <= c <= 'Z') || c == 'Ç' || c == 'Ğ' || c == 'İ' || c == 'Ö' || c == 'Ş' || c == 'Ü'
  }

  /** The class `[\d,]` of the grade-point field. */
  predicate IsPointChar(c: char) {
    IsDigit(c) || c == ','
  }

  /** The line boundaries at which `str.splitlines()` cuts. */
  predicate IsLineBreak(c: char) {
    var n := c as int;
    (0x0A <= n <= 0x0D) || (0x1C <= n <= 0x1E) || n == 0x85 || n == 0x2028 || n == 0x2029
  }

  /** The character classes that the patterns repeat; `Dot` is `.`, anything but "\n". */
  datatype CharClass = Space | Digit | CodeLetter | PointChar | Dot

  predicate InClass(k: CharClass, c: char) {
    match k
    case Space => IsSpace(c)
    case Digit => IsDigit(c)
    case CodeLetter => IsCodeLetter(c)
    case PointChar => IsPointChar(c)
    case Dot => c != '\n'
  }

  predicate AllIn(k: CharClass, s: string) {
    forall i :: 0 <= i < |s| ==> InClass(k, s[i])
  }

  /** Every character of `s[i..j]` is of class `k`. */
  predicate AllInRange(k: CharClass, s: string, i: nat, j: nat) {
    i <= j <= |s| && forall x :: i <= x < j ==> InClass(k, s[x])
  }

  predicate NoLineBreak(s: string) {
    forall i :: 0 <= i < |s| ==> !IsLineBreak(s[i])
  }

  /** Length of the longest run of characters of class `k` that starts at `i`. */
  function RunLength(k: CharClass, s: string, i: nat): (n: nat)
    requires i <= |s|
    ensures i + n <= |s|
    ensures forall j :: i <= j < i + n ==> InClass(k, s[j])
    ensures i + n == |s| || !InClass(k, s[i + n])
    decreases |s| - i
  {
    if i == |s| || !InClass(k, s[i]) then 0 else 1 + RunLength(k, s, i + 1)
  }

  /** A range of a slice is the shifted range of the whole string. */
  lemma RangeOfSlice(k: CharClass, s: string, p: nat, e: nat, i: nat, j: nat)
    requires p <= e <= |s| && i <= j <= e - p
    ensures AllInRange(k, s[p..e], i, j) <==> AllInRange(k, s, p + i, p + j)
  {
    if AllInRange(k, s, p + i, p + j) {
      forall x | i <= x < j ensures InClass(k, s[p..e][x]) { assert s[p..e][x] == s[p + x]; }
    }
    if AllInRange(k, s[p..e], i, j) {
      forall x | p + i <= x < p + j ensures InClass(k, s[x]) { assert s[p..e][x - p] == s[x]; }
    }
  }

  /** `t` occurs in `s` at offset `i`. */
  predicate OccursAt(s: string, t: string, i: nat) {
    i + |t| <= |s| && s[i..i + |t|] == t
  }

  /** Python's `s.find(t, i)`: the first offset at or after `i` where `t` occurs, or -1. */
  function FindFrom(s: string, t: string, i: nat): (r: int)
    requires i <= |s|
    ensures r == -1 ==> forall j :: i <= j <= |s| ==> !OccursAt(s, t, j)
    ensures r != -1 ==> i <= r <= |s| && OccursAt(s, t, r)
    ensures r != -1 ==> forall j :: i <= j < r ==> !OccursAt(s, t, j)
    decreases |s| - i
  {
    if OccursAt(s, t, i) then i
    else if i == |s| then -1
    else FindFrom(s, t, i + 1)
  }

  /** Python's `s.find(t)`. */
  function Find(s: string, t: string): (r: int)
    ensures r == -1 <==> forall j :: 0 <= j <= |s| ==> !OccursAt(s, t, j)
    ensures r != -1 ==> 0 <= r <= |s| && OccursAt(s, t, r)
    ensures r != -1 ==> forall j :: 0 <= j < r ==> !OccursAt(s, t, j)
  {
    FindFrom(s, t, 0)
  }

  /** Python's `t in s`: `t` occurs at the start of `s` or further on. */
  predicate Contains(s: string, t: string)
    decreases |s|
  {
    OccursAt(s, t, 0) || (s != [] && Contains(s[1..], t))
  }

  /** An occurrence in `s[1..]` is an occurrence in `s`, one offset later. */
  lemma OccursShift(s: string, t: string, j: nat)
    requires s != []
    ensures OccursAt(s[1..], t, j) <==> OccursAt(s, t, j + 1)
  {
    if j + |t| <= |s[1..]| {
      assert s[1..][j..j + |t|] == s[j + 1..j + 1 + |t|];
    }
  }

  /** `t in s` exactly when `t` occurs at some offset of `s`. */
  lemma {:induction false} ContainsAt(s: string, t: string)
    ensures Contains(s, t) <==> exists j :: 0 <= j <= |s| && OccursAt(s, t, j)
    decreases |s|
  {
    if s != [] && !OccursAt(s, t, 0) {
      ContainsAt(s[1..], t);
      if Contains(s[1..], t) {
        var j :| 0 <= j <= |s[1..]| && OccursAt(s[1..], t, j);
        OccursShift(s, t, j);
      }
      if exists j :: 0 <= j <= |s| && OccursAt(s, t, j) {
        var j :| 0 <= j <= |s| && OccursAt(s, t, j);
        OccursShift(s, t, j - 1);
      }
    }
  }

  /** `t in s` exactly when `s.find(t)` finds it. */
  lemma ContainsFind(s: string, t: string)
    ensures Contains(s, t) <==> Find(s, t) != -1
  {
    ContainsAt(s, t);
  }

  /** What occurs in a slice occurs in the whole string. */
  lemma ContainsInSlice(s: string, a: nat, b: nat, t: string)
    requires a <= b <= |s|
    requires Contains(s[a..b], t)
    ensures Contains(s, t)
  {
    ContainsAt(s[a..b], t);
    ContainsAt(s, t);
    var j :| 0 <= j <= b - a && OccursAt(s[a..b], t, j);
    forall k | 0 <= k < |t| ensures s[a + j + k] == t[k] {
      assert t[k] == s[a..b][j + k];
    }
    assert s[a + j..a + j + |t|] == t;
    assert OccursAt(s, t, a + j);
  }

  /** `s.split(sep)[0]`: everything before the first occurrence of `sep`. */
  function Before(s: string, sep: string): (r: string)
    requires sep != []
    ensures |r| <= |s| && !Contains(r, sep)
    ensures Contains(s, sep) ==> r == s[..|r|] && OccursAt(s, sep, |r|)
    ensures Contains(s, sep) ==> forall j :: 0 <= j < |r| ==> !OccursAt(s, sep, j)
    ensures !Contains(s, sep) ==> r == s
  {
    ContainsFind(s, sep);
    var i := Find(s, sep);
    if i == -1 then s
    else
      var r := s[..i];
      ContainsFind(r, sep);
      forall j | 0 <= j <= |r| ensures !OccursAt(r, sep, j) {
        if OccursAt(r, sep, j) {
          assert r[j..j + |sep|] == sep;
          assert s[j..j + |sep|] == sep;
          assert OccursAt(s, sep, j);
        }
      }
      r
  }

  /** Number of whitespace characters at the end of `s`. */
  function TrailingSpaces(s: string): (n: nat)
    ensures n <= |s|
    ensures forall j :: |s| - n <= j < |s| ==> IsSpace(s[j])
    ensures n == |s| || !IsSpace(s[|s| - n - 1])
  {
    if s == [] || !IsSpace(s[|s| - 1]) then 0 else 1 + TrailingSpaces(s[..|s| - 1])
  }

  /** Python's `s.strip()`: `s` without its leading and trailing whitespace. */
  function Strip(s: string): (r: string)
    ensures r == [] || (!IsSpace(r[0]) && !IsSpace(r[|r| - 1]))
    ensures exists a :: 0 <= a <= |s| && OccursAt(s, r, a)
    ensures s == [] || (!IsSpace(s[0]) && !IsSpace(s[|s| - 1])) ==> r == s
  {
    var a := RunLength(Space, s, 0);
    var n := TrailingSpaces(s[a..]);
    StripEnds(s, a, n);
    StripUnchanged(s, a, n);
    var r := s[a..|s| - n];
    assert OccursAt(s, r, a);
    r
  }

  /** `strip` removes only whitespace: what it keeps is preceded and followed by whitespace alone. */
  lemma StripOnlySpaces(s: string)
    ensures exists a :: 0 <= a <= |s| && OccursAt(s, Strip(s), a) && AllInRange(Space, s, 0, a) && AllInRange(Space, s, a + |Strip(s)|, |s|)
  {
    var a := RunLength(Space, s, 0);
    var n := TrailingSpaces(s[a..]);
    StripSpaces(s, a, n);
    assert Strip(s) == s[a..|s| - n];
    assert OccursAt(s, Strip(s), a);
  }

  /** What `strip` removes, the leading run `a` and the trailing run `n`, is whitespace. */
  lemma StripSpaces(s: string, a: nat, n: nat)
    requires a == RunLength(Space, s, 0) && n == TrailingSpaces(s[a..])
    ensures a <= |s| - n <= |s| && AllInRange(Space, s, 0, a) && AllInRange(Space, s, |s| - n, |s|)
  {
    var u := s[a..];
    forall j | |s| - n <= j < |s| ensures InClass(Space, s[j]) {
      assert s[j] == u[j - a];
    }
  }

  /** What `strip` keeps neither starts nor ends with whitespace. */
  lemma StripEnds(s: string, a: nat, n: nat)
    requires a == RunLength(Space, s, 0) && n == TrailingSpaces(s[a..])
    ensures a <= |s| - n && var r := s[a..|s| - n]; r == [] || (!IsSpace(r[0]) && !IsSpace(r[|r| - 1]))
  {
    var u := s[a..];
    if a < |s| - n {
      assert s[a] == u[0];
      assert s[|s| - n - 1] == u[|u| - n - 1];
    }
  }

  /** A string without whitespace at either end has nothing to strip. */
  lemma StripUnchanged(s: string, a: nat, n: nat)
    requires a == RunLength(Space, s, 0) && n == TrailingSpaces(s[a..])
    ensures s == [] || (!IsSpace(s[0]) && !IsSpace(s[|s| - 1])) ==> a == 0 && n == 0
  {
  }

  /** Offset of the first line boundary at or after `i`, or `|s|`. */
  function LineEnd(s: string, i: nat): (j: nat)
    requires i <= |s|
    ensures i <= j <= |s|
    ensures forall k :: i <= k < j ==> !IsLineBreak(s[k])
    ensures j == |s| || IsLineBreak(s[j])
    decreases |s| - i
  {
    if i == |s| || IsLineBreak(s[i]) then i else LineEnd(s, i + 1)
  }

  /**
   * Python's `s.splitlines()`: the lines of `s` without their terminators; "\r\n"
   * is one terminator and a final terminator does not open an empty last line.
   */
  function SplitLines(s: string): seq<string>
    decreases |s|
  {
    if s == [] then []
    else
      var j := LineEnd(s, 0);
      if j == |s| then [s]
      else
        var w := if s[j] == '\r' && j + 1 < |s| && s[j + 1] == '\n' then 2 else 1;
        [s[..j]] + SplitLines(s[j + w..])
  }

  /** No line of `s.splitlines()` holds a line boundary. */
  lemma {:induction false} SplitLinesNoBreak(s: string)
    ensures forall k :: 0 <= k < |SplitLines(s)| ==> NoLineBreak(SplitLines(s)[k])
    decreases |s|
  {
    if s != [] {
      var j := LineEnd(s, 0);
      if j < |s| {
        var w := if s[j] == '\r' && j + 1 < |s| && s[j + 1] == '\n' then 2 else 1;
        SplitLinesNoBreak(s[j + w..]);
        SplitAt(s, j, w);
        NoBreakCons(s[..j], SplitLines(s[j + w..]));
      }
    }
  }

  lemma NoBreakCons(line: string, lines: seq<string>)
    requires NoLineBreak(line) && forall k :: 0 <= k < |lines| ==> NoLineBreak(lines[k])
    ensures forall k :: 0 <= k < |[line] + lines| ==> NoLineBreak(([line] + lines)[k])
  {
    forall k | 0 <= k < |[line] + lines| ensures NoLineBreak(([line] + lines)[k]) {
      if k > 0 {
        assert ([line] + lines)[k] == lines[k - 1];
      }
    }
  }

  /** The lines of a text whose first line ends at `j` with a terminator of `w` characters. */
  lemma SplitAt(s: string, j: nat, w: nat)
    requires j < |s| && j == LineEnd(s, 0)
    requires w == if s[j] == '\r' && j + 1 < |s| && s[j + 1] == '\n' then 2 else 1
    ensures SplitLines(s) == [s[..j]] + SplitLines(s[j + w..])
  {
  }

  /** Every line followed by "\n", as the cleaning loop of the script writes them back. */
  function Terminated(lines: seq<string>): string {
    if lines == [] then "" else lines[0] + "\n" + Terminated(lines[1..])
  }

  lemma SplitAround(s: string, j: nat)
    requires j < |s|
    ensures s == s[..j] + [s[j]] + s[j + 1..]
  {
  }

  /**
   * For text whose only line boundary is "\n", splitting into lines and writing
   * each back with a "\n" gives the text again, with a "\n" added if it lacked one.
   */
  lemma {:induction false} SplitLinesRoundTrip(s: string)
    requires forall i :: 0 <= i < |s| && IsLineBreak(s[i]) ==> s[i] == '\n'
    ensures Terminated(SplitLines(s)) == if s == [] || s[|s| - 1] == '\n' then s else s + "\n"
    decreases |s|
  {
    if s != [] {
      var j := LineEnd(s, 0);
      if j < |s| {
        var rest := s[j + 1..];
        OnlyNewlinesAfter(s, j + 1);
        SplitLinesRoundTrip(rest);
        SplitAt(s, j, 1);
        RoundTripStep(s, j, SplitLines(rest));
      } else {
        assert !IsLineBreak(s[|s| - 1]);
      }
    }
  }

  /** A suffix of a text whose only line boundary is "\n" has no other boundary either. */
  lemma OnlyNewlinesAfter(s: string, k: nat)
    requires k <= |s|
    requires forall i :: 0 <= i < |s| && IsLineBreak(s[i]) ==> s[i] == '\n'
    ensures forall i :: 0 <= i < |s[k..]| && IsLineBreak(s[k..][i]) ==> s[k..][i] == '\n'
  {
    forall i | 0 <= i < |s[k..]| && IsLineBreak(s[k..][i]) ensures s[k..][i] == '\n' {
      assert s[k..][i] == s[k + i];
    }
  }

  /** Writing back the first line, ending in "\n" at `j`, before the written-back rest. */
  lemma RoundTripStep(s: string, j: nat, tail: seq<string>)
    requires j < |s| && s[j] == '\n'
    requires var rest := s[j + 1..];
      Terminated(tail) == if rest == [] || rest[|rest| - 1] == '\n' then rest else rest + "\n"
    ensures Terminated([s[..j]] + tail) == if s[|s| - 1] == '\n' then s else s + "\n"
  {
    var rest := s[j + 1..];
    var ls := [s[..j]] + tail;
    assert ls[0] == s[..j] && ls[1..] == tail;
    assert Terminated(ls) == s[..j] + "\n" + Terminated(tail);
    SplitAround(s, j);
    if rest == [] {
      assert s[|s| - 1] == '\n';
    } else {
      assert s[|s| - 1] == rest[|rest| - 1];
    }
  }

  /** Python's `s.replace(",", ".")`. */
  function CommasToDots(s: string): (r: string)
    ensures |r| == |s|
    ensures forall i :: 0 <= i < |s| ==> r[i] == if s[i] == ',' then '.' else s[i]
  {
    if s == [] then [] else [if s[0] == ',' then '.' else s[0]] + CommasToDots(s[1..])
  }

  /** Python's `int(s)` on a string of ASCII digits. */
  function DigitsValue(s: string): nat
    requires AllIn(Digit, s)
  {
    if s == [] then 0 else 10 * DigitsValue(s[..|s| - 1]) + (s[|s| - 1] as int - '0' as int)
  }

  /**
   * `str.lower()` on one character: the ASCII and Latin-1 capitals, and the Turkish
   * capitals Ğ, Ş and İ (which lowers to "i" followed by a combining dot above).
   */
  function LowerChar(c: char): (r: string)
    ensures |r| >= 1
    ensures 'A' <= c <= 'Z' ==> |r| == 1 && 'a' <= r[0] <= 'z' && r[0] as int - 'a' as int == c as int - 'A' as int
    ensures !('A' <= c <= 'Z') && c as int < 0xC0 ==> r == [c]
  {
    if 'A' <= c <= 'Z' || ('\U{C0}' <= c <= '\U{DE}' && c != '\U{D7}') then [(c as int + 32) as char]
    else if c == 'Ğ' then ['ğ']
    else if c == 'Ş' then ['ş']
    else if c == 'İ' then ['i', '\U{307}']
    else [c]
  }

  /** `str.lower()`, character by character. */
  function Lower(s: string): (r: string)
    ensures |r| >= |s|
  {
    if s == [] then [] else LowerChar(s[0]) + Lower(s[1..])
  }

  /** Lowering a concatenation lowers each part. */
  lemma {:induction false} LowerAppend(a: string, b: string)
    ensures Lower(a + b) == Lower(a) + Lower(b)
    decreases |a|
  {
    if a != [] {
      assert (a + b)[0] == a[0] && (a + b)[1..] == a[1..] + b;
      LowerAppend(a[1..], b);
    } else {
      assert a + b == b;
    }
  }

  /** A name that holds a course name as written still holds it once both are lowered. */
  lemma LowerKeepsContains(s: string, t: string)
    ensures Contains(s, t) ==> Contains(Lower(s), Lower(t))
  {
    if Contains(s, t) {
      ContainsAt(s, t);
      var j :| 0 <= j <= |s| && OccursAt(s, t, j);
      var k := LowerOccurs(s, t, j);
      ContainsAt(Lower(s), Lower(t));
    }
  }

  /** An occurrence of `t` in `s` gives an occurrence of the lowered `t` in the lowered `s`. */
  lemma LowerOccurs(s: string, t: string, j: nat) returns (k: nat)
    requires OccursAt(s, t, j)
    ensures k <= |Lower(s)| && OccursAt(Lower(s), Lower(t), k)
  {
    var u := s[j + |t|..];
    assert s == s[..j] + t + u;
    LowerAppend(s[..j] + t, u);
    LowerAppend(s[..j], t);
    k := |Lower(s[..j])|;
    var l := Lower(s);
    assert l == Lower(s[..j]) + Lower(t) + Lower(u);
    assert l[k..k + |Lower(t)|] == Lower(t);
  }
}
