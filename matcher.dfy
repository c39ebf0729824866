/**
 * A backtracking matcher for the regular expressions of the transcript script.
 *
 * A pattern is a sequence of items, each a repeated character class (`\d+`, `\s*`,
 * `.+?`, `\d{5,7}`) or a choice among words (`Güz|Bahar`, an optional group of
 * alternatives). Like Python's `re`, the matcher tries the choices of the first item
 * in the engine's order (a greedy repeat longest first, a lazy repeat shortest first,
 * alternatives left to right, an optional group before its omission) and backtracks
 * to the next choice when the rest of the pattern fails.
 */
module Matcher {
  import opened Wrappers
  import opened Text

  /**
   * `Repeat(k, lo, hi, greedy)` is `k{lo,hi}` (no upper bound when `hi` is `None`),
   * lazy unless `greedy`; `OneOf(words, optional)` is `(w1|w2|...)`, optional when
   * followed by `?`.
   */
  datatype Item =
    | Repeat(k: CharClass, lo: nat, hi: Option<nat>, greedy: bool)
    | OneOf(words: seq<string>, optional: bool)

  /** Item `it` matches exactly `s[i..j]`. */
  ghost predicate ItemOk(it: Item, s: string, i: nat, j: nat) {
    match it
    case Repeat(k, lo, hi, _) =>
      i + lo <= j && (hi.None? || j <= i + hi.value) && AllInRange(k, s, i, j)
    case OneOf(words, optional) =>
      i <= j <= |s|
      && ((optional && j == i) || exists w :: 0 <= w < |words| && j == i + |words[w]| && OccursAt(s, words[w], i))
  }

  /** The items match `s` from `i` on, item `t` ending at `ends[t]`. */
  ghost predicate Fits(items: seq<Item>, s: string, i: nat, ends: seq<nat>)
    decreases |items|
  {
    |ends| == |items|
    && (items == [] || (ItemOk(items[0], s, i, ends[0]) && Fits(items[1..], s, ends[0], ends[1..])))
  }

  /** Where item `t` starts: at `i` for the first item, where the previous one ended otherwise. */
  function StartOf(i: nat, ends: seq<nat>, t: nat): nat
    requires t <= |ends|
  {
    if t == 0 then i else ends[t - 1]
  }

  /** `hi, hi - 1, ..., lo`: the lengths a greedy repeat tries. */
  function Descending(lo: nat, hi: nat): (r: seq<nat>)
    ensures forall j :: j in r <==> lo <= j <= hi
    ensures |r| == if lo <= hi then hi - lo + 1 else 0
    ensures forall k :: 0 <= k < |r| ==> r[k] == hi - k
    decreases hi
  {
    if hi < lo then [] else if hi == lo then [lo] else [hi] + Descending(lo, hi - 1)
  }

  /** `lo, lo + 1, ..., hi`: the lengths a lazy repeat tries. */
  function Ascending(lo: nat, hi: nat): (r: seq<nat>)
    ensures forall j :: j in r <==> lo <= j <= hi
    ensures |r| == if lo <= hi then hi - lo + 1 else 0
    ensures forall k :: 0 <= k < |r| ==> r[k] == lo + k
    decreases hi + 1 - lo
  {
    if hi < lo then [] else [lo] + Ascending(lo + 1, hi)
  }

  /** The ends of the words that occur at `i`, in the order the alternatives are written. */
  function WordEnds(words: seq<string>, s: string, i: nat): (r: seq<nat>)
    ensures forall j :: j in r <==> exists w :: 0 <= w < |words| && j == i + |words[w]| && OccursAt(s, words[w], i)
    decreases |words|
  {
    if words == [] then []
    else
      var rest := WordEnds(words[1..], s, i);
      assert forall w :: 0 <= w < |words| - 1 ==> words[1..][w] == words[w + 1];
      if OccursAt(s, words[0], i) then [i + |words[0]|] + rest else rest
  }

  /** The ends that item `it` can reach from `i`, in the order the engine tries them. */
  function Choices(it: Item, s: string, i: nat): seq<nat> {
    if |s| < i then []
    else
      match it
      case Repeat(k, lo, hi, greedy) =>
        var n := RunLength(k, s, i);
        var top := if hi.Some? && hi.value < n then hi.value else n;
        if greedy then Descending(i + lo, i + top) else Ascending(i + lo, i + top)
      case OneOf(words, optional) =>
        WordEnds(words, s, i) + (if optional then [i] else [])
  }

  /**
   * The ends of `WordEnds` are those of the words that occur at `i`, in written order:
   * `idx` lists the indices of exactly those words, increasing.
   */
  lemma {:induction false} WordEndsOrder(words: seq<string>, s: string, i: nat) returns (idx: seq<nat>)
    ensures |idx| == |WordEnds(words, s, i)|
    ensures forall k :: 0 <= k < |idx| ==>
      idx[k] < |words| && OccursAt(s, words[idx[k]], i) && WordEnds(words, s, i)[k] == i + |words[idx[k]]|
    ensures forall k, l :: 0 <= k < l < |idx| ==> idx[k] < idx[l]
    ensures forall w :: 0 <= w < |words| && OccursAt(s, words[w], i) ==> w in idx
    decreases |words|
  {
    if words == [] {
      idx := [];
    } else {
      var ws := words[1..];
      var tail := WordEndsOrder(ws, s, i);
      var shifted := seq(|tail|, k requires 0 <= k < |tail| => tail[k] + 1);
      ShiftIncreasing(tail, shifted);
      ShiftFound(words, s, i, tail, shifted);
      ShiftCovers(words, s, i, tail, shifted);
      idx := ConsIndex(words, s, i, shifted);
    }
  }

  /** The indices found for `words[1..]`, plus one, are indices of `words` with the same ends. */
  lemma ShiftFound(words: seq<string>, s: string, i: nat, tail: seq<nat>, shifted: seq<nat>)
    requires words != [] && |tail| == |WordEnds(words[1..], s, i)|
    requires forall k :: 0 <= k < |tail| ==>
      tail[k] < |words[1..]| && OccursAt(s, words[1..][tail[k]], i) && WordEnds(words[1..], s, i)[k] == i + |words[1..][tail[k]]|
    requires |shifted| == |tail| && forall k :: 0 <= k < |tail| ==> shifted[k] == tail[k] + 1
    ensures forall k :: 0 <= k < |shifted| ==>
      1 <= shifted[k] < |words| && OccursAt(s, words[shifted[k]], i)
      && WordEnds(words[1..], s, i)[k] == i + |words[shifted[k]]|
  {
    forall k | 0 <= k < |shifted|
      ensures 1 <= shifted[k] < |words| && OccursAt(s, words[shifted[k]], i)
        && WordEnds(words[1..], s, i)[k] == i + |words[shifted[k]]|
    {
      assert words[1..][tail[k]] == words[shifted[k]];
    }
  }

  /** Every word after the first that occurs has its index among the shifted ones. */
  lemma ShiftCovers(words: seq<string>, s: string, i: nat, tail: seq<nat>, shifted: seq<nat>)
    requires words != []
    requires forall w :: 0 <= w < |words[1..]| && OccursAt(s, words[1..][w], i) ==> w in tail
    requires |shifted| == |tail| && forall k :: 0 <= k < |tail| ==> shifted[k] == tail[k] + 1
    ensures forall w :: 1 <= w < |words| && OccursAt(s, words[w], i) ==> w in shifted
  {
    forall w | 1 <= w < |words| && OccursAt(s, words[w], i) ensures w in shifted {
      assert words[1..][w - 1] == words[w];
      var k :| 0 <= k < |tail| && tail[k] == w - 1;
      assert shifted[k] == w;
    }
  }

  /** One step of `WordEndsOrder`: the first word's index, when it occurs, before the others'. */
  lemma ConsIndex(words: seq<string>, s: string, i: nat, shifted: seq<nat>) returns (idx: seq<nat>)
    requires words != [] && |shifted| == |WordEnds(words[1..], s, i)|
    requires forall k :: 0 <= k < |shifted| ==>
      1 <= shifted[k] < |words| && OccursAt(s, words[shifted[k]], i)
      && WordEnds(words[1..], s, i)[k] == i + |words[shifted[k]]|
    requires forall k, l :: 0 <= k < l < |shifted| ==> shifted[k] < shifted[l]
    requires forall k, l :: 0 <= k < l < |[0] + shifted| ==> ([0] + shifted)[k] < ([0] + shifted)[l]
    requires forall w :: 1 <= w < |words| && OccursAt(s, words[w], i) ==> w in shifted
    ensures |idx| == |WordEnds(words, s, i)|
    ensures forall k :: 0 <= k < |idx| ==>
      idx[k] < |words| && OccursAt(s, words[idx[k]], i) && WordEnds(words, s, i)[k] == i + |words[idx[k]]|
    ensures forall k, l :: 0 <= k < l < |idx| ==> idx[k] < idx[l]
    ensures forall w :: 0 <= w < |words| && OccursAt(s, words[w], i) ==> w in idx
  {
    var rest := WordEnds(words[1..], s, i);
    if OccursAt(s, words[0], i) {
      assert WordEnds(words, s, i) == [i + |words[0]|] + rest;
      idx := [0] + shifted;
    } else {
      assert WordEnds(words, s, i) == rest;
      idx := shifted;
    }
  }

  /** Adding one to increasing indices keeps them increasing and above 0. */
  lemma ShiftIncreasing(tail: seq<nat>, shifted: seq<nat>)
    requires |shifted| == |tail| && forall k :: 0 <= k < |tail| ==> shifted[k] == tail[k] + 1
    requires forall k, l :: 0 <= k < l < |tail| ==> tail[k] < tail[l]
    ensures forall k, l :: 0 <= k < l < |shifted| ==> shifted[k] < shifted[l]
    ensures forall k, l :: 0 <= k < l < |[0] + shifted| ==> ([0] + shifted)[k] < ([0] + shifted)[l]
  {
    var c := [0] + shifted;
    forall k, l | 0 <= k < l < |c| ensures c[k] < c[l] {
      assert c[l] == shifted[l - 1];
      if k > 0 {
        assert c[k] == shifted[k - 1];
      }
    }
  }

  /**
   * The order in which the engine tries an item's ends: a greedy repeat longest first, a
   * lazy repeat shortest first, and an alternation its matching words in written order
   * and then, when optional, the empty choice last.
   */
  lemma ChoicesOrder(it: Item, s: string, i: nat)
    requires i <= |s|
    ensures it.Repeat? && it.greedy ==> forall a, b :: 0 <= a < b < |Choices(it, s, i)| ==> Choices(it, s, i)[a] > Choices(it, s, i)[b]
    ensures it.Repeat? && !it.greedy ==> forall a, b :: 0 <= a < b < |Choices(it, s, i)| ==> Choices(it, s, i)[a] < Choices(it, s, i)[b]
    ensures it.OneOf? ==> Choices(it, s, i)[..|WordEnds(it.words, s, i)|] == WordEnds(it.words, s, i)
    ensures it.OneOf? ==> |Choices(it, s, i)| == |WordEnds(it.words, s, i)| + (if it.optional then 1 else 0)
    ensures it.OneOf? && it.optional ==> Choices(it, s, i)[|Choices(it, s, i)| - 1] == i
  {
  }

  /** The choices are exactly the ends at which the item matches. */
  lemma ChoicesExact(it: Item, s: string, i: nat)
    requires i <= |s|
    ensures forall j :: j in Choices(it, s, i) <==> ItemOk(it, s, i, j)
  {
    match it
    case Repeat(k, lo, hi, greedy) =>
      forall j: nat | ItemOk(it, s, i, j) ensures j <= i + RunLength(k, s, i) {
        RangeWithinRun(k, s, i, j);
      }
    case OneOf(words, optional) =>
  }

  /** A run of class `k` from `i` ends within the longest such run from `i`. */
  lemma RangeWithinRun(k: CharClass, s: string, i: nat, j: nat)
    requires AllInRange(k, s, i, j)
    ensures j <= i + RunLength(k, s, i)
  {
  }

  /** The first way, in the engine's order, in which `items` match `s` from `i` on. */
  function Run(items: seq<Item>, s: string, i: nat): Option<seq<nat>>
    decreases |items|, 1
  {
    if items == [] then Some([])
    else TryEach(items, s, Choices(items[0], s, i))
  }

  /** Tries the ends `ls` of the first item in order, each followed by the rest of the items. */
  function TryEach(items: seq<Item>, s: string, ls: seq<nat>): Option<seq<nat>>
    requires items != []
    decreases |items|, 0, |ls|
  {
    if ls == [] then None
    else
      match Run(items[1..], s, ls[0])
      case Some(rest) => Some([ls[0]] + rest)
      case None => TryEach(items, s, ls[1..])
  }

  /** What `Run` finds is a match. */
  lemma {:induction false} RunSound(items: seq<Item>, s: string, i: nat)
    requires Run(items, s, i).Some?
    ensures Fits(items, s, i, Run(items, s, i).value)
    decreases |items|, 1
  {
    if items != [] {
      if i <= |s| {
        ChoicesExact(items[0], s, i);
      }
      TryEachSound(items, s, i, Choices(items[0], s, i));
    }
  }

  /** What `TryEach` finds is a match whose first item ends at one of `ls`. */
  lemma {:induction false} TryEachSound(items: seq<Item>, s: string, i: nat, ls: seq<nat>)
    requires items != [] && TryEach(items, s, ls).Some?
    requires forall j :: j in ls ==> ItemOk(items[0], s, i, j)
    ensures Fits(items, s, i, TryEach(items, s, ls).value) && TryEach(items, s, ls).value[0] in ls
    decreases |items|, 0, |ls|
  {
    match Run(items[1..], s, ls[0])
    case Some(rest) =>
      RunSound(items[1..], s, ls[0]);
      assert ([ls[0]] + rest)[1..] == rest;
    case None =>
      TryEachSound(items, s, i, ls[1..]);
  }

  /** Each item of a fitting match covers the stretch from where the previous one ended. */
  lemma {:induction false} FitsPieces(items: seq<Item>, s: string, i: nat, ends: seq<nat>)
    requires Fits(items, s, i, ends)
    ensures |ends| == |items|
    ensures forall t :: 0 <= t < |items| ==> ItemOk(items[t], s, StartOf(i, ends, t), ends[t])
    decreases |items|
  {
    if items != [] {
      FitsPieces(items[1..], s, ends[0], ends[1..]);
      forall t | 1 <= t < |items| ensures ItemOk(items[t], s, StartOf(i, ends, t), ends[t]) {
        assert items[1..][t - 1] == items[t] && ends[1..][t - 1] == ends[t];
        assert StartOf(ends[0], ends[1..], t - 1) == StartOf(i, ends, t);
      }
    }
  }

  /** An item that matches `s[i..j]` lies within `s`. */
  lemma ItemWithin(it: Item, s: string, i: nat, j: nat)
    requires ItemOk(it, s, i, j)
    ensures i <= j <= |s|
  {
  }

  /** The ends stay within `i..|s|` and never go back. */
  ghost predicate Ordered(s: string, i: nat, ends: seq<nat>) {
    (forall t :: 0 <= t < |ends| ==> i <= ends[t] <= |s|)
    && forall t, u :: 0 <= t <= u < |ends| ==> ends[t] <= ends[u]
  }

  /** The ends of a fitting match are ordered. */
  lemma {:induction false} FitsOrdered(items: seq<Item>, s: string, i: nat, ends: seq<nat>)
    requires Fits(items, s, i, ends)
    ensures Ordered(s, i, ends)
    decreases |items|
  {
    if items != [] {
      ItemWithin(items[0], s, i, ends[0]);
      FitsOrdered(items[1..], s, ends[0], ends[1..]);
      assert forall t :: 1 <= t < |ends| ==> ends[t] == ends[1..][t - 1];
    }
  }

  /** Offset of the first occurrence of `x` in `ls`. */
  function IndexOf(ls: seq<nat>, x: nat): (k: nat)
    requires x in ls
    ensures k < |ls| && ls[k] == x && x !in ls[..k]
  {
    if ls[0] == x then 0 else 1 + IndexOf(ls[1..], x)
  }

  /**
   * Match `a` is tried no later than match `b`: they agree up to some item, and there
   * `a`'s end comes first among the item's choices.
   */
  ghost predicate Precedes(items: seq<Item>, s: string, i: nat, a: seq<nat>, b: seq<nat>)
    requires Fits(items, s, i, a) && Fits(items, s, i, b)
    decreases |items|
  {
    items == [] || PrecedesAmong(Choices(items[0], s, i), items, s, i, a, b)
  }

  /** `Precedes`, with the first item's choices tried in the order `ls`. */
  ghost predicate PrecedesAmong(ls: seq<nat>, items: seq<Item>, s: string, i: nat, a: seq<nat>, b: seq<nat>)
    requires items != [] && Fits(items, s, i, a) && Fits(items, s, i, b)
    decreases |items|, 0
  {
    (a[0] == b[0] && Precedes(items[1..], s, a[0], a[1..], b[1..]))
    || (a[0] in ls && b[0] in ls && IndexOf(ls, a[0]) < IndexOf(ls, b[0]))
  }

  /** What `Run` finds is the first match in the order in which the engine tries them. */
  lemma {:induction false} RunFirst(items: seq<Item>, s: string, i: nat, b: seq<nat>)
    requires Fits(items, s, i, b)
    ensures Run(items, s, i).Some? && Fits(items, s, i, Run(items, s, i).value)
    ensures Precedes(items, s, i, Run(items, s, i).value, b)
    decreases |items|, 1
  {
    if items != [] {
      ItemWithin(items[0], s, i, b[0]);
      ChoicesExact(items[0], s, i);
      TryEachFirst(items, s, i, Choices(items[0], s, i), b);
    }
  }

  /** `TryEach` over `ls` finds a match no later than any match whose first end is in `ls`. */
  lemma {:induction false} TryEachFirst(items: seq<Item>, s: string, i: nat, ls: seq<nat>, b: seq<nat>)
    requires items != []
    requires forall j :: j in ls ==> ItemOk(items[0], s, i, j)
    requires Fits(items, s, i, b) && b[0] in ls
    ensures TryEach(items, s, ls).Some? && Fits(items, s, i, TryEach(items, s, ls).value)
    ensures PrecedesAmong(ls, items, s, i, TryEach(items, s, ls).value, b)
    decreases |items|, 0, |ls|
  {
    var j := ls[0];
    if b[0] == j {
      RunFirst(items[1..], s, j, b[1..]);
      var rest := Run(items[1..], s, j).value;
      assert TryEach(items, s, ls) == Some([j] + rest);
      assert ([j] + rest)[1..] == rest;
    } else {
      match Run(items[1..], s, j)
      case Some(rest) =>
        RunSound(items[1..], s, j);
        assert TryEach(items, s, ls) == Some([j] + rest);
        assert ([j] + rest)[1..] == rest;
        assert IndexOf(ls, j) == 0;
      case None =>
        assert b[0] in ls[1..];
        TryEachFirst(items, s, i, ls[1..], b);
        var a := TryEach(items, s, ls[1..]).value;
        TryEachSound(items, s, i, ls[1..]);
        assert TryEach(items, s, ls) == Some(a);
        if a[0] != b[0] {
          assert Fits(items[1..], s, a[0], a[1..]);
          assert a[0] != j by {
            if a[0] == j {
              RunFirst(items[1..], s, j, a[1..]);
            }
          }
          assert IndexOf(ls, a[0]) == 1 + IndexOf(ls[1..], a[0]);
          assert IndexOf(ls, b[0]) == 1 + IndexOf(ls[1..], b[0]);
        }
    }
  }

  /** `ends` is a match of `items` at `i`, tried no later than any other. */
  ghost predicate First(items: seq<Item>, s: string, i: nat, ends: seq<nat>) {
    Fits(items, s, i, ends) && forall b :: Fits(items, s, i, b) ==> Precedes(items, s, i, ends, b)
  }

  /** What `Run` finds is the first match. */
  lemma RunIsFirst(items: seq<Item>, s: string, i: nat)
    requires Run(items, s, i).Some?
    ensures Fits(items, s, i, Run(items, s, i).value) && First(items, s, i, Run(items, s, i).value)
  {
    RunSound(items, s, i);
    forall b | Fits(items, s, i, b) ensures Precedes(items, s, i, Run(items, s, i).value, b) {
      RunFirst(items, s, i, b);
    }
  }

  // Search

  /**
   * `re.search` from offset `p`: the first offset from `p` on at which the items match,
   * with the match the engine finds there.
   */
  function Search(items: seq<Item>, s: string, p: nat): Option<(nat, seq<nat>)>
    decreases |s| + 1 - p
  {
    if |s| < p then None
    else
      match Run(items, s, p)
      case Some(ends) => Some((p, ends))
      case None => Search(items, s, p + 1)
  }

  /** What `Search` finds is the first match at the leftmost offset where the items match. */
  lemma {:induction false} SearchFinds(items: seq<Item>, s: string, p: nat)
    requires Search(items, s, p).Some?
    ensures var q := Search(items, s, p).value.0;
      p <= q <= |s| && First(items, s, q, Search(items, s, p).value.1)
      && forall r, e :: p <= r < q ==> !Fits(items, s, r, e)
    decreases |s| + 1 - p
  {
    match Run(items, s, p)
    case Some(ends) =>
      RunIsFirst(items, s, p);
    case None =>
      forall e | Fits(items, s, p, e) ensures false {
        RunFirst(items, s, p, e);
      }
      SearchFinds(items, s, p + 1);
  }

  /** `Search` finds nothing only when the items match at no offset from `p` on. */
  lemma {:induction false} SearchMisses(items: seq<Item>, s: string, p: nat)
    requires Search(items, s, p).None?
    ensures forall r, e :: p <= r <= |s| ==> !Fits(items, s, r, e)
    decreases |s| + 1 - p
  {
    if p <= |s| {
      forall e | Fits(items, s, p, e) ensures false {
        RunFirst(items, s, p, e);
      }
      SearchMisses(items, s, p + 1);
    }
  }
}
