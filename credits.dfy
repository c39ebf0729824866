/**
 * The credit total the page shows: the transcript rows are deduplicated on
 * (course code, course name), keeping the last occurrence as `drop_duplicates(...,
 * keep="last")` does, and the credits of the remaining rows not graded "F" are added up.
 */
module Credits {
  import opened Transcript

  /** The key `drop_duplicates` compares rows on: `["Kodu", "Ders Adı"]`. */
  function Key(c: Course): (string, string) {
    (c.code, c.name)
  }

  /** Some row of `rows` has key `k`. */
  predicate HasKey(rows: seq<Course>, k: (string, string)) {
    exists i :: 0 <= i < |rows| && Key(rows[i]) == k
  }

  /** `df.drop_duplicates(subset=["Kodu", "Ders Adı"], keep="last")`: a row stays when no later row has its key. */
  function DedupLast(rows: seq<Course>): seq<Course> {
    if rows == [] then []
    else if HasKey(rows[1..], Key(rows[0])) then DedupLast(rows[1..])
    else [rows[0]] + DedupLast(rows[1..])
  }

  /** The rows whose key is not `k`, in order. */
  function Without(rows: seq<Course>, k: (string, string)): seq<Course> {
    if rows == [] then []
    else (if Key(rows[0]) == k then [] else [rows[0]]) + Without(rows[1..], k)
  }

  /** `df[df["Harf Notu"] != "F"]["AKTS"].sum()` */
  function PassedCredits(rows: seq<Course>): nat {
    if rows == [] then 0
    else (if rows[0].grade != "F" then rows[0].credit else 0) + PassedCredits(rows[1..])
  }

  /** `toplam_akts` */
  function TotalCredits(rows: seq<Course>): nat {
    PassedCredits(DedupLast(rows))
  }

  /** Keys are pairwise distinct. */
  predicate DistinctKeys(rows: seq<Course>) {
    forall i, j :: 0 <= i < j < |rows| ==> Key(rows[i]) != Key(rows[j])
  }

  lemma HasKeyCons(x: Course, rows: seq<Course>, k: (string, string))
    ensures HasKey([x] + rows, k) <==> Key(x) == k || HasKey(rows, k)
  {
    assert ([x] + rows)[0] == x;
    if HasKey(rows, k) {
      var i :| 0 <= i < |rows| && Key(rows[i]) == k;
      assert ([x] + rows)[i + 1] == rows[i];
    }
    if HasKey([x] + rows, k) && Key(x) != k {
      var i :| 0 <= i < |[x] + rows| && Key(([x] + rows)[i]) == k;
      assert rows[i - 1] == ([x] + rows)[i];
    }
  }

  /** Keys survive deduplication: a key occurs afterwards exactly when it did before. */
  lemma {:induction false} DedupKeys(rows: seq<Course>, k: (string, string))
    ensures HasKey(DedupLast(rows), k) <==> HasKey(rows, k)
    decreases |rows|
  {
    if rows != [] {
      var rest := rows[1..];
      assert rows == [rows[0]] + rest;
      DedupKeys(rest, k);
      HasKeyCons(rows[0], rest, k);
      if !HasKey(rest, Key(rows[0])) {
        HasKeyCons(rows[0], DedupLast(rest), k);
      }
    }
  }

  /** After deduplication every key occurs once. */
  lemma {:induction false} DedupDistinct(rows: seq<Course>)
    ensures DistinctKeys(DedupLast(rows))
    decreases |rows|
  {
    if rows != [] {
      var rest := rows[1..];
      DedupDistinct(rest);
      if !HasKey(rest, Key(rows[0])) {
        var d := [rows[0]] + DedupLast(rest);
        DedupKeys(rest, Key(rows[0]));
        forall i, j | 0 <= i < j < |d| ensures Key(d[i]) != Key(d[j]) {
          if i == 0 {
            assert d[j] == DedupLast(rest)[j - 1];
          } else {
            assert d[i] == DedupLast(rest)[i - 1] && d[j] == DedupLast(rest)[j - 1];
          }
        }
      }
    }
  }

  /**
   * A row survives deduplication exactly when it is the last occurrence of its key:
   * no later row has the same code and name.
   */
  lemma {:induction false} DedupKeepsLast(rows: seq<Course>, r: Course)
    ensures r in DedupLast(rows) <==> exists i :: 0 <= i < |rows| && rows[i] == r && !HasKey(rows[i + 1..], Key(r))
    decreases |rows|
  {
    if rows != [] {
      var rest := rows[1..];
      DedupKeepsLast(rest, r);
      if exists i :: 0 <= i < |rest| && rest[i] == r && !HasKey(rest[i + 1..], Key(r)) {
        var i :| 0 <= i < |rest| && rest[i] == r && !HasKey(rest[i + 1..], Key(r));
        assert rows[i + 1] == r && rows[i + 2..] == rest[i + 1..];
      }
      if exists i :: 0 <= i < |rows| && rows[i] == r && !HasKey(rows[i + 1..], Key(r)) {
        var i :| 0 <= i < |rows| && rows[i] == r && !HasKey(rows[i + 1..], Key(r));
        if i > 0 {
          assert rest[i - 1] == r && rest[i..] == rows[i + 1..];
        } else {
          assert rows[1..] == rest;
        }
      }
    }
  }

  lemma {:induction false} WithoutKeys(rows: seq<Course>, k: (string, string), k': (string, string))
    requires k' != k
    ensures HasKey(Without(rows, k), k') <==> HasKey(rows, k')
    decreases |rows|
  {
    if rows != [] {
      var rest := rows[1..];
      assert rows == [rows[0]] + rest;
      WithoutKeys(rest, k, k');
      HasKeyCons(rows[0], rest, k');
      if Key(rows[0]) != k {
        HasKeyCons(rows[0], Without(rest, k), k');
      } else {
        assert Without(rows, k) == Without(rest, k);
      }
    }
  }

  /**
   * A row appended to the transcript (a retake) replaces every earlier row with its
   * key: the deduplicated rows are those of the earlier rows of other keys, then the new row.
   */
  lemma {:induction false} DedupSnoc(rows: seq<Course>, r: Course)
    ensures DedupLast(rows + [r]) == DedupLast(Without(rows, Key(r))) + [r]
    decreases |rows|
  {
    var k := Key(r);
    if rows == [] {
      assert !HasKey([], k);
    } else {
      var x := rows[0];
      var rest := rows[1..];
      assert rows + [r] == [x] + (rest + [r]);
      assert (rows + [r])[1..] == rest + [r];
      DedupSnoc(rest, r);
      HasKeyCons(r, [], Key(x));
      assert HasKey([r], Key(x)) <==> Key(r) == Key(x);
      HasKeyAppend(rest, [r], Key(x));
      if Key(x) == k {
        assert Without(rows, k) == Without(rest, k);
      } else {
        assert Without(rows, k) == [x] + Without(rest, k);
        assert Without(rows, k)[1..] == Without(rest, k);
        WithoutKeys(rest, k, Key(x));
      }
    }
  }

  lemma HasKeyAppend(a: seq<Course>, b: seq<Course>, k: (string, string))
    ensures HasKey(a + b, k) <==> HasKey(a, k) || HasKey(b, k)
  {
    if HasKey(a, k) {
      var i :| 0 <= i < |a| && Key(a[i]) == k;
      assert (a + b)[i] == a[i];
    }
    if HasKey(b, k) {
      var i :| 0 <= i < |b| && Key(b[i]) == k;
      assert (a + b)[|a| + i] == b[i];
    }
  }

  /** Rows whose keys are already distinct are left as they are. */
  lemma {:induction false} DedupDistinctIdentity(rows: seq<Course>)
    requires DistinctKeys(rows)
    ensures DedupLast(rows) == rows
    decreases |rows|
  {
    if rows != [] {
      var rest := rows[1..];
      assert DistinctKeys(rest) by {
        forall i, j | 0 <= i < j < |rest| ensures Key(rest[i]) != Key(rest[j]) {
          assert rest[i] == rows[i + 1] && rest[j] == rows[j + 1];
        }
      }
      DedupDistinctIdentity(rest);
    }
  }

  /** Deduplicating twice is deduplicating once. */
  lemma DedupIdempotent(rows: seq<Course>)
    ensures DedupLast(DedupLast(rows)) == DedupLast(rows)
  {
    DedupDistinct(rows);
    DedupDistinctIdentity(DedupLast(rows));
  }

  lemma {:induction false} PassedCreditsSnoc(rows: seq<Course>, r: Course)
    ensures PassedCredits(rows + [r]) == PassedCredits(rows) + if r.grade != "F" then r.credit else 0
    decreases |rows|
  {
    if rows != [] {
      assert (rows + [r])[1..] == rows[1..] + [r];
      PassedCreditsSnoc(rows[1..], r);
    }
  }

  /**
   * The total after a retake: the credits of the earlier rows of other courses,
   * plus the new row's credits when it is not graded "F". An earlier attempt of the
   * same course counts no longer, whatever its grade.
   */
  lemma TotalAfterRetake(rows: seq<Course>, r: Course)
    ensures TotalCredits(rows + [r]) == TotalCredits(Without(rows, Key(r))) + if r.grade != "F" then r.credit else 0
  {
    DedupSnoc(rows, r);
    PassedCreditsSnoc(DedupLast(Without(rows, Key(r))), r);
  }

  /** Without repeated courses the total is the plain sum over the rows not graded "F". */
  lemma TotalWithoutRepeats(rows: seq<Course>)
    requires DistinctKeys(rows)
    ensures TotalCredits(rows) == PassedCredits(rows)
  {
    DedupDistinctIdentity(rows);
  }
}
