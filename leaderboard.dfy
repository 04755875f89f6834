/**
 * The leaderboard selection `[...scores].sort((a, b) => b.score - a.score).slice(0, 10)`:
 * a stable sort by score, highest first, cut to the ten best rows. The same
 * expression merges a finished game into the stored leaderboard.
 */
module Leaderboard {

  datatype Entry = Entry(name: string, score: int)

  /** How many rows the leaderboard keeps. */
  const Capacity: nat := 10

  function Min(a: nat, b: nat): nat { if a <= b then a else b }

  /** No row is followed by a row with a higher score. */
  predicate Sorted(s: seq<Entry>)
  {
    forall i, j :: 0 <= i < j < |s| ==> s[i].score >= s[j].score
  }

  /** The rows of `s` that score exactly `k`, in the order `s` lists them. */
  function WithScore(s: seq<Entry>, k: int): seq<Entry>
  {
    if s == [] then [] else (if s[0].score == k then [s[0]] else []) + WithScore(s[1..], k)
  }

  /** Every group of equal scores appears in the same relative order in `a` and `b`. */
  ghost predicate SameTies(a: seq<Entry>, b: seq<Entry>)
  {
    forall k :: WithScore(a, k) == WithScore(b, k)
  }

  /** Places `e` in front of the first row that does not score higher, so ties keep `e` first. */
  function Insert(e: Entry, s: seq<Entry>): (r: seq<Entry>)
    ensures |r| == |s| + 1
    ensures multiset(r) == multiset(s) + multiset{e}
    ensures r[0] == e || (s != [] && r[0] == s[0])
  {
    if s == [] || e.score >= s[0].score then
      [e] + s
    else
      assert s == [s[0]] + s[1..];
      [s[0]] + Insert(e, s[1..])
  }

  lemma {:induction false} InsertSorted(e: Entry, s: seq<Entry>)
    requires Sorted(s)
    ensures Sorted(Insert(e, s))
  {
    if s != [] && e.score < s[0].score {
      var rest := Insert(e, s[1..]);
      InsertSorted(e, s[1..]);
      assert rest[0].score <= s[0].score;
      var r := [s[0]] + rest;
      forall i, j | 0 <= i < j < |r| ensures r[i].score >= r[j].score {
        assert r[j] == rest[j - 1];
        if i > 0 {
          assert r[i] == rest[i - 1];
        } else {
          assert rest[0].score >= rest[j - 1].score;
        }
      }
    }
  }

  /** Stable insertion sort, highest score first: the order `Array.prototype.sort` must produce. */
  function SortByScore(s: seq<Entry>): (r: seq<Entry>)
    ensures |r| == |s|
    ensures multiset(r) == multiset(s)
    ensures Sorted(r)
  {
    if s == [] then
      []
    else
      assert s == [s[0]] + s[1..];
      InsertSorted(s[0], SortByScore(s[1..]));
      Insert(s[0], SortByScore(s[1..]))
  }

  /** `topScores`: the ten best rows, best first. */
  function TopScores(scores: seq<Entry>): (top: seq<Entry>)
    ensures |top| == Min(Capacity, |scores|)
    ensures Sorted(top)
    ensures multiset(top) <= multiset(scores)
  {
    var sorted := SortByScore(scores);
    assert sorted == sorted[..Min(Capacity, |scores|)] + sorted[Min(Capacity, |scores|)..];
    sorted[..Min(Capacity, |scores|)]
  }

  lemma WithScoreCons(x: Entry, s: seq<Entry>, k: int)
    ensures WithScore([x] + s, k) == (if x.score == k then [x] else []) + WithScore(s, k)
  {
    assert ([x] + s)[1..] == s;
  }

  lemma {:induction false} WithScoreAppend(a: seq<Entry>, b: seq<Entry>, k: int)
    ensures WithScore(a + b, k) == WithScore(a, k) + WithScore(b, k)
  {
    if a == [] {
      assert a + b == b;
    } else {
      var head := if a[0].score == k then [a[0]] else [];
      assert a == [a[0]] + a[1..];
      assert a + b == [a[0]] + (a[1..] + b);
      WithScoreCons(a[0], a[1..] + b, k);
      WithScoreCons(a[0], a[1..], k);
      WithScoreAppend(a[1..], b, k);
      assert head + (WithScore(a[1..], k) + WithScore(b, k)) == (head + WithScore(a[1..], k)) + WithScore(b, k);
    }
  }

  /** Inserting `e` adds it in front of its own score group and leaves every group's order alone. */
  lemma {:induction false} InsertTies(e: Entry, s: seq<Entry>, k: int)
    ensures WithScore(Insert(e, s), k) == (if e.score == k then [e] else []) + WithScore(s, k)
  {
    if s == [] || e.score >= s[0].score {
      WithScoreCons(e, s, k);
    } else {
      var rest := Insert(e, s[1..]);
      assert Insert(e, s) == [s[0]] + rest;
      WithScoreCons(s[0], rest, k);
      InsertTies(e, s[1..], k);
      assert s == [s[0]] + s[1..];
      WithScoreCons(s[0], s[1..], k);
      if e.score == k {
        assert s[0].score != k;
      } else if s[0].score == k {
        assert [s[0]] + ([] + WithScore(s[1..], k)) == [s[0]] + WithScore(s[1..], k);
      }
    }
  }

  /** The sort is stable: rows with equal scores keep their input order. */
  lemma {:induction false} SortByScoreStable(s: seq<Entry>)
    ensures SameTies(SortByScore(s), s)
  {
    if s != [] {
      SortByScoreStable(s[1..]);
      forall k ensures WithScore(SortByScore(s), k) == WithScore(s, k) {
        InsertTies(s[0], SortByScore(s[1..]), k);
      }
    }
  }

  lemma {:induction false} WithScoreHasRow(s: seq<Entry>, k: int) returns (i: nat)
    requires WithScore(s, k) != []
    ensures i < |s| && s[i].score == k
  {
    if s[0].score == k {
      i := 0;
    } else {
      var j := WithScoreHasRow(s[1..], k);
      i := j + 1;
    }
  }

  /**
   * Sortedness and stability fix the order completely: two descending lists
   * with the same score groups are equal.
   */
  lemma {:induction false} StableOrderUnique(t: seq<Entry>, u: seq<Entry>)
    requires Sorted(t) && Sorted(u) && SameTies(t, u)
    ensures t == u
    decreases |t|
  {
    if t != [] {
      assert t == [t[0]] + t[1..];
      WithScoreCons(t[0], t[1..], t[0].score);
      assert WithScore(u, t[0].score) != [];
    }
    if u != [] {
      assert u == [u[0]] + u[1..];
      WithScoreCons(u[0], u[1..], u[0].score);
      assert WithScore(t, u[0].score) != [];
    }
    if t != [] {
      var m, n := t[0].score, u[0].score;
      var i := WithScoreHasRow(u, m);
      var j := WithScoreHasRow(t, n);
      assert m == n;
      forall k ensures WithScore(t[1..], k) == WithScore(u[1..], k) {
        WithScoreCons(t[0], t[1..], k);
        WithScoreCons(u[0], u[1..], k);
        var head := if m == k then [t[0]] else [];
        if m == k {
          assert t[0] == WithScore(t, k)[0] == WithScore(u, k)[0] == u[0];
        }
        assert WithScore(t[1..], k) == WithScore(t, k)[|head|..];
        assert WithScore(u[1..], k) == WithScore(u, k)[|head|..];
      }
      StableOrderUnique(t[1..], u[1..]);
      assert t[0] == WithScore(t, m)[0] == WithScore(u, m)[0] == u[0];
    }
  }

  /**
   * SortByScore is the only order a stable sort with the comparator
   * `b.score - a.score` can produce.
   */
  lemma SortByScoreIsTheStableSort(s: seq<Entry>, t: seq<Entry>)
    requires Sorted(t) && SameTies(t, s)
    ensures t == SortByScore(s)
  {
    SortByScoreStable(s);
    StableOrderUnique(t, SortByScore(s));
  }

  /** In a descending list, every row after position `n` scores no more than every row before it. */
  lemma SortedSplit(s: seq<Entry>, n: nat)
    requires Sorted(s) && n <= |s|
    ensures forall d, e :: d in s[n..] && e in s[..n] ==> d.score <= e.score
  {
    forall d, e | d in s[n..] && e in s[..n] ensures d.score <= e.score {
      var i :| 0 <= i < |s| - n && s[n..][i] == d;
      var j :| 0 <= j < n && s[..n][j] == e;
      assert s[j] == e && s[n + i] == d;
    }
  }

  /** Every row left out scores no more than every row kept. */
  lemma TopScoresKeepsHighest(scores: seq<Entry>)
    ensures forall d: Entry, e: Entry ::
              d in multiset(scores) - multiset(TopScores(scores)) && e in TopScores(scores) ==> d.score <= e.score
  {
    var sorted := SortByScore(scores);
    var n := Min(Capacity, |scores|);
    assert sorted == sorted[..n] + sorted[n..];
    assert multiset(scores) - multiset(TopScores(scores)) == multiset(sorted[n..]);
    SortedSplit(sorted, n);
  }

  /** Within every score, the kept rows are the first rows of that score in the input. */
  lemma TopScoresStable(scores: seq<Entry>, k: int)
    ensures WithScore(TopScores(scores), k) <= WithScore(scores, k)
  {
    var sorted := SortByScore(scores);
    var n := Min(Capacity, |scores|);
    assert sorted == sorted[..n] + sorted[n..];
    WithScoreAppend(sorted[..n], sorted[n..], k);
    SortByScoreStable(scores);
  }

  /** A descending list is already in its sorted order. */
  lemma {:induction false} SortSortedIsIdentity(s: seq<Entry>)
    requires Sorted(s)
    ensures SortByScore(s) == s
  {
    if s != [] {
      SortSortedIsIdentity(s[1..]);
      assert s == [s[0]] + s[1..];
    }
  }

  /** Selecting the top rows of a leaderboard changes nothing. */
  lemma TopScoresIdempotent(scores: seq<Entry>)
    ensures TopScores(TopScores(scores)) == TopScores(scores)
  {
    SortSortedIsIdentity(TopScores(scores));
  }

  /** Rows that tie keep their input order behind a higher score that came later. */
  lemma TieExample()
    ensures TopScores([Entry("a", 1), Entry("b", 2), Entry("c", 1)]) == [Entry("b", 2), Entry("a", 1), Entry("c", 1)]
  {
  }

  lemma SortByScoreCons(x: Entry, s: seq<Entry>)
    ensures SortByScore([x] + s) == Insert(x, SortByScore(s))
  {
    assert ([x] + s)[1..] == s;
  }

  /** A row inserted behind a higher one lands right behind it when it ties with, or beats, what follows. */
  lemma InsertBehind(x: Entry, hi: Entry, t: seq<Entry>)
    requires hi.score > x.score
    requires t != [] ==> x.score >= t[0].score
    ensures Insert(x, [hi] + t) == [hi, x] + t
  {
    assert ([hi] + t)[1..] == t;
  }

  /** One step of SortTiedRunThenHigher: the front row of the run goes right behind the higher row. */
  lemma TiedRunStep(t: seq<Entry>, hi: Entry)
    requires t != [] && t[0].score < hi.score
    requires |t| > 1 ==> t[0].score >= t[1].score
    requires SortByScore(t[1..] + [hi]) == [hi] + t[1..]
    ensures SortByScore(t + [hi]) == [hi] + t
  {
    var rest := t[1..];
    SortByScoreCons(t[0], rest + [hi]);
    InsertBehind(t[0], hi, rest);
    SplitFront(t, hi);
  }

  lemma SplitFront<T>(t: seq<T>, x: T)
    requires t != []
    ensures t + [x] == [t[0]] + (t[1..] + [x])
    ensures [x, t[0]] + t[1..] == [x] + t
  {
  }

  /** A run of tied rows followed by one higher row sorts to the higher row, then the run in its order. */
  lemma {:induction false} SortTiedRunThenHigher(t: seq<Entry>, hi: Entry)
    requires forall i :: 0 <= i < |t| ==> t[i].score < hi.score
    requires forall i :: 0 <= i < |t| ==> t[i].score == t[0].score
    ensures SortByScore(t + [hi]) == [hi] + t
  {
    if t == [] {
      assert t + [hi] == [hi] + [];
      SortByScoreCons(hi, []);
    } else {
      var rest := t[1..];
      assert forall i :: 0 <= i < |rest| ==> rest[i] == t[i + 1];
      SortTiedRunThenHigher(rest, hi);
      TiedRunStep(t, hi);
    }
  }

  lemma TakeAfterFront<T>(x: T, t: seq<T>, n: nat)
    requires n < |t|
    ensures ([x] + t)[..n + 1] == [x] + t[..n]
  {
  }

  /**
   * A full leaderboard whose rows all tie meets one better final score: the new row
   * goes first, the old rows keep their order, and the latest of them is cut.
   */
  lemma CutTiedRun(t: seq<Entry>, hi: Entry)
    requires |t| == Capacity
    requires forall i :: 0 <= i < |t| ==> t[i].score < hi.score
    requires forall i :: 0 <= i < |t| ==> t[i].score == t[0].score
    ensures TopScores(t + [hi]) == [hi] + t[..Capacity - 1]
  {
    SortTiedRunThenHigher(t, hi);
    TakeAfterFront(hi, t, Capacity - 1);
  }

  /** Ten rows of 100 points and a new 200-point row: "N" leads and "j", the last of the ties, is cut. */
  lemma CutExample()
    ensures var old10 := [Entry("a", 100), Entry("b", 100), Entry("c", 100), Entry("d", 100), Entry("e", 100),
                          Entry("f", 100), Entry("g", 100), Entry("h", 100), Entry("i", 100), Entry("j", 100)];
            TopScores(old10 + [Entry("N", 200)]) == [Entry("N", 200)] + old10[..9]
  {
    var old10 := [Entry("a", 100), Entry("b", 100), Entry("c", 100), Entry("d", 100), Entry("e", 100),
                  Entry("f", 100), Entry("g", 100), Entry("h", 100), Entry("i", 100), Entry("j", 100)];
    CutTiedRun(old10, Entry("N", 200));
  }

  /** An old one-row leaderboard merged with a game's final scores 300 and -250. */
  lemma MergeExample()
    ensures TopScores([Entry("C", 1000)] + [Entry("A", 300), Entry("B", -250)])
         == [Entry("C", 1000), Entry("A", 300), Entry("B", -250)]
  {
    var s := [Entry("C", 1000), Entry("A", 300), Entry("B", -250)];
    assert [Entry("C", 1000)] + [Entry("A", 300), Entry("B", -250)] == s;
    SortSortedIsIdentity(s);
  }
}
