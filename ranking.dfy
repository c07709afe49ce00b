/** The ranking inside `recommend`: `sorted(list(enumerate(row)), reverse=True, key=lambda x: x[1])`.
    Python's sort is stable even with `reverse=True`, so entries with equal scores keep
    their input order, which for an enumerated row is ascending position. */
module Ranker {

  /** One element of `enumerate(row)`: a catalog position and its similarity score. */
  datatype Scored = Scored(index: nat, score: int)

  /** `list(enumerate(row))`: every position of the row once, in ascending order, each
      carrying its own score. */
  function Enumerate(row: seq<int>): (ps: seq<Scored>)
    ensures |ps| == |row|
    ensures IndexAscending(ps)
    ensures forall i :: 0 <= i < |ps| ==> ps[i].index < |row| && ps[i].score == row[ps[i].index]
  {
    seq(|row|, i requires 0 <= i < |row| => Scored(i, row[i]))
  }

  /** The input order of a stable sort on an enumerated row: positions strictly increase. */
  ghost predicate IndexAscending(ps: seq<Scored>)
  {
    forall i, j :: 0 <= i < j < |ps| ==> ps[i].index < ps[j].index
  }

  /** The order the stable descending sort leaves its output in: higher score first and,
      among equal scores, lower position first. A strict total order on `Scored`. */
  predicate Before(a: Scored, b: Scored)
  {
    a.score > b.score || (a.score == b.score && a.index < b.index)
  }

  ghost predicate Ranked(s: seq<Scored>)
  {
    forall i, j :: 0 <= i < j < |s| ==> Before(s[i], s[j])
  }

  /** One insertion step of a stable descending sort on the score alone: `x` goes in front of
      the first element whose score is not greater than its own, so it stays ahead of the
      equal-scored elements that followed it in the input. */
  function Insert(x: Scored, s: seq<Scored>): (r: seq<Scored>)
    ensures multiset(r) == multiset(s) + multiset{x}
  {
    if s == [] || s[0].score <= x.score then [x] + s
    else
      assert s == [s[0]] + s[1..];
      [s[0]] + Insert(x, s[1..])
  }

  /** Stable insertion sort, highest score first, comparing scores only. */
  function SortDescending(ps: seq<Scored>): (r: seq<Scored>)
    ensures multiset(r) == multiset(ps)
  {
    if ps == [] then []
    else
      assert ps == [ps[0]] + ps[1..];
      Insert(ps[0], SortDescending(ps[1..]))
  }

  /** The full ranking of one similarity row: one entry per position of the row.
      `RankingCorrect` and `RankingIsUnique` characterise its order. */
  function Ranking(row: seq<int>): (r: seq<Scored>)
    ensures |r| == |row|
  {
    var ps := Enumerate(row);
    assert |SortDescending(ps)| == |multiset(SortDescending(ps))| == |multiset(ps)| == |ps|;
    SortDescending(ps)
  }

  lemma InMultiset(e: Scored, s: seq<Scored>)
    requires e in multiset(s)
    ensures e in s
  {
  }

  /** Inserting an element that precedes every element of a ranked list, in input order,
      keeps the list ranked. */
  lemma {:induction false} InsertRanked(x: Scored, s: seq<Scored>)
    requires Ranked(s)
    requires forall k :: 0 <= k < |s| ==> x.index < s[k].index
    ensures Ranked(Insert(x, s))
  {
    if s == [] || s[0].score <= x.score {
      var r := [x] + s;
      forall i, j | 0 <= i < j < |r| ensures Before(r[i], r[j]) {
        if i > 0 {
          assert r[i] == s[i - 1] && r[j] == s[j - 1];
        } else if j > 1 {
          assert Before(s[0], s[j - 1]);
        }
      }
    } else {
      var t := Insert(x, s[1..]);
      InsertRanked(x, s[1..]);
      var r := [s[0]] + t;
      forall i, j | 0 <= i < j < |r| ensures Before(r[i], r[j]) {
        if i == 0 {
          var e := t[j - 1];
          assert e in multiset(t);
          assert e == x || e in multiset(s[1..]);
          if e != x {
            InMultiset(e, s[1..]);
            var k :| 0 <= k < |s[1..]| && s[1..][k] == e;
            assert Before(s[0], s[k + 1]);
          }
        } else {
          assert r[i] == t[i - 1] && r[j] == t[j - 1];
        }
      }
    }
  }

  /** The sort of a list given in increasing position order is ranked: descending score,
      ascending position among ties. */
  lemma {:induction false} SortRanked(ps: seq<Scored>)
    requires IndexAscending(ps)
    ensures Ranked(SortDescending(ps))
  {
    if ps != [] {
      var rest := ps[1..];
      assert IndexAscending(rest) by {
        forall i, j | 0 <= i < j < |rest| ensures rest[i].index < rest[j].index {
          assert rest[i] == ps[i + 1] && rest[j] == ps[j + 1];
        }
      }
      SortRanked(rest);
      var t := SortDescending(rest);
      forall k | 0 <= k < |t| ensures ps[0].index < t[k].index {
        assert t[k] in multiset(rest);
        InMultiset(t[k], rest);
        var m :| 0 <= m < |rest| && rest[m] == t[k];
        assert ps[m + 1] == t[k];
      }
      InsertRanked(ps[0], t);
    }
  }

  lemma RankedTail(s: seq<Scored>)
    requires Ranked(s) && s != []
    ensures Ranked(s[1..])
  {
  }

  lemma MultisetTail(s: seq<Scored>)
    requires s != []
    ensures multiset(s[1..]) == multiset(s) - multiset{s[0]}
  {
    assert s == [s[0]] + s[1..];
  }

  /** The first element of a ranked list comes before every other element of it. */
  lemma HeadIsLeast(a: seq<Scored>, e: Scored)
    requires Ranked(a) && e in a
    ensures e == a[0] || Before(a[0], e)
  {
    var k :| 0 <= k < |a| && a[k] == e;
    if k > 0 {
      assert Before(a[0], a[k]);
    }
  }

  /** Two ranked lists with the same elements start alike, since `Before` is asymmetric. */
  lemma RankedHeads(a: seq<Scored>, b: seq<Scored>)
    requires Ranked(a) && Ranked(b) && a != [] && b != []
    requires multiset(a) == multiset(b)
    ensures a[0] == b[0]
  {
    assert a[0] in multiset(b);
    InMultiset(a[0], b);
    assert b[0] in multiset(a);
    InMultiset(b[0], a);
    HeadIsLeast(a, b[0]);
    HeadIsLeast(b, a[0]);
  }

  /** Two ranked lists holding the same elements are the same list: the order `Before`
      determines the ranking completely. */
  lemma {:induction false} RankedUnique(a: seq<Scored>, b: seq<Scored>)
    requires Ranked(a) && Ranked(b)
    requires multiset(a) == multiset(b)
    ensures a == b
  {
    if a == [] || b == [] {
      assert |a| == |multiset(a)| == |multiset(b)| == |b|;
    } else {
      RankedHeads(a, b);
      MultisetTail(a);
      MultisetTail(b);
      RankedTail(a);
      RankedTail(b);
      RankedUnique(a[1..], b[1..]);
      assert a == [a[0]] + a[1..] && b == [b[0]] + b[1..];
    }
  }

  /** The ranking of a row is the row's enumeration, reordered so that it is ranked. */
  lemma RankingCorrect(row: seq<int>)
    ensures multiset(Ranking(row)) == multiset(Enumerate(row))
    ensures Ranked(Ranking(row))
  {
    SortRanked(Enumerate(row));
  }

  /** Independent characterisation of the stable sort: any ranked rearrangement of the
      enumerated row is exactly the sort's output. */
  lemma RankingIsUnique(row: seq<int>, s: seq<Scored>)
    requires multiset(s) == multiset(Enumerate(row))
    requires Ranked(s)
    ensures s == Ranking(row)
  {
    RankingCorrect(row);
    RankedUnique(s, Ranking(row));
  }

  /** Each entry of the ranking is a valid position of the row, paired with that position's own
      score. */
  lemma RankingEntries(row: seq<int>, k: nat)
    requires k < |row|
    ensures |Ranking(row)| == |row|
    ensures Ranking(row)[k].index < |row|
    ensures Ranking(row)[k].score == row[Ranking(row)[k].index]
  {
    RankingCorrect(row);
    var r := Ranking(row);
    var ps := Enumerate(row);
    assert r[k] in multiset(ps);
    InMultiset(r[k], ps);
  }

  /** Every position of the row appears somewhere in the ranking. */
  lemma RankingCovers(row: seq<int>, j: nat)
    requires j < |row|
    ensures exists k :: 0 <= k < |Ranking(row)| && Ranking(row)[k] == Scored(j, row[j])
  {
    RankingCorrect(row);
    var ps := Enumerate(row);
    assert ps[j] in multiset(Ranking(row));
    InMultiset(ps[j], Ranking(row));
  }
}
