/** `recommend` (app1.py:50-54): look the query up in the catalog, rank its similarity row,
    skip the top entry, keep the next five, and map their positions back to titles.
    The catalog is the `title` column taken as a sequence: the model assumes the DataFrame's
    row labels are the positions 0..n-1, so that the label found by the lookup is also the
    position that indexes the matrix and `iloc`. Similarity scores are integers, since only
    their order matters. */
module Recommender {
  import opened Wrappers
  import opened Slices
  import opened Ranker

  /** What `recommend` raises instead of returning. */
  datatype RecommendError =
    | TitleNotFound     // `.index[0]` of an empty selection
    | RowMissing        // `similarity[movie_index]` beyond the matrix
    | PeerOutOfCatalog  // `movies.iloc[i]` beyond the catalog, for a kept position i

  /** The slice `[1:6]` applied to the ranking. */
  const FIRST_KEPT: nat := 1
  const END_KEPT: nat := 6

  /** `movies[movies['title'] == movie].index[0]`: the first position holding the title. */
  function FindTitle(titles: seq<string>, query: string): (r: Option<nat>)
    ensures r.None? <==> query !in titles
    ensures r.Some? ==> r.value < |titles| && titles[r.value] == query
    ensures r.Some? ==> forall j :: 0 <= j < r.value ==> titles[j] != query
  {
    if titles == [] then None
    else if titles[0] == query then Some(0)
    else
      assert titles == [titles[0]] + titles[1..];
      match FindTitle(titles[1..], query)
      case None => None
      case Some(k) => Some(k + 1)
  }

  /** The positions `recommend` keeps from a row: ranks 1 up to 5 of the full ranking.
      The slice never fails: a row of n entries yields min(5, n - 1) of them, none if n is 0. */
  function Kept(row: seq<int>): (ks: seq<nat>)
    ensures |ks| == Min(END_KEPT - FIRST_KEPT, Max(0, |row| - FIRST_KEPT))
    ensures forall k :: 0 <= k < |ks| ==>
      FIRST_KEPT + k < |Ranking(row)| && ks[k] == Ranking(row)[FIRST_KEPT + k].index
  {
    var top := Slice(Ranking(row), FIRST_KEPT, END_KEPT);
    seq(|top|, k requires 0 <= k < |top| => top[k].index)
  }

  ghost predicate InCatalog(titles: seq<string>, ks: seq<nat>)
  {
    forall k :: 0 <= k < |ks| ==> ks[k] < |titles|
  }

  /** `recommend(movie)` over the catalog titles and the similarity matrix. */
  function Recommend(titles: seq<string>, similarity: seq<seq<int>>, query: string)
    : (r: Result<seq<string>, RecommendError>)
    ensures r == Failure(TitleNotFound) <==> query !in titles
    ensures r == Failure(RowMissing) <==>
      query in titles && FindTitle(titles, query).value >= |similarity|
    ensures r == Failure(PeerOutOfCatalog) <==>
      query in titles && FindTitle(titles, query).value < |similarity| &&
      !InCatalog(titles, Kept(similarity[FindTitle(titles, query).value]))
    ensures r.Success? ==>
      query in titles &&
      var q := FindTitle(titles, query).value;
      q < |similarity| && |r.value| == |Kept(similarity[q])| &&
      forall k :: 0 <= k < |r.value| ==>
        Kept(similarity[q])[k] < |titles| && r.value[k] == titles[Kept(similarity[q])[k]]
  {
    match FindTitle(titles, query)
    case None => Failure(TitleNotFound)
    case Some(q) =>
      if q >= |similarity| then Failure(RowMissing)
      else
        var ks := Kept(similarity[q]);
        if exists k :: 0 <= k < |ks| && ks[k] >= |titles| then Failure(PeerOutOfCatalog)
        else Success(seq(|ks|, k requires 0 <= k < |ks| => titles[ks[k]]))
  }

  /** The catalog and the matrix agree: one square row per title. */
  ghost predicate Aligned(titles: seq<string>, similarity: seq<seq<int>>)
  {
    |similarity| == |titles| && forall i :: 0 <= i < |similarity| ==> |similarity[i]| == |titles|
  }

  /** The kept positions are valid positions of the row, in non-increasing score order, with
      ties in ascending position order (the stable sort under `reverse=True`). */
  lemma KeptOrdered(row: seq<int>, i: nat, j: nat)
    requires i < j < |Kept(row)|
    ensures Kept(row)[i] < |row| && Kept(row)[j] < |row|
    ensures row[Kept(row)[i]] > row[Kept(row)[j]] ||
            (row[Kept(row)[i]] == row[Kept(row)[j]] && Kept(row)[i] < Kept(row)[j])
  {
    RankingCorrect(row);
    RankingEntries(row, FIRST_KEPT + i);
    RankingEntries(row, FIRST_KEPT + j);
    assert Before(Ranking(row)[FIRST_KEPT + i], Ranking(row)[FIRST_KEPT + j]);
  }

  /** The one skipped entry is the top of the ranking: the highest score of the row, at the
      lowest position among equal highest scores, and it is not among the kept ones. */
  lemma SkippedIsTop(row: seq<int>)
    requires |row| > 0
    ensures |Ranking(row)| == |row|
    ensures Ranking(row)[0].index < |row|
    ensures forall j :: 0 <= j < |row| ==>
      row[Ranking(row)[0].index] > row[j] ||
      (row[Ranking(row)[0].index] == row[j] && Ranking(row)[0].index <= j)
    ensures Ranking(row)[0].index !in Kept(row)
  {
    RankingCorrect(row);
    RankingEntries(row, 0);
    var r := Ranking(row);
    forall j | 0 <= j < |row|
      ensures row[r[0].index] > row[j] || (row[r[0].index] == row[j] && r[0].index <= j)
    {
      RankingCovers(row, j);
      var k :| 0 <= k < |r| && r[k] == Scored(j, row[j]);
      if k > 0 {
        assert Before(r[0], r[k]);
      }
    }
    forall k | 0 <= k < |Kept(row)| ensures Kept(row)[k] != r[0].index {
      RankingEntries(row, FIRST_KEPT + k);
      assert Before(r[0], r[FIRST_KEPT + k]);
    }
  }

  /** Ranks 1 to 5 are the best of the rest: every position of the row is the skipped top,
      or kept, or ranked behind every kept entry. */
  lemma KeptAreNextBest(row: seq<int>, j: nat)
    requires j < |row|
    ensures |Ranking(row)| == |row|
    ensures j == Ranking(row)[0].index || j in Kept(row) ||
      forall i :: 0 <= i < |Kept(row)| ==>
        Kept(row)[i] < |row| && Before(Scored(Kept(row)[i], row[Kept(row)[i]]), Scored(j, row[j]))
  {
    RankingCorrect(row);
    RankingCovers(row, j);
    var r := Ranking(row);
    var k :| 0 <= k < |r| && r[k] == Scored(j, row[j]);
    if FIRST_KEPT <= k < FIRST_KEPT + |Kept(row)| {
      assert Kept(row)[k - FIRST_KEPT] == j;
    } else if k != 0 {
      forall i | 0 <= i < |Kept(row)|
        ensures Kept(row)[i] < |row| && Before(Scored(Kept(row)[i], row[Kept(row)[i]]), Scored(j, row[j]))
      {
        RankingEntries(row, FIRST_KEPT + i);
        assert Before(r[FIRST_KEPT + i], r[k]);
      }
    }
  }

  /** The queried position is left out whenever its self-score beats every other score
      in its row; ties at the top do not guarantee that. */
  lemma SelfExcluded(row: seq<int>, q: nat)
    requires q < |row|
    requires forall j :: 0 <= j < |row| && j != q ==> row[q] > row[j]
    ensures q !in Kept(row)
  {
    SkippedIsTop(row);
    var t := Ranking(row)[0].index;
    if t != q {
      assert false;
    }
  }

  /** With an aligned catalog and matrix, `recommend` fails only on an absent title, and it
      returns min(5, n - 1) titles for a catalog of n. */
  lemma RecommendAligned(titles: seq<string>, similarity: seq<seq<int>>, query: string)
    requires Aligned(titles, similarity)
    ensures Recommend(titles, similarity, query).Success? <==> query in titles
    ensures Recommend(titles, similarity, query).Success? ==>
      |Recommend(titles, similarity, query).value| == Min(5, |titles| - 1)
  {
    if query in titles {
      var q := FindTitle(titles, query).value;
      var ks := Kept(similarity[q]);
      forall k | 0 <= k < |ks| ensures ks[k] < |titles| {
        RankingEntries(similarity[q], FIRST_KEPT + k);
      }
    }
  }

  /** With distinct titles, an aligned matrix and a self-score above every other score of the
      row, the queried title is not among its own recommendations. */
  lemma RecommendExcludesQuery(titles: seq<string>, similarity: seq<seq<int>>, query: string, q: nat)
    requires Aligned(titles, similarity)
    requires forall i, j :: 0 <= i < j < |titles| ==> titles[i] != titles[j]
    requires FindTitle(titles, query) == Some(q)
    requires forall j :: 0 <= j < |titles| && j != q ==> similarity[q][q] > similarity[q][j]
    ensures Recommend(titles, similarity, query).Success?
    ensures query !in Recommend(titles, similarity, query).value
  {
    RecommendAligned(titles, similarity, query);
    var row := similarity[q];
    assert |row| == |titles|;
    forall j | 0 <= j < |row| && j != q ensures row[q] > row[j] {
      assert similarity[q][q] > similarity[q][j];
    }
    SelfExcluded(row, q);
    var r := Recommend(titles, similarity, query).value;
    forall k | 0 <= k < |r| ensures r[k] != query {
      assert Kept(row)[k] != q;
      assert r[k] == titles[Kept(row)[k]];
    }
  }
}
