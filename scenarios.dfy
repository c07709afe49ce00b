/** A worked example of `recommend`: a catalog A..G whose row for A ranks
    A, C, B, G, D, F, E by descending score. Dropping A and keeping five gives C, B, G, D, F. */
module Scenarios {
  import opened Wrappers
  import opened Ranker
  import opened Recommender

  const ROW_A: seq<int> := [7, 5, 6, 3, 1, 2, 4]
  const RANKING_A: seq<Scored> :=
    [Scored(0, 7), Scored(2, 6), Scored(1, 5), Scored(6, 4), Scored(3, 3), Scored(5, 2), Scored(4, 1)]

  lemma EnumerateRowA()
    ensures Enumerate(ROW_A) ==
      [Scored(0, 7), Scored(1, 5), Scored(2, 6), Scored(3, 3), Scored(4, 1), Scored(5, 2), Scored(6, 4)]
  {
  }

  lemma RearrangesRowA()
    ensures multiset(RANKING_A) == multiset(Enumerate(ROW_A))
  {
    EnumerateRowA();
  }

  lemma RankedRowA()
    ensures Ranked(RANKING_A)
  {
  }

  /** The ranking of A's row, obtained from the characterisation of the stable sort
      rather than by running it. */
  lemma RankingRowA()
    ensures Ranking(ROW_A) == RANKING_A
  {
    RearrangesRowA();
    RankedRowA();
    RankingIsUnique(ROW_A, RANKING_A);
  }

  lemma KeptRowA(row: seq<int>)
    requires Ranking(row) == RANKING_A
    ensures Kept(row) == [2, 1, 6, 3, 5]
  {
    var ks := Kept(row);
    assert ks[0] == 2 && ks[1] == 1 && ks[2] == 6 && ks[3] == 3 && ks[4] == 5;
  }

  lemma RecommendSucceedsA(titles: seq<string>, similarity: seq<seq<int>>)
    requires titles == ["A", "B", "C", "D", "E", "F", "G"]
    requires |similarity| == 1 && Kept(similarity[0]) == [2, 1, 6, 3, 5]
    ensures Recommend(titles, similarity, "A").Success?
  {
    assert InCatalog(titles, Kept(similarity[0]));
    assert FindTitle(titles, "A") == Some(0);
  }

  lemma RecommendTitlesA(titles: seq<string>, similarity: seq<seq<int>>)
    requires titles == ["A", "B", "C", "D", "E", "F", "G"]
    requires |similarity| == 1 && Kept(similarity[0]) == [2, 1, 6, 3, 5]
    requires Recommend(titles, similarity, "A").Success?
    ensures Recommend(titles, similarity, "A").value == ["C", "B", "G", "D", "F"]
  {
  }

  lemma RecommendScenarioA(titles: seq<string>, similarity: seq<seq<int>>)
    requires titles == ["A", "B", "C", "D", "E", "F", "G"]
    requires similarity == [ROW_A]
    ensures Recommend(titles, similarity, "A") == Success(["C", "B", "G", "D", "F"])
  {
    RankingRowA();
    KeptRowA(similarity[0]);
    RecommendSucceedsA(titles, similarity);
    RecommendTitlesA(titles, similarity);
  }

  /** Only the top-ranked entry is dropped, not the queried position as such: for instance,
      with two titles whose scores tie and the query second, the first is dropped and the
      query's own title is recommended. */
  const ROW_TIE: seq<int> := [5, 5]

  lemma RankingRowTie()
    ensures Ranking(ROW_TIE) == [Scored(0, 5), Scored(1, 5)]
  {
  }

  lemma RecommendScenarioTie(titles: seq<string>, similarity: seq<seq<int>>)
    requires titles == ["B", "A"]
    requires similarity == [ROW_TIE, ROW_TIE]
    ensures Recommend(titles, similarity, "A") == Success(["A"])
  {
    RankingRowTie();
    var ks := Kept(similarity[1]);
    assert ks == [1];
    assert FindTitle(titles, "A") == Some(1);
    assert InCatalog(titles, ks);
    var r := Recommend(titles, similarity, "A");
    assert r.Success?;
    assert r.value == [titles[1]];
  }
}
