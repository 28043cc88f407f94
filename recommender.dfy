/**
  The recommender object: it holds the processed movie table, the
  similarity matrix and the title list, all replaced by a successful load,
  and answers title and recommendation queries from them.
 */
module Recommender {
  import opened Wrappers
  import opened Features
  import opened Ranking

  class MovieRecommender {
    /** The processed table (`movies_df`), `None` before the first load. */
    var moviesDf: Option<seq<ProcessedMovie>>
    /** Pairwise similarity of the loaded movies, `None` before the first successful load. */
    var similarityMatrix: Option<seq<seq<real>>>
    /** The titles of the loaded movies, in table order. */
    var movieTitles: seq<string>

    /** The titles and the matrix always describe the same movies. */
    ghost predicate Valid()
      reads this
    {
      match similarityMatrix
      case None => movieTitles == []
      case Some(m) => IsSquare(m, |movieTitles|)
    }

    /** The similarity matrix, empty before the first successful load. */
    function Similarity(): (m: seq<seq<real>>)
      reads this
      requires Valid()
      ensures IsSquare(m, |movieTitles|)
    {
      if similarityMatrix.Some? then similarityMatrix.value else []
    }

    constructor ()
      ensures Valid()
      ensures moviesDf == None && similarityMatrix == None && movieTitles == []
    {
      moviesDf := None;
      similarityMatrix := None;
      movieTitles := [];
    }

    /** `get_all_movie_titles`: the stored list; an empty list stands for itself. */
    function AllMovieTitles(): (titles: seq<string>)
      reads this
      ensures titles == movieTitles
    {
      if movieTitles != [] then movieTitles else []
    }

    /**
      `load_and_process_data` on the merged table `rows`. `similarityOf`
      stands for the TF-IDF vectoriser followed by cosine similarity; `None`
      is the exception it raises, which makes the load return false after
      the table has been replaced but before the matrix and the titles are.
     */
    method LoadAndProcessData(rows: seq<Row>, similarityOf: seq<string> -> Option<seq<seq<real>>>)
      returns (ok: bool)
      requires Valid()
      requires forall docs :: similarityOf(docs).Some? ==> IsSquare(similarityOf(docs).value, |docs|)
      modifies this
      ensures Valid()
      ensures var table := WithCombinedFeatures(DropIncomplete(rows));
              && moviesDf == Some(table)
              && ok == similarityOf(FeatureColumn(table)).Some?
              && (ok ==> similarityMatrix == similarityOf(FeatureColumn(table)) && movieTitles == TitleColumn(table))
              && (!ok ==> similarityMatrix == old(similarityMatrix) && movieTitles == old(movieTitles))
    {
      var movies := DropIncomplete(rows);
      var table := WithCombinedFeatures(movies);
      moviesDf := Some(table);
      var matrix := similarityOf(FeatureColumn(table));
      if matrix.None? {
        return false;
      }
      similarityMatrix := matrix;
      movieTitles := TitleColumn(table);
      return true;
    }

    /**
      `get_recommendations`: the entries of the stable descending sort of the
      query's similarity row, without the sorted list's first pair, cut to
      `numRecommendations`.
     */
    method GetRecommendations(movieTitle: string, numRecommendations: int := 5) returns (recs: seq<Recommendation>)
      requires Valid()
      ensures recs == Recommendations(movieTitles, Similarity(), movieTitle, numRecommendations)
      ensures movieTitle !in movieTitles || numRecommendations <= 0 ==> recs == []
      ensures movieTitle in movieTitles && numRecommendations > 0 ==>
        |recs| == if numRecommendations < |movieTitles| - 1 then numRecommendations else |movieTitles| - 1
      ensures forall j, j' :: 0 <= j < j' < |recs| ==> recs[j].similarityScore >= recs[j'].similarityScore
      ensures forall j :: 0 <= j < |recs| ==> recs[j].title in movieTitles
    {
      if movieTitle !in movieTitles {
        return [];
      }
      var movieIndex := FirstIndex(movieTitles, movieTitle);
      var row := similarityMatrix.value[movieIndex];
      RankBounds(row);
      var similarityScores := SortByScoreDesc(Enumerate(row))[1..];
      var count := TakeCount(numRecommendations, |similarityScores|);
      recs := [];
      var i := 0;
      while i < count
        invariant 0 <= i <= count
        invariant recs == Describe(movieTitles, similarityScores[..i])
      {
        var idx := similarityScores[i].index;
        assert similarityScores[..i + 1][..i] == similarityScores[..i];
        recs := recs + [Recommendation(movieTitles[idx], similarityScores[i].score)];
        i := i + 1;
      }
      assert similarityScores[..count] == Selected(row, numRecommendations);
      RecommendationsSummary(movieTitles, Similarity(), movieTitle, numRecommendations);
    }
  }

  /** A fresh recommender knows no titles and recommends nothing. */
  method QueryFreshRecommender(movieTitle: string, numRecommendations: int)
    returns (titles: seq<string>, recs: seq<Recommendation>)
    ensures titles == [] && recs == []
  {
    var recommender := new MovieRecommender();
    titles := recommender.AllMovieTitles();
    recs := recommender.GetRecommendations(movieTitle, numRecommendations);
  }
}
