/**
  Record selection and feature composition done while loading: rows with a
  missing value in any of the six used columns are dropped, and each
  remaining movie gets one combined text made of its five descriptive
  fields.
 */
module Features {
  import opened Wrappers
  import opened Sequences
  import opened TextCleaning

  /** One row of the merged movie/credits table, restricted to the six used columns; `None` is a missing value. */
  datatype Row = Row(
    title: Option<string>,
    overview: Option<string>,
    genres: Option<string>,
    keywords: Option<string>,
    cast: Option<string>,
    crew: Option<string>)

  /** A row that has all six values. */
  datatype Movie = Movie(title: string, overview: string, genres: string, keywords: string, cast: string, crew: string)

  /** A movie with its `combined_features` column. */
  datatype ProcessedMovie = ProcessedMovie(movie: Movie, combinedFeatures: string)

  predicate Complete(r: Row) {
    r.title.Some? && r.overview.Some? && r.genres.Some? && r.keywords.Some? && r.cast.Some? && r.crew.Some?
  }

  function ToMovie(r: Row): Movie
    requires Complete(r)
  {
    Movie(r.title.value, r.overview.value, r.genres.value, r.keywords.value, r.cast.value, r.crew.value)
  }

  /** The table row a movie came from. */
  function AsRow(m: Movie): (r: Row)
    ensures Complete(r) && ToMovie(r) == m
  {
    Row(Some(m.title), Some(m.overview), Some(m.genres), Some(m.keywords), Some(m.cast), Some(m.crew))
  }

  function AsRows(ms: seq<Movie>): (rs: seq<Row>)
    ensures |rs| == |ms| && forall i :: 0 <= i < |ms| ==> rs[i] == AsRow(ms[i])
  {
    seq(|ms|, i requires 0 <= i < |ms| => AsRow(ms[i]))
  }

  /**
    `dropna()` over the six columns: exactly the complete rows survive, in
    their original order.
   */
  function DropIncomplete(rows: seq<Row>): (ms: seq<Movie>)
    ensures IsSubsequence(AsRows(ms), rows)
    ensures forall r :: multiset(AsRows(ms))[r] == if Complete(r) then multiset(rows)[r] else 0
    ensures forall m :: m in ms <==> AsRow(m) in rows
  {
    if rows == [] then []
    else
      var rest := DropIncomplete(rows[1..]);
      assert rows == [rows[0]] + rows[1..];
      if Complete(rows[0]) then
        var ms := [ToMovie(rows[0])] + rest;
        assert AsRow(ToMovie(rows[0])) == rows[0];
        assert AsRows(ms) == [rows[0]] + AsRows(rest);
        ms
      else
        SubsequenceOfTail(AsRows(rest), rows);
        rest
  }

  /**
    The five descriptive fields, in order, joined by single spaces: each
    field is found at its own offset, and one space separates neighbours.
   */
  function JoinedFields(m: Movie): (r: string)
    ensures var o, g, k, c := |m.overview|, |m.genres|, |m.keywords|, |m.cast|;
            && |r| == o + g + k + c + |m.crew| + 4
            && r[..o] == m.overview && r[o] == ' '
            && r[o + 1..o + 1 + g] == m.genres && r[o + 1 + g] == ' '
            && r[o + 2 + g..o + 2 + g + k] == m.keywords && r[o + 2 + g + k] == ' '
            && r[o + 3 + g + k..o + 3 + g + k + c] == m.cast && r[o + 3 + g + k + c] == ' '
            && r[o + 4 + g + k + c..] == m.crew
  {
    m.overview + " " + m.genres + " " + m.keywords + " " + m.cast + " " + m.crew
  }

  /** The `combined_features` value of a movie. */
  function CombinedFeature(m: Movie): (r: string)
    ensures IsClean(r)
  {
    CleanText(JoinedFields(m))
  }

  /**
    The combined feature is the cleaned fields, in order, with one space
    between neighbours: no token of one field runs into the next.
   */
  lemma CombinedFeatureByField(m: Movie)
    ensures CombinedFeature(m) ==
      CleanText(m.overview) + " " + CleanText(m.genres) + " " + CleanText(m.keywords) + " " +
      CleanText(m.cast) + " " + CleanText(m.crew)
  {
    assert IsClean(" ");
    CleanTextOfClean(" ");
    var sp := " ";
    CleanTextAppend(m.overview + sp + m.genres + sp + m.keywords + sp + m.cast + sp, m.crew);
    CleanTextAppend(m.overview + sp + m.genres + sp + m.keywords + sp + m.cast, sp);
    CleanTextAppend(m.overview + sp + m.genres + sp + m.keywords + sp, m.cast);
    CleanTextAppend(m.overview + sp + m.genres + sp + m.keywords, sp);
    CleanTextAppend(m.overview + sp + m.genres + sp, m.keywords);
    CleanTextAppend(m.overview + sp + m.genres, sp);
    CleanTextAppend(m.overview + sp, m.genres);
    CleanTextAppend(m.overview, sp);
  }

  /** Each movie of the table with its combined feature. */
  function WithCombinedFeatures(ms: seq<Movie>): seq<ProcessedMovie> {
    seq(|ms|, i requires 0 <= i < |ms| => ProcessedMovie(ms[i], CombinedFeature(ms[i])))
  }

  /** The `combined_features` column handed to the vectoriser. */
  function FeatureColumn(t: seq<ProcessedMovie>): seq<string> {
    seq(|t|, i requires 0 <= i < |t| => t[i].combinedFeatures)
  }

  /** The `title` column, `tolist()`. */
  function TitleColumn(t: seq<ProcessedMovie>): seq<string> {
    seq(|t|, i requires 0 <= i < |t| => t[i].movie.title)
  }
}
