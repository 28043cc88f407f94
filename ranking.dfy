/**
  The ranking rule behind a recommendation query: pair every score of the
  query's similarity row with its corpus index, sort the pairs stably by
  descending score, drop the first pair of the sorted list and keep the
  leading `k` of the rest.
 */
module Ranking {

  /** A similarity score with the corpus index it belongs to, as `enumerate` pairs them. */
  datatype Scored = Scored(index: nat, score: real)

  /** One entry of a recommendation list. */
  datatype Recommendation = Recommendation(title: string, similarityScore: real)

  /** An `n` by `n` similarity matrix. */
  predicate IsSquare(m: seq<seq<real>>, n: nat) {
    |m| == n && forall i :: 0 <= i < n ==> |m[i]| == n
  }

  /** `list(enumerate(row))` */
  function Enumerate(row: seq<real>): seq<Scored> {
    seq(|row|, i requires 0 <= i < |row| => Scored(i, row[i]))
  }

  /**
    The order a stable descending sort produces on enumerated pairs: a higher
    score first, and among equal scores the lower index first.
   */
  predicate Before(a: Scored, b: Scored) {
    a.score > b.score || (a.score == b.score && a.index < b.index)
  }

  predicate Ordered(ps: seq<Scored>) {
    forall i, j :: 0 <= i < j < |ps| ==> Before(ps[i], ps[j])
  }

  predicate IndicesIncreasing(ps: seq<Scored>) {
    forall i, j :: 0 <= i < j < |ps| ==> ps[i].index < ps[j].index
  }

  /** Puts `x` in front of the first pair whose score is not above its own. */
  function Insert(x: Scored, ps: seq<Scored>): seq<Scored> {
    if ps == [] then [x]
    else if x.score >= ps[0].score then [x] + ps
    else [ps[0]] + Insert(x, ps[1..])
  }

  /**
    `sorted(ps, key=lambda x: x[1], reverse=True)`, written as an insertion
    sort that inserts the earlier pairs last, so that equal scores keep
    their original order.
   */
  function SortByScoreDesc(ps: seq<Scored>): (sorted: seq<Scored>)
    ensures multiset(sorted) == multiset(ps)
  {
    if ps == [] then []
    else
      assert ps == [ps[0]] + ps[1..];
      InsertPermutes(ps[0], SortByScoreDesc(ps[1..]));
      Insert(ps[0], SortByScoreDesc(ps[1..]))
  }

  lemma {:induction false} InsertPermutes(x: Scored, ps: seq<Scored>)
    ensures multiset(Insert(x, ps)) == multiset(ps) + multiset{x}
  {
    if ps != [] && x.score < ps[0].score {
      InsertPermutes(x, ps[1..]);
      assert ps == [ps[0]] + ps[1..];
    }
  }

  /** A pair ahead of every pair of an ordered list can be put in front of it. */
  lemma ConsOrdered(a: Scored, ps: seq<Scored>)
    requires Ordered(ps)
    requires forall y :: y in ps ==> Before(a, y)
    ensures Ordered([a] + ps)
  {
    var r := [a] + ps;
    forall i, j | 0 <= i < j < |r| ensures Before(r[i], r[j]) {
      if i == 0 {
        assert r[j] == ps[j - 1];
      } else {
        assert r[i] == ps[i - 1] && r[j] == ps[j - 1];
      }
    }
  }

  lemma {:induction false} InsertOrdered(x: Scored, ps: seq<Scored>)
    requires Ordered(ps)
    requires forall i :: 0 <= i < |ps| ==> x.index < ps[i].index
    ensures Ordered(Insert(x, ps))
  {
    if ps == [] {
    } else if x.score >= ps[0].score {
      forall y | y in ps ensures Before(x, y) {
        var k :| 0 <= k < |ps| && ps[k] == y;
        assert k == 0 || Before(ps[0], ps[k]);
      }
      ConsOrdered(x, ps);
    } else {
      var tail := ps[1..];
      assert Ordered(tail);
      InsertOrdered(x, tail);
      InsertPermutes(x, tail);
      var ins := Insert(x, tail);
      forall y | y in ins ensures Before(ps[0], y) {
        assert y in multiset(ins);
        if y != x {
          assert y in multiset(tail);
          var k :| 0 <= k < |tail| && tail[k] == y;
          assert ps[k + 1] == y;
        }
      }
      ConsOrdered(ps[0], ins);
    }
  }

  /** The sort yields a permutation of its input in the stable descending order. */
  lemma {:induction false} SortByScoreDescCorrect(ps: seq<Scored>)
    requires IndicesIncreasing(ps)
    ensures Ordered(SortByScoreDesc(ps))
  {
    if ps != [] {
      var tail := ps[1..];
      assert ps == [ps[0]] + tail;
      SortByScoreDescCorrect(tail);
      var sorted := SortByScoreDesc(tail);
      forall i | 0 <= i < |sorted| ensures ps[0].index < sorted[i].index {
        assert sorted[i] in multiset(tail);
      }
      InsertOrdered(ps[0], sorted);
    }
  }

  /** The sorted enumeration of one similarity row. */
  function Rank(row: seq<real>): seq<Scored> {
    SortByScoreDesc(Enumerate(row))
  }

  /** The sorted row has the row's length and only the row's indices, each with its own score. */
  lemma RankBounds(row: seq<real>)
    ensures |Rank(row)| == |row|
    ensures forall j :: 0 <= j < |row| ==> Rank(row)[j].index < |row| && Rank(row)[j].score == row[Rank(row)[j].index]
  {
    RankCorrect(row);
  }

  /**
    `Rank(row)` lists every index of the row exactly once with its own score,
    in the stable descending order.
   */
  lemma RankCorrect(row: seq<real>)
    ensures |Rank(row)| == |row|
    ensures Ordered(Rank(row))
    ensures forall j :: 0 <= j < |row| ==> Rank(row)[j].index < |row| && Rank(row)[j].score == row[Rank(row)[j].index]
    ensures forall i :: 0 <= i < |row| ==> Scored(i, row[i]) in Rank(row)
    ensures forall j, j' :: 0 <= j < j' < |row| ==> Rank(row)[j].index != Rank(row)[j'].index
  {
    var e := Enumerate(row);
    SortByScoreDescCorrect(e);
    var r := Rank(row);
    assert |r| == |multiset(r)| == |multiset(e)| == |e|;
    forall j | 0 <= j < |r| ensures r[j].index < |row| && r[j].score == row[r[j].index] {
      assert r[j] in multiset(e);
    }
    forall i | 0 <= i < |row| ensures Scored(i, row[i]) in r {
      assert e[i] in multiset(r);
    }
  }

  /** `list.index`: the first position holding `x`. */
  function FirstIndex<T(==)>(s: seq<T>, x: T): (r: nat)
    requires x in s
    ensures r < |s| && s[r] == x
    ensures forall j :: 0 <= j < r ==> s[j] != x
  {
    if s[0] == x then 0 else 1 + FirstIndex(s[1..], x)
  }

  /** How many entries `range(min(k, n))` visits. */
  function TakeCount(k: int, n: nat): nat {
    if k <= 0 then 0 else if k < n then k else n
  }

  /** The `{'title', 'similarity_score'}` entries for a list of ranked pairs. */
  function Describe(titles: seq<string>, ps: seq<Scored>): (r: seq<Recommendation>)
    requires forall j :: 0 <= j < |ps| ==> ps[j].index < |titles|
    ensures |r| == |ps|
    ensures forall j :: 0 <= j < |ps| ==> r[j] == Recommendation(titles[ps[j].index], ps[j].score)
  {
    if ps == [] then []
    else Describe(titles, ps[..|ps| - 1]) + [Recommendation(titles[ps[|ps| - 1].index], ps[|ps| - 1].score)]
  }

  /** The similarity row of the first movie carrying `title`. */
  function QueryRow(titles: seq<string>, sim: seq<seq<real>>, title: string): (row: seq<real>)
    requires IsSquare(sim, |titles|) && title in titles
    ensures |row| == |titles|
  {
    sim[FirstIndex(titles, title)]
  }

  /** The pairs a query reports: the sorted row without its first pair, cut to `k`. */
  function Selected(row: seq<real>, k: int): (sel: seq<Scored>)
    requires |row| > 0
    ensures |sel| == if k <= 0 then 0 else if k < |row| - 1 then k else |row| - 1
    ensures forall j :: 0 <= j < |sel| ==> sel[j].index < |row| && sel[j].score == row[sel[j].index]
  {
    RankBounds(row);
    var ranked := Rank(row);
    var candidates := ranked[1..];
    var sel := candidates[..TakeCount(k, |candidates|)];
    assert forall j :: 0 <= j < |sel| ==> sel[j] == ranked[j + 1];
    sel
  }

  /** `get_recommendations(title, k)` on the loaded titles and similarity matrix. */
  function Recommendations(titles: seq<string>, sim: seq<seq<real>>, title: string, k: int): (r: seq<Recommendation>)
    requires IsSquare(sim, |titles|)
    ensures title !in titles ==> r == []
    ensures k <= 0 ==> r == []
  {
    if title !in titles then []
    else
      var row := QueryRow(titles, sim, title);
      var sel := Selected(row, k);
      RankCorrect(row);
      Describe(titles, sel)
  }

  /** `Selected` keeps the stable descending order and distinct indices of the row. */
  lemma SelectedCorrect(row: seq<real>, k: int)
    requires |row| > 0
    ensures |Selected(row, k)| == TakeCount(k, |row| - 1)
    ensures Ordered(Selected(row, k))
    ensures forall j :: 0 <= j < |Selected(row, k)| ==>
      Selected(row, k)[j] == Rank(row)[j + 1] &&
      Selected(row, k)[j].index < |row| && Selected(row, k)[j].score == row[Selected(row, k)[j].index]
  {
    RankCorrect(row);
  }

  /**
    What a caller sees of a recommendation list: at most `min(k, N - 1)`
    entries (exactly that many for a known title), non-increasing scores,
    and only loaded titles.
   */
  lemma RecommendationsSummary(titles: seq<string>, sim: seq<seq<real>>, title: string, k: int)
    requires IsSquare(sim, |titles|)
    ensures var r := Recommendations(titles, sim, title, k);
            && (title in titles ==> |r| == if k <= 0 then 0 else if k < |titles| - 1 then k else |titles| - 1)
            && (forall j, j' :: 0 <= j < j' < |r| ==> r[j].similarityScore >= r[j'].similarityScore)
            && (forall j :: 0 <= j < |r| ==> r[j].title in titles)
  {
    if title in titles {
      RecommendationsLength(titles, sim, title, k);
      RecommendationsEntries(titles, sim, title, k);
    }
  }

  /** A known title gets exactly `min(k, N - 1)` entries (none when `k <= 0`). */
  lemma RecommendationsLength(titles: seq<string>, sim: seq<seq<real>>, title: string, k: int)
    requires IsSquare(sim, |titles|) && title in titles
    ensures |Recommendations(titles, sim, title, k)| ==
      if k <= 0 then 0 else if k < |titles| - 1 then k else |titles| - 1
  {
    SelectedCorrect(QueryRow(titles, sim, title), k);
  }

  /**
    Each entry is the title and the score of one corpus index in the query's
    row; no index is reported twice; scores do not increase along the list,
    and equal scores appear in ascending corpus-index order.
   */
  lemma RecommendationsEntries(titles: seq<string>, sim: seq<seq<real>>, title: string, k: int)
    requires IsSquare(sim, |titles|) && title in titles
    ensures var r := Recommendations(titles, sim, title, k);
            var row := QueryRow(titles, sim, title);
            var sel := Selected(row, k);
            && |r| == |sel|
            && (forall j :: 0 <= j < |sel| ==>
                  sel[j].index < |titles| && r[j] == Recommendation(titles[sel[j].index], row[sel[j].index]))
            && (forall j, j' :: 0 <= j < j' < |sel| ==> sel[j].index != sel[j'].index)
            && (forall j, j' :: 0 <= j < j' < |r| ==>
                  r[j].similarityScore >= r[j'].similarityScore &&
                  (r[j].similarityScore == r[j'].similarityScore ==> sel[j].index < sel[j'].index))
  {
    var row := QueryRow(titles, sim, title);
    SelectedCorrect(row, k);
    var sel := Selected(row, k);
    forall j, j' | 0 <= j < j' < |sel| ensures sel[j].index != sel[j'].index {
      assert Before(sel[j], sel[j']);
    }
  }

  /**
    The reported indices are the best ones: every index that is neither
    reported nor the dropped head of the sorted row ranks after each
    reported one.
   */
  lemma RecommendationsAreTop(titles: seq<string>, sim: seq<seq<real>>, title: string, k: int)
    requires IsSquare(sim, |titles|) && title in titles
    ensures var row := QueryRow(titles, sim, title);
            var sel := Selected(row, k);
            forall j, i :: 0 <= j < |sel| && 0 <= i < |row| && Scored(i, row[i]) !in sel && i != Rank(row)[0].index ==>
              Before(sel[j], Scored(i, row[i]))
  {
    var row := QueryRow(titles, sim, title);
    RankCorrect(row);
    SelectedCorrect(row, k);
    var sel := Selected(row, k);
    var ranked := Rank(row);
    forall j, i | 0 <= j < |sel| && 0 <= i < |row| && Scored(i, row[i]) !in sel && i != ranked[0].index
      ensures Before(sel[j], Scored(i, row[i]))
    {
      var p :| 0 <= p < |ranked| && ranked[p] == Scored(i, row[i]);
      assert Before(ranked[j + 1], ranked[p]);
    }
  }

  /**
    When the query's self-score is strictly above every other score of its
    row, the dropped head is the query itself, so the query's own index is
    never reported.
   */
  lemma QueryExcludedUnderStrictMaximum(titles: seq<string>, sim: seq<seq<real>>, title: string, k: int)
    requires IsSquare(sim, |titles|) && title in titles
    requires var q := FirstIndex(titles, title);
             forall i :: 0 <= i < |titles| && i != q ==> sim[q][i] < sim[q][q]
    ensures Rank(QueryRow(titles, sim, title))[0].index == FirstIndex(titles, title)
    ensures forall j :: 0 <= j < |Selected(QueryRow(titles, sim, title), k)| ==>
      Selected(QueryRow(titles, sim, title), k)[j].index != FirstIndex(titles, title)
  {
    var q := FirstIndex(titles, title);
    var row := QueryRow(titles, sim, title);
    RankCorrect(row);
    SelectedCorrect(row, k);
    var ranked := Rank(row);
    var p :| 0 <= p < |ranked| && ranked[p] == Scored(q, row[q]);
  }

  /** On a row whose scores are all equal the sort keeps the index order. */
  lemma {:induction false} SortOfEqualScores(ps: seq<Scored>)
    requires forall i :: 0 <= i < |ps| ==> ps[i].score == ps[0].score
    ensures SortByScoreDesc(ps) == ps
  {
    if ps != [] {
      var tail := ps[1..];
      SortOfEqualScores(tail);
      assert ps == [ps[0]] + tail;
    }
  }

  /**
    Dropping the head of the sorted row is not the same as dropping the
    query: when all scores of the query's row are equal (an all-zero row, as
    a movie with an empty feature vector gets) and the query is not the
    first movie, the query is reported as its own recommendation.
   */
  lemma QueryReportedOnFlatRow(titles: seq<string>, sim: seq<seq<real>>, title: string, k: int)
    requires IsSquare(sim, |titles|) && title in titles
    requires var q := FirstIndex(titles, title);
             q > 0 && k >= q && forall i :: 0 <= i < |titles| ==> sim[q][i] == sim[q][0]
    ensures var q := FirstIndex(titles, title);
            var r := Recommendations(titles, sim, title, k);
            q - 1 < |r| && r[q - 1] == Recommendation(title, sim[q][q])
  {
    var row := QueryRow(titles, sim, title);
    SortOfEqualScores(Enumerate(row));
    RecommendationsEntries(titles, sim, title, k);
    SelectedCorrect(row, k);
  }

  /** The pairs of `ps` whose index is not `q`, in order. */
  function WithoutIndex(ps: seq<Scored>, q: nat): (r: seq<Scored>)
    ensures forall x :: x in r <==> x in ps && x.index != q
    ensures Ordered(ps) ==> Ordered(r)
  {
    if ps == [] then []
    else if ps[0].index == q then WithoutIndex(ps[1..], q)
    else
      var r := [ps[0]] + WithoutIndex(ps[1..], q);
      assert Ordered(ps) ==> forall j :: 0 < j < |r| ==> Before(ps[0], r[j]) by {
        if Ordered(ps) {
          forall j | 0 < j < |r| ensures Before(ps[0], r[j]) {
            assert r[j] in ps[1..];
            var m :| 0 <= m < |ps[1..]| && ps[1..][m] == r[j];
            assert ps[m + 1] == r[j];
          }
        }
      }
      r
  }

  lemma {:induction false} WithoutIndexLength(ps: seq<Scored>, q: nat)
    requires forall j, j' :: 0 <= j < j' < |ps| ==> ps[j].index != ps[j'].index
    requires exists j :: 0 <= j < |ps| && ps[j].index == q
    ensures |WithoutIndex(ps, q)| == |ps| - 1
  {
    if ps[0].index == q {
      WithoutIndexUntouched(ps[1..], q);
    } else {
      var j :| 0 <= j < |ps| && ps[j].index == q;
      assert ps[1..][j - 1].index == q;
      WithoutIndexLength(ps[1..], q);
    }
  }

  lemma {:induction false} WithoutIndexUntouched(ps: seq<Scored>, q: nat)
    requires forall j :: 0 <= j < |ps| ==> ps[j].index != q
    ensures WithoutIndex(ps, q) == ps
  {
    if ps != [] {
      WithoutIndexUntouched(ps[1..], q);
    }
  }

  /**
    The ranking the code's comment describes: every index except the
    query's own, in the stable descending order, cut to `k`.
   */
  function SelectedExcludingQuery(row: seq<real>, q: nat, k: int): (sel: seq<Scored>)
  {
    var candidates := WithoutIndex(Rank(row), q);
    candidates[..TakeCount(k, |candidates|)]
  }

  /** `get_recommendations` with the query excluded by its index. */
  function RecommendationsExcludingQuery(titles: seq<string>, sim: seq<seq<real>>, title: string, k: int)
    : (r: seq<Recommendation>)
    requires IsSquare(sim, |titles|)
    ensures title !in titles ==> r == []
    ensures k <= 0 ==> r == []
  {
    if title !in titles then []
    else
      var row := QueryRow(titles, sim, title);
      var sel := SelectedExcludingQuery(row, FirstIndex(titles, title), k);
      RankCorrect(row);
      Describe(titles, sel)
  }

  /**
    With the query excluded by index, the query's own index is never
    reported, whatever the scores; the list has `min(k, N - 1)` entries, in
    the stable descending order, each the title and score of its index.
   */
  lemma RecommendationsExcludingQueryCorrect(titles: seq<string>, sim: seq<seq<real>>, title: string, k: int)
    requires IsSquare(sim, |titles|) && title in titles
    ensures var r := RecommendationsExcludingQuery(titles, sim, title, k);
            var q := FirstIndex(titles, title);
            var row := QueryRow(titles, sim, title);
            var sel := SelectedExcludingQuery(row, q, k);
            && |r| == |sel| == (if k <= 0 then 0 else if k < |titles| - 1 then k else |titles| - 1)
            && Ordered(sel)
            && (forall j :: 0 <= j < |sel| ==>
                  sel[j].index != q && sel[j].index < |titles| &&
                  r[j] == Recommendation(titles[sel[j].index], row[sel[j].index]))
  {
    var q := FirstIndex(titles, title);
    var row := QueryRow(titles, sim, title);
    RankCorrect(row);
    var ranked := Rank(row);
    assert Scored(q, row[q]) in ranked;
    var p :| 0 <= p < |ranked| && ranked[p] == Scored(q, row[q]);
    WithoutIndexLength(ranked, q);
    var candidates := WithoutIndex(ranked, q);
    var sel := SelectedExcludingQuery(row, q, k);
    assert |sel| == TakeCount(k, |titles| - 1);
    forall j | 0 <= j < |sel| ensures sel[j].index != q && sel[j].index < |titles| && sel[j].score == row[sel[j].index] {
      assert sel[j] in candidates;
    }
  }

  /**
    The corrected rule reports the best indices: every index other than the
    query's that is not reported ranks after each reported one.
   */
  lemma RecommendationsExcludingQueryAreTop(titles: seq<string>, sim: seq<seq<real>>, title: string, k: int)
    requires IsSquare(sim, |titles|) && title in titles
    ensures var q := FirstIndex(titles, title);
            var row := QueryRow(titles, sim, title);
            var sel := SelectedExcludingQuery(row, q, k);
            forall j, i :: 0 <= j < |sel| && 0 <= i < |row| && i != q && Scored(i, row[i]) !in sel ==>
              Before(sel[j], Scored(i, row[i]))
  {
    var q := FirstIndex(titles, title);
    var row := QueryRow(titles, sim, title);
    RankCorrect(row);
    var candidates := WithoutIndex(Rank(row), q);
    var sel := SelectedExcludingQuery(row, q, k);
    forall j, i | 0 <= j < |sel| && 0 <= i < |row| && i != q && Scored(i, row[i]) !in sel
      ensures Before(sel[j], Scored(i, row[i]))
    {
      assert Scored(i, row[i]) in candidates;
      var p :| 0 <= p < |candidates| && candidates[p] == Scored(i, row[i]);
      assert sel[j] == candidates[j];
      assert Before(candidates[j], candidates[p]);
    }
  }

  /**
    Under a strict maximum self-score the code's rule and the corrected rule
    agree.
   */
  lemma RecommendationsAgreeUnderStrictMaximum(titles: seq<string>, sim: seq<seq<real>>, title: string, k: int)
    requires IsSquare(sim, |titles|) && title in titles
    requires var q := FirstIndex(titles, title);
             forall i :: 0 <= i < |titles| && i != q ==> sim[q][i] < sim[q][q]
    ensures Recommendations(titles, sim, title, k) == RecommendationsExcludingQuery(titles, sim, title, k)
  {
    var q := FirstIndex(titles, title);
    var row := QueryRow(titles, sim, title);
    QueryExcludedUnderStrictMaximum(titles, sim, title, k);
    RankCorrect(row);
    var ranked := Rank(row);
    assert ranked == [ranked[0]] + ranked[1..];
    forall j | 0 <= j < |ranked[1..]| ensures ranked[1..][j].index != q {
      assert ranked[0].index != ranked[j + 1].index;
    }
    WithoutIndexUntouched(ranked[1..], q);
    assert Selected(row, k) == SelectedExcludingQuery(row, q, k);
  }
}
