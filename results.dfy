/**
 * The result pipeline of `TerminologyService.search_terms` (`app/services/terminology.py`):
 * every admitted index row scored against every expanded query, the rows above the
 * threshold collected in that order, duplicates by id dropped (the first one
 * collected stays), a stable sort by descending score, and the `limit` cut.
 */
module Results {
  import opened Wrappers
  import opened Strings
  import opened Records
  import opened Mapping
  import opened Ranking

  /** The minimum score a result must exceed. */
  const Threshold: real := 0.3

  /** The `system` filter: no filter admits every row. */
  predicate Admits(filter: Option<CodeSystem>, row: IndexRow)
  {
    filter.None? || row.system == filter.value
  }

  /** What one row contributes for one query: its result when it is admitted and
      scores above the threshold. */
  function RowContribution(q: string, row: IndexRow, filter: Option<CodeSystem>, fuzz: Scorer, p: Patient)
    : (r: seq<SearchResult>)
    ensures |r| <= 1
    ensures r != [] <==> Admits(filter, row) && RowScore(q, row, fuzz, p) > Threshold
    ensures r != [] ==>
      && Admits(filter, row)
      && RowScore(q, row, fuzz, p) > Threshold
      && r[0] == ToResult(row, RowScore(q, row, fuzz, p))
  {
    if !Admits(filter, row) then []
    else
      var score := RowScore(q, row, fuzz, p);
      if score > Threshold then [ToResult(row, score)] else []
  }

  /** The results of one query over the rows, in row order. */
  function RowsResults(q: string, rows: seq<IndexRow>, filter: Option<CodeSystem>, fuzz: Scorer, p: Patient)
    : (r: seq<SearchResult>)
    ensures |r| <= |rows|
    decreases |rows|
  {
    if rows == [] then []
    else RowsResults(q, rows[..|rows| - 1], filter, fuzz, p) + RowContribution(q, rows[|rows| - 1], filter, fuzz, p)
  }

  /** One more row adds its own contribution at the end. */
  lemma RowsResultsSnoc(q: string, rows: seq<IndexRow>, i: nat, filter: Option<CodeSystem>, fuzz: Scorer, p: Patient)
    requires i < |rows|
    ensures RowsResults(q, rows[..i + 1], filter, fuzz, p) ==
      RowsResults(q, rows[..i], filter, fuzz, p) + RowContribution(q, rows[i], filter, fuzz, p)
  {
    assert rows[..i + 1][..i] == rows[..i];
  }

  /** The `results` list: the results of each query in turn. */
  function Collected(queries: seq<string>, index: seq<IndexRow>, filter: Option<CodeSystem>, fuzz: Scorer, p: Patient)
    : seq<SearchResult>
    decreases |queries|
  {
    if queries == [] then []
    else Collected(queries[..|queries| - 1], index, filter, fuzz, p) + RowsResults(queries[|queries| - 1], index, filter, fuzz, p)
  }

  /** A result that some admitted row of the index produced, with a score above the
      threshold and at most 1. */
  predicate FromIndex(x: SearchResult, index: seq<IndexRow>, filter: Option<CodeSystem>)
  {
    exists row :: row in index && Admits(filter, row) && x == ToResult(row, x.score) && Threshold < x.score <= 1.0
  }

  lemma {:induction false} RowsResultsFromIndex(q: string, rows: seq<IndexRow>, index: seq<IndexRow>,
                                                filter: Option<CodeSystem>, fuzz: Scorer, p: Patient)
    requires forall row :: row in rows ==> row in index
    ensures forall x :: x in RowsResults(q, rows, filter, fuzz, p) ==> FromIndex(x, index, filter)
    decreases |rows|
  {
    if rows != [] {
      var init, last := rows[..|rows| - 1], rows[|rows| - 1];
      assert forall row :: row in init ==> row in rows;
      RowsResultsFromIndex(q, init, index, filter, fuzz, p);
      var c := RowContribution(q, last, filter, fuzz, p);
      if c != [] {
        assert last in index;
        assert FromIndex(c[0], index, filter);
      }
    }
  }

  /** Every collected result comes from an admitted row of the index. */
  lemma {:induction false} CollectedFromIndex(queries: seq<string>, index: seq<IndexRow>,
                                              filter: Option<CodeSystem>, fuzz: Scorer, p: Patient)
    ensures forall x :: x in Collected(queries, index, filter, fuzz, p) ==> FromIndex(x, index, filter)
    decreases |queries|
  {
    if queries != [] {
      CollectedFromIndex(queries[..|queries| - 1], index, filter, fuzz, p);
      RowsResultsFromIndex(queries[|queries| - 1], index, index, filter, fuzz, p);
    }
  }

  /** A row that the filter admits and that scores above the threshold for `q` yields
      its result in the pass of `q` over the rows. */
  lemma {:induction false} RowsResultsFinds(q: string, rows: seq<IndexRow>, filter: Option<CodeSystem>,
                                            fuzz: Scorer, p: Patient, k: nat)
    requires k < |rows| && Admits(filter, rows[k]) && RowScore(q, rows[k], fuzz, p) > Threshold
    ensures ToResult(rows[k], RowScore(q, rows[k], fuzz, p)) in RowsResults(q, rows, filter, fuzz, p)
    decreases |rows|
  {
    var init := rows[..|rows| - 1];
    if k < |rows| - 1 {
      assert rows[k] == init[k];
      RowsResultsFinds(q, init, filter, fuzz, p, k);
    }
  }

  /** The same row yields that result among the results of every expanded query. */
  lemma {:induction false} CollectedFinds(queries: seq<string>, index: seq<IndexRow>, filter: Option<CodeSystem>,
                                          fuzz: Scorer, p: Patient, i: nat, k: nat)
    requires i < |queries| && k < |index|
    requires Admits(filter, index[k]) && RowScore(queries[i], index[k], fuzz, p) > Threshold
    ensures ToResult(index[k], RowScore(queries[i], index[k], fuzz, p)) in Collected(queries, index, filter, fuzz, p)
    decreases |queries|
  {
    var init := queries[..|queries| - 1];
    if i < |queries| - 1 {
      assert queries[i] == init[i];
      CollectedFinds(init, index, filter, fuzz, p, i, k);
    } else {
      RowsResultsFinds(queries[i], index, filter, fuzz, p, k);
    }
  }

  /** The ids of a result list. */
  function IdsOf(rs: seq<SearchResult>): set<string>
  {
    set k | 0 <= k < |rs| :: rs[k].id
  }

  predicate DistinctIds(rs: seq<SearchResult>)
  {
    forall i, j :: 0 <= i < j < |rs| ==> rs[i].id != rs[j].id
  }

  lemma IdsOfSnoc(rs: seq<SearchResult>, x: SearchResult)
    ensures IdsOf(rs + [x]) == IdsOf(rs) + {x.id}
  {
    var s := rs + [x];
    assert forall k :: 0 <= k < |rs| ==> s[k] == rs[k];
    assert s[|rs|] == x;
  }

  lemma IdsOfCons(x: SearchResult, rs: seq<SearchResult>)
    ensures IdsOf([x] + rs) == {x.id} + IdsOf(rs)
  {
    var s := [x] + rs;
    assert s[0] == x;
    assert forall k :: 0 <= k < |rs| ==> s[k + 1] == rs[k];
    forall id | id in IdsOf(s)
      ensures id == x.id || id in IdsOf(rs)
    {
      var k :| 0 <= k < |s| && s[k].id == id;
      if k > 0 {
        assert s[k] == rs[k - 1];
      }
    }
  }

  /** The `seen` loop: a result is kept when no kept result has its id yet. */
  function DedupById(rs: seq<SearchResult>): seq<SearchResult>
    decreases |rs|
  {
    if rs == [] then []
    else
      var kept := DedupById(rs[..|rs| - 1]);
      var x := rs[|rs| - 1];
      if x.id in IdsOf(kept) then kept else kept + [x]
  }

  /** De-duplication keeps one result per id and loses no id. */
  lemma {:induction false} DedupByIdDistinct(rs: seq<SearchResult>)
    ensures var u := DedupById(rs);
      && DistinctIds(u)
      && IdsOf(u) == IdsOf(rs)
      && |u| <= |rs|
    decreases |rs|
  {
    if rs != [] {
      var init, x := rs[..|rs| - 1], rs[|rs| - 1];
      var kept := DedupById(init);
      DedupByIdDistinct(init);
      assert rs == init + [x];
      IdsOfSnoc(init, x);
      if x.id !in IdsOf(kept) {
        var u := kept + [x];
        IdsOfSnoc(kept, x);
        forall i, j | 0 <= i < j < |u|
          ensures u[i].id != u[j].id
        {
          assert u[i] == kept[i];
          if j == |kept| {
            assert kept[i].id in IdsOf(kept);
          } else {
            assert u[j] == kept[j];
          }
        }
      }
    }
  }

  /** The index of the first result carrying `id`, or `|rs|` when none does. */
  function FirstIndex(rs: seq<SearchResult>, id: string): (i: nat)
    ensures i <= |rs|
    ensures i < |rs| ==> rs[i].id == id
    ensures i == |rs| ==> id !in IdsOf(rs)
    ensures forall j :: 0 <= j < i ==> rs[j].id != id
    decreases |rs|
  {
    if rs == [] then 0
    else if rs[0].id == id then 0
    else
      var i := 1 + FirstIndex(rs[1..], id);
      assert forall j :: 1 <= j < |rs| ==> rs[j] == rs[1..][j - 1];
      i
  }

  /** For each id, de-duplication keeps the first result carrying it (not the
      best-scored one). */
  lemma {:induction false} DedupByIdKeepsFirst(rs: seq<SearchResult>)
    ensures forall k :: 0 <= k < |DedupById(rs)| ==>
      FirstIndex(rs, DedupById(rs)[k].id) < |rs| && rs[FirstIndex(rs, DedupById(rs)[k].id)] == DedupById(rs)[k]
    decreases |rs|
  {
    if rs != [] {
      var init, x := rs[..|rs| - 1], rs[|rs| - 1];
      var kept, d := DedupById(init), DedupById(rs);
      DedupByIdKeepsFirst(init);
      DedupByIdDistinct(init);
      assert d == if x.id in IdsOf(kept) then kept else kept + [x];
      forall k | 0 <= k < |d|
        ensures FirstIndex(rs, d[k].id) < |rs| && rs[FirstIndex(rs, d[k].id)] == d[k]
      {
        var id := d[k].id;
        if k < |kept| {
          var j := FirstIndex(init, kept[k].id);
          assert d[k] == kept[k] && init[j] == kept[k];
          FirstIndexAt(rs, id, j);
        } else {
          assert d[k] == x;
          forall i | 0 <= i < |rs| - 1
            ensures rs[i].id != id
          {
            assert rs[i] == init[i];
            assert init[i].id in IdsOf(init);
          }
          FirstIndexAt(rs, id, |rs| - 1);
        }
      }
    }
  }

  /** A result whose id no earlier result carries sits at the first index of that id. */
  lemma FirstIndexAt(rs: seq<SearchResult>, id: string, i: nat)
    requires i < |rs| && rs[i].id == id
    requires forall j :: 0 <= j < i ==> rs[j].id != id
    ensures FirstIndex(rs, id) == i
  {
    assert rs[i].id in IdsOf(rs);
  }

  /** For example: of two results for one id, the first collected stays even when the
      second scores higher. */
  lemma DedupKeepsFirstNotBest(a: SearchResult, b: SearchResult)
    requires a.id == b.id && a.score < b.score
    ensures DedupById([a, b]) == [a]
  {
    var ab := [a, b];
    assert ab[..|ab| - 1] == [a] && ab[|ab| - 1] == b;
    assert [a][..0] == [];
    assert DedupById([a]) == [a];
    assert IdsOf([a]) == {a.id} by {
      IdsOfSnoc([], a);
      assert [] + [a] == [a];
    }
  }

  /** Non-increasing scores. */
  predicate Descending(rs: seq<SearchResult>)
  {
    forall i, j :: 0 <= i < j < |rs| ==> rs[i].score >= rs[j].score
  }

  /** The tail of a descending list is descending and bounded by its head. */
  lemma DescendingTail(s: seq<SearchResult>)
    requires s != [] && Descending(s)
    ensures Descending(s[1..])
    ensures forall k :: 0 <= k < |s| ==> s[k].score <= s[0].score
  {
    forall i, j | 0 <= i < j < |s| - 1
      ensures s[1..][i].score >= s[1..][j].score
    {
      assert s[1..][i] == s[i + 1] && s[1..][j] == s[j + 1];
    }
  }

  /** Insertion of `x` after every element whose score is at least its own. */
  function Insert(x: SearchResult, s: seq<SearchResult>): (r: seq<SearchResult>)
    ensures |r| == |s| + 1
    decreases |s|
  {
    if s == [] then [x]
    else if s[0].score >= x.score then [s[0]] + Insert(x, s[1..])
    else [x] + s
  }

  /** `list.sort(key=score, reverse=True)`, which is stable: insertion of each result,
      in list order, behind all results of equal or higher score. */
  function SortByScore(s: seq<SearchResult>): (r: seq<SearchResult>)
    ensures |r| == |s|
    decreases |s|
  {
    if s == [] then [] else Insert(s[|s| - 1], SortByScore(s[..|s| - 1]))
  }

  lemma {:induction false} InsertMultiset(x: SearchResult, s: seq<SearchResult>)
    ensures multiset(Insert(x, s)) == multiset(s) + multiset{x}
    decreases |s|
  {
    if s != [] && s[0].score >= x.score {
      InsertMultiset(x, s[1..]);
      assert s == [s[0]] + s[1..];
    }
  }

  /** A list is descending after putting a result in front exactly when the rest is
      descending and no later score exceeds the new first one. */
  lemma DescendingCons(x: SearchResult, rs: seq<SearchResult>)
    ensures Descending([x] + rs) <==> Descending(rs) && forall k :: 0 <= k < |rs| ==> x.score >= rs[k].score
  {
    var s := [x] + rs;
    assert forall k :: 0 <= k < |rs| ==> s[k + 1] == rs[k];
    if Descending(s) {
      forall i, j | 0 <= i < j < |rs|
        ensures rs[i].score >= rs[j].score
      {
        assert s[i + 1].score >= s[j + 1].score;
      }
      forall k | 0 <= k < |rs|
        ensures x.score >= rs[k].score
      {
        assert s[0].score >= s[k + 1].score;
      }
    }
  }

  lemma {:induction false} InsertDescending(x: SearchResult, s: seq<SearchResult>)
    requires Descending(s)
    ensures Descending(Insert(x, s))
    decreases |s|
  {
    if s == [] {
      DescendingCons(x, []);
      assert [x] + [] == [x];
    } else if s[0].score >= x.score {
      var rest := s[1..];
      assert s == [s[0]] + rest;
      DescendingCons(s[0], rest);
      InsertDescending(x, rest);
      InsertMultiset(x, rest);
      var t := Insert(x, rest);
      forall j | 0 <= j < |t|
        ensures s[0].score >= t[j].score
      {
        assert t[j] in multiset(t);
        if t[j] != x {
          assert t[j] in multiset(rest);
        }
      }
      DescendingCons(s[0], t);
    } else {
      DescendingTail(s);
      DescendingCons(x, s);
    }
  }


  /** The results with score exactly `v`, in list order. */
  function WithScore(s: seq<SearchResult>, v: real): seq<SearchResult>
  {
    if s == [] then []
    else (if s[0].score == v then [s[0]] else []) + WithScore(s[1..], v)
  }

  lemma {:induction false} WithScoreAppend(a: seq<SearchResult>, b: seq<SearchResult>, v: real)
    ensures WithScore(a + b, v) == WithScore(a, v) + WithScore(b, v)
  {
    if a == [] {
      assert a + b == b;
    } else {
      var ab := a + b;
      assert ab[0] == a[0] && ab[1..] == a[1..] + b;
      WithScoreAppend(a[1..], b, v);
      assert WithScore(ab, v) == (if a[0].score == v then [a[0]] else []) + WithScore(a[1..] + b, v);
    }
  }

  lemma {:induction false} WithScoreNone(s: seq<SearchResult>, v: real)
    requires forall k :: 0 <= k < |s| ==> s[k].score != v
    ensures WithScore(s, v) == []
  {
    if s != [] {
      WithScoreNone(s[1..], v);
    }
  }

  lemma {:induction false} InsertStable(x: SearchResult, s: seq<SearchResult>, v: real)
    requires Descending(s)
    ensures WithScore(Insert(x, s), v) == WithScore(s, v) + (if x.score == v then [x] else [])
    decreases |s|
  {
    var tail := if x.score == v then [x] else [];
    if s != [] {
      DescendingTail(s);
      var head := if s[0].score == v then [s[0]] else [];
      if s[0].score >= x.score {
        var t := Insert(x, s[1..]);
        InsertStable(x, s[1..], v);
        assert Insert(x, s) == [s[0]] + t;
        assert ([s[0]] + t)[0] == s[0] && ([s[0]] + t)[1..] == t;
        assert WithScore([s[0]] + t, v) == head + WithScore(t, v);
        assert WithScore(s, v) == head + WithScore(s[1..], v);
        assert head + (WithScore(s[1..], v) + tail) == (head + WithScore(s[1..], v)) + tail;
      } else {
        assert Insert(x, s) == [x] + s;
        assert ([x] + s)[0] == x && ([x] + s)[1..] == s;
        assert WithScore([x] + s, v) == tail + WithScore(s, v);
        if x.score == v {
          WithScoreNone(s, v);
          assert tail + [] == [] + tail;
        }
      }
    }
  }

  /** Ids stay distinct after putting a result in front exactly when its id is new. */
  lemma DistinctCons(x: SearchResult, rs: seq<SearchResult>)
    ensures DistinctIds([x] + rs) <==> x.id !in IdsOf(rs) && DistinctIds(rs)
  {
    var s := [x] + rs;
    assert forall k :: 0 <= k < |rs| ==> s[k + 1] == rs[k];
    if DistinctIds(s) {
      forall k | 0 <= k < |rs|
        ensures rs[k].id != x.id
      {
        assert s[0].id != s[k + 1].id;
      }
    }
    if x.id !in IdsOf(rs) && DistinctIds(rs) {
      forall i, j | 0 <= i < j < |s|
        ensures s[i].id != s[j].id
      {
        if i == 0 {
          assert rs[j - 1].id in IdsOf(rs);
        }
      }
    }
  }

  lemma {:induction false} InsertDistinct(x: SearchResult, s: seq<SearchResult>)
    requires DistinctIds(s) && x.id !in IdsOf(s)
    ensures DistinctIds(Insert(x, s))
    ensures IdsOf(Insert(x, s)) == IdsOf(s) + {x.id}
    decreases |s|
  {
    if s == [] {
      DistinctCons(x, []);
      IdsOfCons(x, []);
      assert [x] + [] == [x];
    } else if s[0].score >= x.score {
      var rest := s[1..];
      assert s == [s[0]] + rest;
      DistinctCons(s[0], rest);
      IdsOfCons(s[0], rest);
      InsertDistinct(x, rest);
      var t := Insert(x, rest);
      DistinctCons(s[0], t);
      IdsOfCons(s[0], t);
    } else {
      DistinctCons(x, s);
      IdsOfCons(x, s);
    }
  }


  /** The sort orders by non-increasing score and is a permutation. */
  lemma {:induction false} SortByScoreOrders(s: seq<SearchResult>)
    ensures Descending(SortByScore(s))
    ensures multiset(SortByScore(s)) == multiset(s)
    decreases |s|
  {
    if s != [] {
      var init, x := s[..|s| - 1], s[|s| - 1];
      assert s == init + [x];
      SortByScoreOrders(init);
      InsertDescending(x, SortByScore(init));
      InsertMultiset(x, SortByScore(init));
    }
  }

  /** The sort is stable: the results of any one score keep their relative order. */
  lemma {:induction false} SortByScoreStable(s: seq<SearchResult>, v: real)
    ensures WithScore(SortByScore(s), v) == WithScore(s, v)
    decreases |s|
  {
    if s != [] {
      var init, x := s[..|s| - 1], s[|s| - 1];
      assert s == init + [x];
      SortByScoreStable(init, v);
      SortByScoreOrders(init);
      InsertStable(x, SortByScore(init), v);
      WithScoreAppend(init, [x], v);
      assert [x][1..] == [];
    }
  }

  /** Sorting keeps ids distinct, and the same ids. */
  lemma {:induction false} SortByScoreDistinct(s: seq<SearchResult>)
    requires DistinctIds(s)
    ensures DistinctIds(SortByScore(s)) && IdsOf(SortByScore(s)) == IdsOf(s)
    decreases |s|
  {
    if s != [] {
      var init, x := s[..|s| - 1], s[|s| - 1];
      assert s == init + [x];
      assert forall k :: 0 <= k < |init| ==> init[k] == s[k];
      SortByScoreDistinct(init);
      IdsOfSnoc(init, x);
      assert x.id !in IdsOf(init) by {
        forall k | 0 <= k < |init| ensures init[k].id != x.id {
          assert init[k] == s[k];
        }
      }
      InsertDistinct(x, SortByScore(init));
    }
  }

  /** What `search_terms` returns, given the index. */
  function SearchSpec(index: seq<IndexRow>, query: string, filter: Option<CodeSystem>, p: Patient,
                      fuzz: Scorer, limit: nat): seq<SearchResult>
  {
    var queries := ExpandedList(MapAbbreviations(query));
    Take(SortByScore(DedupById(Collected(queries, index, filter, fuzz, p))), limit)
  }

  /** De-duplication only drops results. */
  lemma DedupByIdSubset(rs: seq<SearchResult>)
    ensures forall x :: x in DedupById(rs) ==> x in rs
  {
    DedupByIdKeepsFirst(rs);
  }

  /** Every result of the search comes from an admitted row of the index. */
  lemma SearchFromIndex(index: seq<IndexRow>, query: string, filter: Option<CodeSystem>, p: Patient,
                        fuzz: Scorer, limit: nat)
    ensures var r := SearchSpec(index, query, filter, p, fuzz, limit);
      forall k :: 0 <= k < |r| ==> FromIndex(r[k], index, filter)
  {
    var queries := ExpandedList(MapAbbreviations(query));
    var collected := Collected(queries, index, filter, fuzz, p);
    var unique := DedupById(collected);
    var sorted := SortByScore(unique);
    var r := Take(sorted, limit);
    CollectedFromIndex(queries, index, filter, fuzz, p);
    DedupByIdSubset(collected);
    SortByScoreOrders(unique);
    forall k | 0 <= k < |r|
      ensures FromIndex(r[k], index, filter)
    {
      assert r[k] == sorted[k];
      assert r[k] in multiset(sorted);
      assert r[k] in unique;
    }
  }

  /** The search output: at most `limit` results, pairwise distinct ids, scores
      non-increasing and in (0.3, 1.0], every result built from an admitted row of the
      index (so within the `system` filter, with that row's mapped codes). */
  lemma SearchOutput(index: seq<IndexRow>, query: string, filter: Option<CodeSystem>, p: Patient,
                     fuzz: Scorer, limit: nat)
    ensures var r := SearchSpec(index, query, filter, p, fuzz, limit);
      && |r| <= limit
      && DistinctIds(r)
      && Descending(r)
      && forall k :: 0 <= k < |r| ==> FromIndex(r[k], index, filter)
  {
    var queries := ExpandedList(MapAbbreviations(query));
    var collected := Collected(queries, index, filter, fuzz, p);
    var unique := DedupById(collected);
    var sorted := SortByScore(unique);
    var r := Take(sorted, limit);
    DedupByIdDistinct(collected);
    SortByScoreOrders(unique);
    SortByScoreDistinct(unique);
    assert forall k :: 0 <= k < |r| ==> r[k] == sorted[k];
    SearchFromIndex(index, query, filter, p, fuzz, limit);
  }

  /** No qualifying row is lost: a row admitted by the filter that scores above the
      threshold for some expanded query keeps its id through the de-duplication, and
      reaches the output whenever the de-duplicated results fit in `limit`. */
  lemma SearchFinds(index: seq<IndexRow>, query: string, filter: Option<CodeSystem>, p: Patient,
                    fuzz: Scorer, limit: nat, q: string, row: IndexRow)
    requires q in ExpandedList(MapAbbreviations(query)) && row in index
    requires Admits(filter, row) && RowScore(q, row, fuzz, p) > Threshold
    ensures row.id in IdsOf(DedupById(Collected(ExpandedList(MapAbbreviations(query)), index, filter, fuzz, p)))
    ensures |DedupById(Collected(ExpandedList(MapAbbreviations(query)), index, filter, fuzz, p))| <= limit ==>
      row.id in IdsOf(SearchSpec(index, query, filter, p, fuzz, limit))
  {
    var queries := ExpandedList(MapAbbreviations(query));
    var collected := Collected(queries, index, filter, fuzz, p);
    var i :| 0 <= i < |queries| && queries[i] == q;
    var k :| 0 <= k < |index| && index[k] == row;
    CollectedFinds(queries, index, filter, fuzz, p, i, k);
    var x := ToResult(row, RowScore(q, row, fuzz, p));
    var j :| 0 <= j < |collected| && collected[j] == x;
    assert row.id in IdsOf(collected);
    var unique := DedupById(collected);
    DedupByIdDistinct(collected);
    SortByScoreDistinct(unique);
    if |unique| <= limit {
      assert Take(SortByScore(unique), limit) == SortByScore(unique);
    }
  }
}
