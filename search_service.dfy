/**
 * The suggestion collection of `SearchService.autocomplete` (`app/services/search.py`).
 * The scan walks the terminology service's search index in order. It skips rows
 * outside the `system` filter, and keeps every display and synonym whose lowercase
 * form starts with the lowercased prefix. It stops after the first row at which the
 * collected count reaches twice the limit. Repetitions are then dropped, and at most
 * `limit` suggestions are returned.
 */
module SearchService {
  import opened Wrappers
  import opened Strings
  import opened Records

  /** Python's truthiness of `system`: neither `None` nor the empty string. */
  predicate Filters(system: Option<string>)
  {
    system.Some? && system.value != ""
  }

  /** The row passes the `system` filter: no filter, or the row's system value
      (`"namaste"`, `"icd11_tm2"` or `"icd11_bio"`) equals it exactly. */
  predicate Admitted(system: Option<string>, row: IndexRow)
  {
    !Filters(system) || row.system.Value() == system.value
  }

  /** `phrase.lower().startswith(prefix.lower())`. */
  predicate Completes(prefix: string, phrase: string)
  {
    IsPrefix(Lower(prefix), Lower(phrase))
  }

  /** The phrases of `phrases` the prefix completes, in order. */
  function Matching(prefix: string, phrases: seq<string>): (r: seq<string>)
    ensures |r| <= |phrases|
    decreases |phrases|
  {
    if phrases == [] then []
    else
      var last := phrases[|phrases| - 1];
      Matching(prefix, phrases[..|phrases| - 1]) + (if Completes(prefix, last) then [last] else [])
  }

  /** What one admitted row appends: its display when the prefix completes it, then
      each synonym the prefix completes. */
  function RowSuggestions(row: IndexRow, prefix: string): seq<string>
  {
    (if Completes(prefix, row.display) then [row.display] else []) + Matching(prefix, row.synonyms)
  }

  /** The `suggestions` list left by the scan of `rows`, starting from `acc`. */
  function Collect(rows: seq<IndexRow>, prefix: string, system: Option<string>, limit: nat, acc: seq<string>)
    : seq<string>
    decreases |rows|
  {
    if rows == [] then acc
    else if !Admitted(system, rows[0]) then Collect(rows[1..], prefix, system, limit, acc)
    else
      var next := acc + RowSuggestions(rows[0], prefix);
      if |next| >= limit * 2 then next else Collect(rows[1..], prefix, system, limit, next)
  }

  /** Every suggestion the rows hold, as a scan without the early stop would gather. */
  function AllSuggestions(rows: seq<IndexRow>, prefix: string, system: Option<string>): seq<string>
    decreases |rows|
  {
    if rows == [] then []
    else
      (if Admitted(system, rows[0]) then RowSuggestions(rows[0], prefix) else [])
        + AllSuggestions(rows[1..], prefix, system)
  }

  /** What `autocomplete` returns. The source takes `list(set(suggestions))`, whose
      order is unspecified; the model keeps first occurrences in scan order. */
  function Suggestions(index: seq<IndexRow>, prefix: string, system: Option<string>, limit: nat): seq<string>
  {
    Take(Dedup(Collect(index, prefix, system, limit, [])), limit)
  }

  /** `x` is the display or a synonym of `row`, and the prefix completes it. */
  predicate Suggests(row: IndexRow, prefix: string, x: string)
  {
    (x == row.display || x in row.synonyms) && Completes(prefix, x)
  }

  /** Some admitted row of `rows` suggests `x`. */
  predicate SuggestedBy(x: string, rows: seq<IndexRow>, prefix: string, system: Option<string>)
  {
    exists k :: 0 <= k < |rows| && Admitted(system, rows[k]) && Suggests(rows[k], prefix, x)
  }

  /** `autocomplete` without its cache: the scan, then the deduplication and the cut. */
  method Autocomplete(index: seq<IndexRow>, prefix: string, system: Option<string>, limit: nat)
    returns (r: seq<string>)
    ensures r == Suggestions(index, prefix, system, limit)
  {
    ghost var total := Collect(index, prefix, system, limit, []);
    var suggestions: seq<string> := [];
    var i := 0;
    while i < |index|
      invariant 0 <= i <= |index|
      invariant Collect(index[i..], prefix, system, limit, suggestions) == total
    {
      var item := index[i];
      assert index[i..][1..] == index[i + 1..];
      if Filters(system) && item.system.Value() != system.value {
        i := i + 1;
        continue;
      }
      var own := RowOwnSuggestions(item, prefix);
      suggestions := suggestions + own;
      if |suggestions| >= limit * 2 {
        break;
      }
      i := i + 1;
    }
    r := Take(Dedup(suggestions), limit);
  }

  /** The body of the scan for one admitted row: the display, then each synonym. */
  method RowOwnSuggestions(item: IndexRow, prefix: string) returns (own: seq<string>)
    ensures own == RowSuggestions(item, prefix)
  {
    var p := Lower(prefix);
    own := [];
    if IsPrefix(p, Lower(item.display)) {
      own := own + [item.display];
    }
    ghost var head := own;
    var j := 0;
    while j < |item.synonyms|
      invariant 0 <= j <= |item.synonyms|
      invariant own == head + Matching(prefix, item.synonyms[..j])
    {
      var synonym := item.synonyms[j];
      assert item.synonyms[..j + 1][..j] == item.synonyms[..j];
      if IsPrefix(p, Lower(synonym)) {
        own := own + [synonym];
      }
      j := j + 1;
    }
    assert item.synonyms[..j] == item.synonyms;
  }

  /** The prefix keeps exactly the phrases it completes. */
  lemma {:induction false} MatchingMembers(prefix: string, phrases: seq<string>, x: string)
    ensures x in Matching(prefix, phrases) <==> x in phrases && Completes(prefix, x)
    decreases |phrases|
  {
    if phrases != [] {
      var init := phrases[..|phrases| - 1];
      MatchingMembers(prefix, init, x);
      assert phrases == init + [phrases[|phrases| - 1]];
    }
  }

  /** A row appends exactly the phrases it suggests. */
  lemma RowSuggestionsMembers(row: IndexRow, prefix: string, x: string)
    ensures x in RowSuggestions(row, prefix) <==> Suggests(row, prefix, x)
  {
    MatchingMembers(prefix, row.synonyms, x);
  }

  /** The unstopped scan holds exactly the phrases some admitted row suggests. */
  lemma {:induction false} AllSuggestionsMembers(rows: seq<IndexRow>, prefix: string, system: Option<string>, x: string)
    ensures x in AllSuggestions(rows, prefix, system) <==> SuggestedBy(x, rows, prefix, system)
    decreases |rows|
  {
    if rows != [] {
      var rest := rows[1..];
      AllSuggestionsMembers(rest, prefix, system, x);
      RowSuggestionsMembers(rows[0], prefix, x);
      if SuggestedBy(x, rest, prefix, system) {
        var k :| 0 <= k < |rest| && Admitted(system, rest[k]) && Suggests(rest[k], prefix, x);
        assert rows[k + 1] == rest[k];
      }
      if SuggestedBy(x, rows, prefix, system) {
        var k :| 0 <= k < |rows| && Admitted(system, rows[k]) && Suggests(rows[k], prefix, x);
        if k > 0 {
          assert rest[k - 1] == rows[k];
        }
      }
    }
  }

  /** One step of the scan: the row's own suggestions, when admitted, end up in front
      of those of the rows after it. */
  lemma AllSuggestionsStep(rows: seq<IndexRow>, prefix: string, system: Option<string>, acc: seq<string>)
    requires rows != []
    ensures acc + AllSuggestions(rows, prefix, system) ==
      (acc + (if Admitted(system, rows[0]) then RowSuggestions(rows[0], prefix) else []))
        + AllSuggestions(rows[1..], prefix, system)
  {
  }

  /** The early stop only cuts: the scan's list is a prefix of the unstopped one. */
  lemma {:induction false} CollectIsPrefix(rows: seq<IndexRow>, prefix: string, system: Option<string>, limit: nat,
                                           acc: seq<string>)
    ensures |Collect(rows, prefix, system, limit, acc)| <= |acc + AllSuggestions(rows, prefix, system)|
    ensures (acc + AllSuggestions(rows, prefix, system))[..|Collect(rows, prefix, system, limit, acc)|]
      == Collect(rows, prefix, system, limit, acc)
    decreases |rows|
  {
    if rows == [] {
      assert acc + [] == acc;
    } else {
      var rest := rows[1..];
      var next := acc + (if Admitted(system, rows[0]) then RowSuggestions(rows[0], prefix) else []);
      AllSuggestionsStep(rows, prefix, system, acc);
      if Admitted(system, rows[0]) && |next| >= limit * 2 {
        assert Collect(rows, prefix, system, limit, acc) == next;
        assert (next + AllSuggestions(rest, prefix, system))[..|next|] == next;
      } else {
        if !Admitted(system, rows[0]) {
          assert next == acc + [] == acc;
        }
        assert Collect(rows, prefix, system, limit, acc) == Collect(rest, prefix, system, limit, next);
        CollectIsPrefix(rest, prefix, system, limit, next);
      }
    }
  }

  /** The scan falls short of the unstopped list only once the count has reached
      twice the limit. */
  lemma {:induction false} CollectShortOnlyWhenCut(rows: seq<IndexRow>, prefix: string, system: Option<string>,
                                                   limit: nat, acc: seq<string>)
    ensures |Collect(rows, prefix, system, limit, acc)| < |acc + AllSuggestions(rows, prefix, system)| ==>
      |Collect(rows, prefix, system, limit, acc)| >= limit * 2
    decreases |rows|
  {
    if rows != [] {
      var rest := rows[1..];
      var next := acc + (if Admitted(system, rows[0]) then RowSuggestions(rows[0], prefix) else []);
      AllSuggestionsStep(rows, prefix, system, acc);
      if Admitted(system, rows[0]) && |next| >= limit * 2 {
        assert Collect(rows, prefix, system, limit, acc) == next;
      } else {
        if !Admitted(system, rows[0]) {
          assert next == acc + [] == acc;
        }
        assert Collect(rows, prefix, system, limit, acc) == Collect(rest, prefix, system, limit, next);
        CollectShortOnlyWhenCut(rest, prefix, system, limit, next);
      }
    }
  }

  /** Every suggestion comes from an admitted row and the prefix completes it; there
      are at most `limit` of them and no two are equal. */
  lemma SuggestionsSound(index: seq<IndexRow>, prefix: string, system: Option<string>, limit: nat)
    ensures |Suggestions(index, prefix, system, limit)| <= limit
    ensures NoDups(Suggestions(index, prefix, system, limit))
    ensures forall k :: 0 <= k < |Suggestions(index, prefix, system, limit)| ==>
      SuggestedBy(Suggestions(index, prefix, system, limit)[k], index, prefix, system)
  {
    var collected := Collect(index, prefix, system, limit, []);
    var unique := Dedup(collected);
    var r := Take(unique, limit);
    var all := AllSuggestions(index, prefix, system);
    CollectIsPrefix(index, prefix, system, limit, []);
    assert [] + all == all;
    forall i, j | 0 <= i < j < |r|
      ensures r[i] != r[j]
    {
      assert r[i] == unique[i] && r[j] == unique[j];
    }
    forall k | 0 <= k < |r|
      ensures SuggestedBy(r[k], index, prefix, system)
    {
      assert r[k] == unique[k];
      assert r[k] in collected;
      var m :| 0 <= m < |collected| && collected[m] == r[k];
      assert all[m] == r[k];
      AllSuggestionsMembers(index, prefix, system, r[k]);
    }
  }

  /** When the scan is not cut early and its distinct phrases fit in `limit`, none
      is lost: a phrase is suggested exactly when some admitted row suggests it. */
  lemma SuggestionsComplete(index: seq<IndexRow>, prefix: string, system: Option<string>, limit: nat, x: string)
    requires Collect(index, prefix, system, limit, []) == AllSuggestions(index, prefix, system)
    requires |Dedup(AllSuggestions(index, prefix, system))| <= limit
    ensures x in Suggestions(index, prefix, system, limit) <==> SuggestedBy(x, index, prefix, system)
  {
    var unique := Dedup(AllSuggestions(index, prefix, system));
    assert unique[..|unique|] == unique;
    AllSuggestionsMembers(index, prefix, system, x);
  }

  /** In particular, nothing is lost when the whole scan holds at most `limit` phrases. */
  lemma ShortScanComplete(index: seq<IndexRow>, prefix: string, system: Option<string>, limit: nat)
    requires |AllSuggestions(index, prefix, system)| <= limit
    ensures Collect(index, prefix, system, limit, []) == AllSuggestions(index, prefix, system)
    ensures |Dedup(AllSuggestions(index, prefix, system))| <= limit
  {
    var all := AllSuggestions(index, prefix, system);
    CollectIsPrefix(index, prefix, system, limit, []);
    CollectShortOnlyWhenCut(index, prefix, system, limit, []);
    assert [] + all == all;
    assert all[..|all|] == all;
  }

  /** The filter compares against the lowercase enumeration values exactly, so any
      other non-empty system string (such as "NAMASTE") suggests nothing. */
  lemma UnknownSystemSuggestsNothing(index: seq<IndexRow>, prefix: string, system: string, limit: nat)
    requires system != "" && system != "namaste" && system != "icd11_tm2" && system != "icd11_bio"
    ensures Suggestions(index, prefix, Some(system), limit) == []
  {
    var all := AllSuggestions(index, prefix, Some(system));
    if all != [] {
      AllSuggestionsMembers(index, prefix, Some(system), all[0]);
      var k :| 0 <= k < |index| && Admitted(Some(system), index[k]) && Suggests(index[k], prefix, all[0]);
      assert false;
    }
    CollectIsPrefix(index, prefix, Some(system), limit, []);
  }
}
