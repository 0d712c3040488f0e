/**
 * Query pre-processing tables of `app/utils/mapping.py`: synonym expansion and
 * whole-query abbreviation replacement.
 */
module Mapping {
  import opened Strings

  /** `SYNONYM_MAP`, in its dictionary order: a concept key and its synonym phrases. */
  const SynonymMap: seq<(string, seq<string>)> := [
    ("fever", ["jwara", "jvar", "pyrexia", "temperature"]),
    ("diarrhea", ["atisara", "loose motions", "dysentery"]),
    ("anemia", ["pandu", "raktalpata", "pallor"]),
    ("diabetes", ["madhumeha", "sugar disease", "prameha"]),
    ("arthritis", ["amavata", "sandhivata", "joint inflammation"]),
    ("tb", ["rajayakshma", "tuberculosis", "kshaya roga"]),
    ("asthma", ["shwasa", "breathing difficulty", "dyspnea"]),
    ("piles", ["arsha", "hemorrhoids", "bawaseer"]),
    ("skin disease", ["kushtha", "dermatitis", "twak roga"]),
    ("mental disorder", ["unmada", "psychosis", "mana vikara"])
  ]

  /** The test that makes a concept expand the (lowercased) query `q`: the query is
      one of the concept's synonyms, or contains one. The key itself is not tested. */
  predicate Triggers(q: string, synonyms: seq<string>)
  {
    q in synonyms || ContainsAny(q, synonyms)
  }

  /** The `expanded` list once the first `n` concepts of `table` have been visited.
      The table is a parameter so that the proofs about it never unfold the literal. */
  function Accumulated(table: seq<(string, seq<string>)>, q: string, n: nat): (r: seq<string>)
    requires n <= |table|
    ensures |r| >= 1 && r[0] == q
  {
    if n == 0 then [q]
    else
      var (key, synonyms) := table[n - 1];
      Accumulated(table, q, n - 1) + (if Triggers(q, synonyms) then synonyms + [key] else [])
  }

  /** What `expand_synonyms` returns: the distinct accumulated phrases. The source
      turns them into a set, whose order the model fixes as first occurrence. */
  function ExpandedList(query: string): seq<string>
  {
    Dedup(Accumulated(SynonymMap, Lower(query), |SynonymMap|))
  }

  /** `expand_synonyms`: accumulates the lowercased query and, for every concept it
      triggers, the concept's synonyms and key; then drops repetitions. */
  method ExpandSynonyms(query: string) returns (r: seq<string>)
    ensures r == ExpandedList(query)
    ensures NoDups(r)
  {
    var expanded := AccumulateSynonyms(SynonymMap, Lower(query));
    r := Dedup(expanded);
  }

  /** The loop of `expand_synonyms` over the concepts of `table`, in order. */
  method AccumulateSynonyms(table: seq<(string, seq<string>)>, q: string) returns (expanded: seq<string>)
    ensures expanded == Accumulated(table, q, |table|)
  {
    expanded := [q];
    var i := 0;
    while i < |table|
      invariant 0 <= i <= |table|
      invariant expanded == Accumulated(table, q, i)
    {
      var (key, synonyms) := table[i];
      ghost var before := expanded;
      if q in synonyms || ContainsAny(q, synonyms) {
        expanded := expanded + synonyms;
        expanded := expanded + [key];
        assert expanded == before + (synonyms + [key]);
      }
      i := i + 1;
    }
  }

  /** The phrases concept `i` of `table` contributes when triggered. */
  predicate FromConcept(table: seq<(string, seq<string>)>, x: string, i: nat)
    requires i < |table|
  {
    x == table[i].0 || x in table[i].1
  }

  lemma {:induction false} AccumulatedMembers(table: seq<(string, seq<string>)>, q: string, n: nat, x: string)
    requires n <= |table|
    ensures x in Accumulated(table, q, n) <==>
      x == q || exists i :: 0 <= i < n && Triggers(q, table[i].1) && FromConcept(table, x, i)
  {
    if n > 0 {
      AccumulatedMembers(table, q, n - 1, x);
      var entry := table[n - 1];
      var added := if Triggers(q, entry.1) then entry.1 + [entry.0] else [];
      assert Accumulated(table, q, n) == Accumulated(table, q, n - 1) + added;
      assert x in added <==> Triggers(q, entry.1) && FromConcept(table, x, n - 1);
    }
  }

  /** The expansion holds exactly the lowercased query, plus the key and every synonym
      of each concept the query triggers; nothing else. */
  lemma ExpandedMembers(query: string, x: string)
    ensures x in ExpandedList(query) <==>
      x == Lower(query) ||
      exists i :: 0 <= i < |SynonymMap| && Triggers(Lower(query), SynonymMap[i].1) && FromConcept(SynonymMap, x, i)
  {
    AccumulatedMembers(SynonymMap, Lower(query), |SynonymMap|, x);
  }

  /** The expansion always holds the lowercased query itself. */
  lemma ExpandedHasQuery(query: string)
    ensures Lower(query) in ExpandedList(query)
  {
    ExpandedMembers(query, Lower(query));
  }

  /** A query that triggers no concept of `table` accumulates to itself alone. */
  lemma {:induction false} AccumulatedWithoutTrigger(table: seq<(string, seq<string>)>, q: string, n: nat)
    requires n <= |table|
    requires forall i :: 0 <= i < |table| ==> !Triggers(q, table[i].1)
    ensures Accumulated(table, q, n) == [q]
  {
    if n > 0 {
      AccumulatedWithoutTrigger(table, q, n - 1);
    }
  }

  /** A query that triggers no concept expands to itself alone. */
  lemma ExpandedWithoutTrigger(query: string)
    requires forall i :: 0 <= i < |SynonymMap| ==> !Triggers(Lower(query), SynonymMap[i].1)
    ensures ExpandedList(query) == [Lower(query)]
  {
    AccumulatedWithoutTrigger(SynonymMap, Lower(query), |SynonymMap|);
  }

  /** A phrase with one of its first two characters missing from `q` cannot occur in `q`. */
  predicate Escapes(phrase: string, q: string)
  {
    |phrase| >= 2 && (phrase[0] !in q || phrase[1] !in q)
  }

  /** Every synonym in the table escapes "fever". */
  lemma SynonymsEscapeFever()
    ensures forall i, syn :: 0 <= i < |SynonymMap| && syn in SynonymMap[i].1 ==> Escapes(syn, "fever")
  {
    forall i, syn | 0 <= i < |SynonymMap| && syn in SynonymMap[i].1
      ensures Escapes(syn, "fever")
    {
      if i == 0 { assert syn in ["jwara", "jvar", "pyrexia", "temperature"]; }
      else if i == 1 { assert syn in ["atisara", "loose motions", "dysentery"]; }
      else if i == 2 { assert syn in ["pandu", "raktalpata", "pallor"]; }
      else if i == 3 { assert syn in ["madhumeha", "sugar disease", "prameha"]; }
      else if i == 4 { assert syn in ["amavata", "sandhivata", "joint inflammation"]; }
      else if i == 5 { assert syn in ["rajayakshma", "tuberculosis", "kshaya roga"]; }
      else if i == 6 { assert syn in ["shwasa", "breathing difficulty", "dyspnea"]; }
      else if i == 7 { assert syn in ["arsha", "hemorrhoids", "bawaseer"]; }
      else if i == 8 { assert syn in ["kushtha", "dermatitis", "twak roga"]; }
      else { assert syn in ["unmada", "psychosis", "mana vikara"]; }
    }
  }

  /** A concept key is not itself a trigger: "fever" expands to ["fever"] only. */
  lemma FeverExpandsToItself()
    ensures ExpandedList("fever") == ["fever"]
  {
    var q := "fever";
    assert Lower(q) == q;
    SynonymsEscapeFever();
    forall i | 0 <= i < |SynonymMap|
      ensures !Triggers(q, SynonymMap[i].1)
    {
      var syns := SynonymMap[i].1;
      forall j | 0 <= j < |syns|
        ensures !Contains(q, syns[j]) && syns[j] != q
      {
        assert syns[j] in syns;
        FirstTwoCharsOccur(q, syns[j]);
      }
      ContainsAnyIff(q, syns);
    }
    ExpandedWithoutTrigger(q);
  }

  /** A synonym does trigger: "jwara" brings in "fever" and "pyrexia". */
  lemma JwaraExpandsToFever()
    ensures "fever" in ExpandedList("jwara") && "pyrexia" in ExpandedList("jwara")
  {
    assert Lower("jwara") == "jwara";
    assert Triggers("jwara", SynonymMap[0].1);
    assert FromConcept(SynonymMap, "fever", 0) && FromConcept(SynonymMap, "pyrexia", 0);
    ExpandedMembers("jwara", "fever");
    ExpandedMembers("jwara", "pyrexia");
  }

  /** The abbreviation table of `map_abbreviations`, in dictionary order. */
  const AbbreviationMap: seq<(string, string)> := [
    ("ra", "rheumatoid arthritis"),
    ("oa", "osteoarthritis"),
    ("tb", "tuberculosis"),
    ("dm", "diabetes mellitus"),
    ("cvd", "cardiovascular disease"),
    ("mi", "myocardial infarction"),
    ("copd", "chronic obstructive pulmonary disease"),
    ("uti", "urinary tract infection"),
    ("ari", "acute respiratory infection"),
    ("pid", "pelvic inflammatory disease")
  ]

  /** The scan of the table from entry `i` on, returning at the first key equal to `q`. */
  function AbbreviationFrom(q: string, query: string, i: nat): (r: string)
    requires i <= |AbbreviationMap|
    ensures forall j :: i <= j < |AbbreviationMap| && AbbreviationMap[j].0 == q ==> r == AbbreviationMap[j].1
    ensures (forall j :: i <= j < |AbbreviationMap| ==> AbbreviationMap[j].0 != q) ==> r == query
    decreases |AbbreviationMap| - i
  {
    if i == |AbbreviationMap| then query
    else if q == AbbreviationMap[i].0 then AbbreviationMap[i].1
    else AbbreviationFrom(q, query, i + 1)
  }

  /** `map_abbreviations`: the full form when the whole query, ignoring case, is an
      abbreviation; otherwise the query exactly as given. */
  function MapAbbreviations(query: string): (r: string)
    ensures forall j :: 0 <= j < |AbbreviationMap| && AbbreviationMap[j].0 == Lower(query) ==>
      r == AbbreviationMap[j].1
    ensures (forall j :: 0 <= j < |AbbreviationMap| ==> AbbreviationMap[j].0 != Lower(query)) ==>
      r == query
  {
    AbbreviationFrom(Lower(query), query, 0)
  }

  /** "TB" becomes "tuberculosis". */
  lemma TbIsTuberculosis()
    ensures MapAbbreviations("TB") == "tuberculosis"
  {
    assert Lower("TB") == "tb";
    assert AbbreviationMap[2].0 == "tb";
  }

  /** Applying the table twice changes nothing more: no full form is an abbreviation. */
  lemma MapAbbreviationsIdempotent(query: string)
    ensures MapAbbreviations(MapAbbreviations(query)) == MapAbbreviations(query)
  {
    var r := MapAbbreviations(query);
    if exists j :: 0 <= j < |AbbreviationMap| && AbbreviationMap[j].0 == Lower(query) {
      var j :| 0 <= j < |AbbreviationMap| && AbbreviationMap[j].0 == Lower(query);
      AbbreviationLengths();
      assert r == AbbreviationMap[j].1;
      assert |Lower(r)| >= 12;
    }
  }

  /** Every abbreviation is at most four characters long and every full form at
      least twelve, so no full form is an abbreviation. */
  lemma AbbreviationLengths()
    ensures forall k :: 0 <= k < |AbbreviationMap| ==>
      |AbbreviationMap[k].0| <= 4 && |AbbreviationMap[k].1| >= 12
  {
  }
}
