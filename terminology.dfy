/**
 * `TerminologyService` of `app/services/terminology.py`: the in-memory store of the
 * NAMASTE, ICD-11 TM2 and ICD-11 biomedical record lists, the append-only version
 * list, the lookup dictionaries and search index derived from them, and the
 * operations that read or update them.
 */
module Terminology {
  import opened Wrappers
  import opened Strings
  import opened Records
  import opened Indexing
  import opened Mapping
  import opened Ranking
  import opened Results
  import opened Translation
  import CsvParser

  /** The label `f"1.0.{i}"` of the i-th version. */
  function VersionLabel(i: nat): string
  {
    "1.0." + NatToString(i)
  }

  /** Different positions carry different labels. */
  lemma VersionLabelInjective(i: nat, j: nat)
    ensures VersionLabel(i) == VersionLabel(j) ==> i == j
  {
    if VersionLabel(i) == VersionLabel(j) {
      var a, b := NatToString(i), NatToString(j);
      assert a == VersionLabel(i)[4..] && b == VersionLabel(j)[4..];
      NatToStringInjective(i, j);
    }
  }

  /** `item.update({"version": ..., "effective_date": ..., "last_updated": ...})` on
      every item of a list. */
  function Restamp(items: seq<TermRecord>, version: string, effectiveDate: string, now: string)
    : (r: seq<TermRecord>)
    ensures |r| == |items|
    ensures forall i :: 0 <= i < |items| ==>
      && r[i].version == version && r[i].effectiveDate == effectiveDate && r[i].lastUpdated == now
      && r[i].(version := items[i].version, effectiveDate := items[i].effectiveDate,
               lastUpdated := items[i].lastUpdated) == items[i]
  {
    seq(|items|, i requires 0 <= i < |items| =>
      items[i].(version := version, effectiveDate := effectiveDate, lastUpdated := now))
  }

  /** The i-th version is labelled "1.0.i". */
  predicate Labelled(versions: seq<TerminologyVersion>)
  {
    forall i :: 0 <= i < |versions| ==> versions[i].version == VersionLabel(i)
  }

  /** Every record carries the label of one of the first `n` versions. */
  predicate StampedWithin(items: seq<TermRecord>, n: nat)
  {
    forall k :: 0 <= k < |items| ==> StampedBy(items[k], n)
  }

  /** The record carries the label of one of the first `n` versions. */
  predicate StampedBy(r: TermRecord, n: nat)
  {
    exists i :: 0 <= i < n && r.version == VersionLabel(i)
  }

  /** Appending the version labelled with the next position keeps the labelling. */
  lemma LabelledAppend(versions: seq<TerminologyVersion>, v: TerminologyVersion)
    requires Labelled(versions) && v.version == VersionLabel(|versions|)
    ensures Labelled(versions + [v])
  {
  }

  /** Records stamped with the newest label join records stamped with older ones. */
  lemma StampedAppend(before: seq<TermRecord>, added: seq<TermRecord>, n: nat)
    requires StampedWithin(before, n)
    requires forall k :: 0 <= k < |added| ==> added[k].version == VersionLabel(n)
    ensures StampedWithin(before + added, n + 1)
  {
    var all := before + added;
    forall k | 0 <= k < |all|
      ensures StampedBy(all[k], n + 1)
    {
      if k < |before| {
        assert all[k] == before[k];
        var i :| 0 <= i < n && before[k].version == VersionLabel(i);
        assert 0 <= i < n + 1 && all[k].version == VersionLabel(i);
      } else {
        assert all[k] == added[k - |before|];
        assert 0 <= n < n + 1 && all[k].version == VersionLabel(n);
      }
    }
  }

  /** `after` is `before` followed by the shaped rows, each stamped with the label
      `newLabel` and the import time. */
  predicate ImportedInto(rows: seq<CsvParser.Row>, readNumber: CsvParser.NumberReader, now: string,
                         before: seq<TermRecord>, newLabel: string, after: seq<TermRecord>)
  {
    && |after| == |before| + |rows|
    && after[..|before|] == before
    && forall j :: 0 <= j < |rows| ==>
         && CsvParser.ShapeRow(rows[j], readNumber, now).Ok?
         && after[|before| + j]
              == CsvParser.ShapeRow(rows[j], readNumber, now).value.(version := newLabel, effectiveDate := now,
                                                                      lastUpdated := now)
  }

  /** Appending the parsed rows, restamped, to the existing records gives the
      imported list, and every record still carries a label of the versions. */
  lemma ImportedRecords(rows: seq<CsvParser.Row>, readNumber: CsvParser.NumberReader, now: string,
                        before: seq<TermRecord>, parsed: seq<TermRecord>, n: nat)
    requires StampedWithin(before, n)
    requires |parsed| == |rows|
    requires forall j :: 0 <= j < |rows| ==> CsvParser.ShapeRow(rows[j], readNumber, now) == Ok(parsed[j])
    ensures ImportedInto(rows, readNumber, now, before, VersionLabel(n), before + Restamp(parsed, VersionLabel(n), now, now))
    ensures StampedWithin(before + Restamp(parsed, VersionLabel(n), now, now), n + 1)
  {
    var stamped := Restamp(parsed, VersionLabel(n), now, now);
    var after := before + stamped;
    assert after[..|before|] == before;
    forall j | 0 <= j < |rows|
      ensures after[|before| + j] == stamped[j]
    {
    }
    StampedAppend(before, stamped, n);
  }

  /** One stamping loop. */
  method StampAll(items: seq<TermRecord>, version: string, effectiveDate: string, now: string)
    returns (r: seq<TermRecord>)
    ensures r == Restamp(items, version, effectiveDate, now)
  {
    r := [];
    var i := 0;
    while i < |items|
      invariant 0 <= i <= |items|
      invariant |r| == i
      invariant forall k :: 0 <= k < i ==>
        r[k] == items[k].(version := version, effectiveDate := effectiveDate, lastUpdated := now)
    {
      r := r + [items[i].(version := version, effectiveDate := effectiveDate, lastUpdated := now)];
      i := i + 1;
    }
  }

  /** The six dictionaries of `_rebuild_indexes`, held together in one record. */
  datatype Lookups = Lookups(
    namasteByCode: map<string, TermRecord>,
    namasteById: map<string, TermRecord>,
    tm2ByCode: map<string, TermRecord>,
    tm2ById: map<string, TermRecord>,
    bioByCode: map<string, TermRecord>,
    bioById: map<string, TermRecord>)

  /** The dictionary comprehensions: each list keyed by code and by id. */
  function LookupsOf(namaste: seq<TermRecord>, tm2: seq<TermRecord>, bio: seq<TermRecord>): Lookups
  {
    Lookups(Keyed(namaste, ByCode), Keyed(namaste, ById), Keyed(tm2, ByCode), Keyed(tm2, ById),
            Keyed(bio, ByCode), Keyed(bio, ById))
  }

  /** `_create_search_index`: one append per record, NAMASTE first, then TM2, then
      biomedical. */
  method CreateSearchIndex(namasteData: seq<TermRecord>, tm2Data: seq<TermRecord>, bioData: seq<TermRecord>)
    returns (index: seq<IndexRow>)
    ensures index == SearchIndexOf(namasteData, tm2Data, bioData)
  {
    index := AppendRows([], namasteData, Namaste);
    index := AppendRows(index, tm2Data, Icd11Tm2);
    index := AppendRows(index, bioData, Icd11Bio);
  }

  /** One of the three loops of `_create_search_index`: the row of each record of one
      list, in list order, appended to the index built so far. */
  method AppendRows(index: seq<IndexRow>, items: seq<TermRecord>, system: CodeSystem)
    returns (extended: seq<IndexRow>)
    ensures extended == index + RowsOf(items, system)
  {
    extended := index;
    var i := 0;
    while i < |items|
      invariant 0 <= i <= |items|
      invariant extended == index + RowsOf(items[..i], system)
    {
      RowsOfSnoc(items, i, system);
      extended := extended + [RowOf(items[i], system)];
      i := i + 1;
    }
    assert items[..i] == items;
  }


  /** The two nested loops of `search_terms`: for each expanded query in turn, the
      results of every index row. */
  method CollectResults(index: seq<IndexRow>, expanded: seq<string>, filter: Option<CodeSystem>, p: Patient, fuzz: Scorer)
    returns (results: seq<SearchResult>)
    ensures results == Collected(expanded, index, filter, fuzz, p)
  {
    results := [];
    var qi := 0;
    while qi < |expanded|
      invariant 0 <= qi <= |expanded|
      invariant results == Collected(expanded[..qi], index, filter, fuzz, p)
    {
      var found := QueryResults(index, expanded[qi], filter, p, fuzz);
      assert expanded[..qi + 1][..qi] == expanded[..qi];
      assert Collected(expanded[..qi + 1], index, filter, fuzz, p) == results + found;
      results := results + found;
      qi := qi + 1;
    }
    assert expanded[..qi] == expanded;
  }

  /** The inner loop of `search_terms` for one query: each index row in turn. */
  method QueryResults(index: seq<IndexRow>, q: string, filter: Option<CodeSystem>, p: Patient, fuzz: Scorer)
    returns (found: seq<SearchResult>)
    ensures found == RowsResults(q, index, filter, fuzz, p)
  {
    found := [];
    var ri := 0;
    while ri < |index|
      invariant 0 <= ri <= |index|
      invariant found == RowsResults(q, index[..ri], filter, fuzz, p)
    {
      RowsResultsSnoc(q, index, ri, filter, fuzz, p);
      var contribution := ScoreRow(index[ri], q, filter, p, fuzz);
      found := found + contribution;
      ri := ri + 1;
    }
    assert index[..ri] == index;
  }

  /** The body of that loop for one row: skipped when outside the filter, else scored,
      boosted, and kept when the score exceeds the threshold. */
  method ScoreRow(item: IndexRow, q: string, filter: Option<CodeSystem>, p: Patient, fuzz: Scorer)
    returns (contribution: seq<SearchResult>)
    ensures contribution == RowContribution(q, item, filter, fuzz, p)
    ensures contribution != [] <==> Admits(filter, item) && RowScore(q, item, fuzz, p) > Threshold
    ensures contribution != [] ==> contribution == [ToResult(item, RowScore(q, item, fuzz, p))]
  {
    contribution := [];
    if filter.Some? && item.system != filter.value {
      return;
    }
    var score := BaseScore(q, item, fuzz);
    score := ApplyContextBoosting(score, item, p);
    if score > Threshold {
      contribution := [ToResult(item, score)];
    }
  }

  /** The `seen` loop of `search_terms`: a result is kept when its id is not yet in
      `seen`. */
  method DedupSeen(results: seq<SearchResult>) returns (unique: seq<SearchResult>)
    ensures unique == DedupById(results)
  {
    var seen: set<string> := {};
    unique := [];
    var i := 0;
    while i < |results|
      invariant 0 <= i <= |results|
      invariant unique == DedupById(results[..i])
      invariant seen == IdsOf(unique)
    {
      var result := results[i];
      assert results[..i + 1][..i] == results[..i];
      if result.id !in seen {
        IdsOfSnoc(unique, result);
        seen := seen + {result.id};
        unique := unique + [result];
      }
      i := i + 1;
    }
    assert results[..i] == results;
  }

  /** What `import_namaste_csv` reports. */
  datatype ImportOutcome =
    | Imported(importedCount: nat, newVersion: string)
    | ImportFailed(error: CsvParser.ParseError)

  /** A record's mappings reach its search results: a NAMASTE result carries the
      record's TM2 and biomedical codes, a TM2 result its biomedical code only, and a
      biomedical result none. */
  lemma RecordMappingReachesResult(item: TermRecord, system: CodeSystem, score: real)
    ensures var r := ToResult(RowOf(item, system), score);
      && (system == Namaste ==> r.mappedTm2 == item.tm2Code && r.mappedBio == item.bioCode)
      && (system == Icd11Tm2 ==> r.mappedTm2 == "" && r.mappedBio == item.bioCode)
      && (system == Icd11Bio ==> r.mappedTm2 == "" && r.mappedBio == "")
  {
  }

  /** A query held in one of a NAMASTE record's synonyms is an exact match for its
      row, whatever the display says, so the row's base score is 1.0. */
  lemma SynonymMatchScoresOne(item: TermRecord, q: string, k: nat, fuzz: Scorer)
    requires k < |item.synonyms| && Contains(Lower(item.synonyms[k]), Lower(q))
    ensures BaseScore(q, RowOf(item, Namaste), fuzz) == 1.0
  {
    InSomePhraseAt(Lower(q), RowOf(item, Namaste).synonyms, k);
  }

  class TerminologyService {
    var versions: seq<TerminologyVersion>
    var namasteData: seq<TermRecord>
    var tm2Data: seq<TermRecord>
    var bioData: seq<TermRecord>
    var lookups: Lookups
    var searchIndex: seq<IndexRow>

    /** The dictionaries and the search index are those of the current lists. */
    predicate Indexed()
      reads this
    {
      && lookups == LookupsOf(namasteData, tm2Data, bioData)
      && searchIndex == SearchIndexOf(namasteData, tm2Data, bioData)
    }

    /** The service invariant: indexes in step with the lists; at least one version,
        the i-th labelled "1.0.i"; every NAMASTE record stamped with one of those
        labels, every ICD-11 record with the fixed release label. */
    predicate Valid()
      reads this
    {
      && Indexed()
      && |versions| >= 1
      && Labelled(versions)
      && StampedWithin(namasteData, |versions|)
      && (forall k :: 0 <= k < |tm2Data| ==> tm2Data[k].version == "2024-01")
      && (forall k :: 0 <= k < |bioData| ==> bioData[k].version == "2024-01")
    }

    /** `__init__`, given the three initial lists (the demo data or the WHO fetch).
        `started` is the first version's timestamp and `now` the stamping time. */
    constructor (namaste: seq<TermRecord>, tm2: seq<TermRecord>, bio: seq<TermRecord>, started: string, now: string)
      ensures Valid()
      ensures versions == [TerminologyVersion("1.0.0", started, ["NAMASTE", "ICD11_TM2", "ICD11_BIO"],
                                              "Initial version with demo data")]
      ensures namasteData == Restamp(namaste, "1.0.0", started, now)
      ensures tm2Data == Restamp(tm2, "2024-01", "2024-01-01", now)
      ensures bioData == Restamp(bio, "2024-01", "2024-01-01", now)
    {
      versions := [TerminologyVersion("1.0.0", started, ["NAMASTE", "ICD11_TM2", "ICD11_BIO"],
                                      "Initial version with demo data")];
      namasteData := namaste;
      tm2Data := tm2;
      bioData := bio;
      new;
      AddVersionMetadata(now);
      RebuildIndexes();
      assert VersionLabel(0) == "1.0.0";
      assert forall k :: 0 <= k < |namasteData| ==> namasteData[k].version == VersionLabel(0);
    }

    /** `_add_version_metadata`: every NAMASTE record is stamped with the FIRST
        version, whatever versions came later; every ICD-11 record with the fixed
        release label and date. */
    method AddVersionMetadata(now: string)
      requires |versions| >= 1
      modifies this
      ensures versions == old(versions)
      ensures namasteData == Restamp(old(namasteData), versions[0].version, versions[0].effectiveDate, now)
      ensures tm2Data == Restamp(old(tm2Data), "2024-01", "2024-01-01", now)
      ensures bioData == Restamp(old(bioData), "2024-01", "2024-01-01", now)
    {
      var current := versions[0];
      namasteData := StampAll(namasteData, current.version, current.effectiveDate, now);
      tm2Data := StampAll(tm2Data, "2024-01", "2024-01-01", now);
      bioData := StampAll(bioData, "2024-01", "2024-01-01", now);
    }

    /** `_rebuild_indexes`. */
    method RebuildIndexes()
      modifies this
      ensures Indexed()
      ensures versions == old(versions)
      ensures namasteData == old(namasteData) && tm2Data == old(tm2Data) && bioData == old(bioData)
    {
      lookups := LookupsOf(namasteData, tm2Data, bioData);
      searchIndex := CreateSearchIndex(namasteData, tm2Data, bioData);
    }

    /** `import_namaste_csv`. When a row cannot be shaped nothing changes. Otherwise
        exactly one version "1.0.<old count>" is appended, the new records, stamped
        with it, follow the existing ones, and the indexes are rebuilt. */
    method ImportNamasteCsv(rows: seq<CsvParser.Row>, readNumber: CsvParser.NumberReader, now: string)
      returns (r: ImportOutcome)
      requires Valid()
      modifies this
      ensures Valid()
      ensures r.Imported? <==> forall j :: 0 <= j < |rows| ==> CsvParser.ShapeRow(rows[j], readNumber, now).Ok?
      ensures r.ImportFailed? ==>
        && (exists j :: 0 <= j < |rows| && CsvParser.ShapeRow(rows[j], readNumber, now) == Err(r.error))
        && versions == old(versions)
        && namasteData == old(namasteData) && tm2Data == old(tm2Data) && bioData == old(bioData)
      ensures r.Imported? ==>
        && r.importedCount == |rows|
        && r.newVersion == VersionLabel(|old(versions)|)
        && versions == old(versions) + [TerminologyVersion(r.newVersion, now, ["NAMASTE"], "Imported from CSV")]
        && ImportedInto(rows, readNumber, now, old(namasteData), r.newVersion, namasteData)
        && tm2Data == old(tm2Data) && bioData == old(bioData)
    {
      var parsed := CsvParser.ParseNamasteCsv(rows, readNumber, now);
      if parsed.Err? {
        return ImportFailed(parsed.error);
      }
      var newLabel := VersionLabel(|versions|);
      var newVersion := TerminologyVersion(newLabel, now, ["NAMASTE"], "Imported from CSV");
      ImportedRecords(rows, readNumber, now, namasteData, parsed.value, |versions|);
      LabelledAppend(versions, newVersion);
      var stamped := StampAll(parsed.value, newLabel, now, now);
      AddRelease(newVersion, stamped);
      r := Imported(|parsed.value|, newLabel);
    }

    /** The tail of `import_namaste_csv`: the version is appended, the records extend
        the NAMASTE list and the indexes are rebuilt. */
    method AddRelease(v: TerminologyVersion, added: seq<TermRecord>)
      requires Valid()
      requires Labelled(versions + [v]) && StampedWithin(namasteData + added, |versions| + 1)
      modifies this
      ensures Valid()
      ensures versions == old(versions) + [v]
      ensures namasteData == old(namasteData) + added && tm2Data == old(tm2Data) && bioData == old(bioData)
    {
      versions := versions + [v];
      namasteData := namasteData + added;
      RebuildIndexes();
    }

    /** `search_terms`: abbreviation mapping, synonym expansion, every admitted row
        scored against every expanded query, the `seen` de-duplication, the stable
        descending sort and the `limit` cut. */
    method SearchTerms(query: string, filter: Option<CodeSystem>, p: Patient, fuzz: Scorer, limit: nat)
      returns (r: seq<SearchResult>)
      ensures r == SearchSpec(searchIndex, query, filter, p, fuzz, limit)
      ensures |r| <= limit && DistinctIds(r) && Descending(r)
      ensures forall k :: 0 <= k < |r| ==> FromIndex(r[k], searchIndex, filter)
      ensures forall q, row ::
        (&& q in ExpandedList(MapAbbreviations(query)) && row in searchIndex
         && Admits(filter, row) && RowScore(q, row, fuzz, p) > Threshold
         && |DedupById(Collected(ExpandedList(MapAbbreviations(query)), searchIndex, filter, fuzz, p))| <= limit)
        ==> row.id in IdsOf(r)
    {
      var processed := MapAbbreviations(query);
      var expanded := ExpandSynonyms(processed);
      var results := CollectResults(searchIndex, expanded, filter, p, fuzz);
      var unique := DedupSeen(results);
      var sorted := SortByScore(unique);
      r := Take(sorted, limit);
      SearchOutput(searchIndex, query, filter, p, fuzz, limit);
      forall q, row | q in ExpandedList(MapAbbreviations(query)) && row in searchIndex
        && Admits(filter, row) && RowScore(q, row, fuzz, p) > Threshold
        && |DedupById(Collected(ExpandedList(MapAbbreviations(query)), searchIndex, filter, fuzz, p))| <= limit
        ensures row.id in IdsOf(r)
      {
        SearchFinds(searchIndex, query, filter, p, fuzz, limit, q, row);
      }
    }

    /** `translate_code`: the source record by code or id, then the path for the pair;
        no source record or no target code gives `None`. */
    method TranslateCode(code: string, source: CodeSystem, target: CodeSystem)
      returns (r: Option<TranslateResponse>)
      requires Valid()
      ensures r == Translate(namasteData, tm2Data, bioData, versions, code, source, target)
    {
      var sourceItem := GetCodeDetails(code, source);
      if sourceItem.None? {
        return None;
      }
      var src := sourceItem.value;
      var hit := FindTarget(src, code, source, target);
      if hit.None? {
        return None;
      }
      r := Some(TranslateResponse(code, src.display, hit.value.code, hit.value.display, hit.value.confidence,
                                  src.version, TargetVersion(versions, target)));
    }

    /** The four paths of `translate_code`; an empty target code counts as none. */
    method FindTarget(src: TermRecord, code: string, source: CodeSystem, target: CodeSystem)
      returns (hit: Option<Hit>)
      requires Indexed()
      ensures hit == TargetOf(src, code, source, target, namasteData, tm2Data, bioData)
    {
      hit := None;
      if source == Namaste && target == Icd11Tm2 {
        var targetCode := src.tm2Code;
        if targetCode != "" {
          var targetDisplay := if targetCode in lookups.tm2ByCode then lookups.tm2ByCode[targetCode].display else "";
          hit := Some(Hit(targetCode, targetDisplay, src.mappingConfidence.GetOr(0.8)));
        }
      } else if source == Namaste && target == Icd11Bio {
        var targetCode := src.bioCode;
        if targetCode != "" {
          var targetDisplay := if targetCode in lookups.bioByCode then lookups.bioByCode[targetCode].display else "";
          hit := Some(Hit(targetCode, targetDisplay, src.mappingConfidence.GetOr(0.8) * 0.9));
        }
      } else if source == Icd11Tm2 && target == Icd11Bio {
        var targetCode := src.bioCode;
        if targetCode != "" {
          var targetDisplay := if targetCode in lookups.bioByCode then lookups.bioByCode[targetCode].display else "";
          hit := Some(Hit(targetCode, targetDisplay, 0.85));
        }
      } else if source == Icd11Tm2 && target == Namaste {
        hit := ReverseScan(code);
      }
    }

    /** The reverse path's scan: the first NAMASTE record whose TM2 mapping equals the
        input string; the scan stops there. */
    method ReverseScan(code: string) returns (hit: Option<Hit>)
      ensures hit == ReverseHit(namasteData, code)
    {
      hit := None;
      var i := 0;
      while i < |namasteData|
        invariant 0 <= i <= |namasteData|
        invariant forall k :: 0 <= k < i ==> namasteData[k].tm2Code != code
      {
        var item := namasteData[i];
        if item.tm2Code == code {
          assert FirstMappedTo(namasteData, code) == Some(i);
          if item.code != "" {
            hit := Some(Hit(item.code, item.display, item.mappingConfidence.GetOr(0.8) * 0.9));
          }
          return;
        }
        i := i + 1;
      }
    }

    /** `get_code_details`: the record of `system` with that code, else with that id. */
    function GetCodeDetails(code: string, system: CodeSystem): (r: Option<TermRecord>)
      reads this
      requires Valid()
      ensures r == Lookup(ListOf(system, namasteData, tm2Data, bioData), code)
      ensures r.Some? ==> r.value in ListOf(system, namasteData, tm2Data, bioData)
      ensures r.Some? ==> r.value.code == code || r.value.id == code
    {
      LookupFinds(ListOf(system, namasteData, tm2Data, bioData), code);
      match system
      case Namaste => CodeOrId(lookups.namasteByCode, lookups.namasteById, code)
      case Icd11Tm2 => CodeOrId(lookups.tm2ByCode, lookups.tm2ById, code)
      case Icd11Bio => CodeOrId(lookups.bioByCode, lookups.bioById, code)
    }
  }
}
