/**
 * The derived lookup structures of `TerminologyService` (`app/services/terminology.py`):
 * the by-code and by-id dictionaries that `_rebuild_indexes` builds for each record
 * list, the code-or-id lookup of `get_code_details` and `translate_code`, and the
 * unified `search_index` of `_create_search_index`.
 */
module Indexing {
  import opened Wrappers
  import opened Strings
  import opened Records

  /** The field a dictionary is keyed by. */
  datatype RecordKey = ByCode | ById

  function KeyOf(r: TermRecord, k: RecordKey): string
  {
    match k
    case ByCode => r.code
    case ById => r.id
  }

  /** `{key(item): item for item in items}`: a later item overwrites an earlier one
      with the same key. */
  function Keyed(items: seq<TermRecord>, k: RecordKey): map<string, TermRecord>
    decreases |items|
  {
    if items == [] then map[]
    else
      var last := items[|items| - 1];
      Keyed(items[..|items| - 1], k)[KeyOf(last, k) := last]
  }

  /** The dictionary holds exactly the keys of the items, each mapped to an item with
      that key. */
  lemma {:induction false} KeyedDomain(items: seq<TermRecord>, k: RecordKey, key: string)
    ensures key in Keyed(items, k) <==> exists i :: 0 <= i < |items| && KeyOf(items[i], k) == key
    ensures key in Keyed(items, k) ==> Keyed(items, k)[key] in items && KeyOf(Keyed(items, k)[key], k) == key
    decreases |items|
  {
    if items != [] {
      var init := items[..|items| - 1];
      KeyedDomain(init, k, key);
      assert forall i :: 0 <= i < |init| ==> init[i] == items[i];
    }
  }

  /** Later duplicates win: the item stored under a key is the last one carrying it. */
  lemma {:induction false} KeyedLastWins(items: seq<TermRecord>, k: RecordKey, i: nat)
    requires i < |items|
    requires forall j :: i < j < |items| ==> KeyOf(items[j], k) != KeyOf(items[i], k)
    ensures KeyOf(items[i], k) in Keyed(items, k)
    ensures Keyed(items, k)[KeyOf(items[i], k)] == items[i]
    decreases |items|
  {
    if i < |items| - 1 {
      var init := items[..|items| - 1];
      assert init[i] == items[i];
      KeyedLastWins(init, k, i);
    }
  }

  /** `by_code.get(code) or by_id.get(code)`: a code match is preferred to an id match. */
  function CodeOrId(byCode: map<string, TermRecord>, byId: map<string, TermRecord>, code: string)
    : Option<TermRecord>
  {
    if code in byCode then Some(byCode[code])
    else if code in byId then Some(byId[code])
    else None
  }

  /** The lookup over the dictionaries of a record list. */
  function Lookup(items: seq<TermRecord>, code: string): Option<TermRecord>
  {
    CodeOrId(Keyed(items, ByCode), Keyed(items, ById), code)
  }

  /** A lookup succeeds exactly when some record has the code or the id, returns a
      record of the list, and prefers a record whose code matches. */
  lemma LookupFinds(items: seq<TermRecord>, code: string)
    ensures Lookup(items, code).Some? <==>
      exists i :: 0 <= i < |items| && (items[i].code == code || items[i].id == code)
    ensures Lookup(items, code).Some? ==>
      && Lookup(items, code).value in items
      && (Lookup(items, code).value.code == code || Lookup(items, code).value.id == code)
    ensures (exists i :: 0 <= i < |items| && items[i].code == code) ==>
      Lookup(items, code).Some? && Lookup(items, code).value.code == code
  {
    KeyedDomain(items, ByCode, code);
    KeyedDomain(items, ById, code);
  }

  /** The `search_index` row of a NAMASTE record. */
  function NamasteRow(item: TermRecord): IndexRow
  {
    IndexRow(
      id := item.id,
      code := item.code,
      display := item.display,
      definition := item.definition,
      system := Namaste,
      synonyms := item.synonyms,
      dosha := item.dosha,
      category := item.category,
      parentCode := "",
      mappedTm2 := item.tm2Code,
      mappedBio := item.bioCode,
      searchText := Join([item.display, Join(item.synonyms, " "), item.definition, item.dosha, item.category], " "),
      version := item.version,
      effectiveDate := item.effectiveDate)
  }

  /** The row of an ICD-11 TM2 record: no synonyms and no TM2 mapping, but its parent
      code and biomedical mapping. */
  function Tm2Row(item: TermRecord): IndexRow
  {
    IndexRow(
      id := item.id,
      code := item.code,
      display := item.display,
      definition := item.definition,
      system := Icd11Tm2,
      synonyms := [],
      dosha := "",
      category := item.category,
      parentCode := item.parentCode,
      mappedTm2 := "",
      mappedBio := item.bioCode,
      searchText := Join([item.display, item.definition, item.category], " "),
      version := item.version,
      effectiveDate := item.effectiveDate)
  }

  /** The row of an ICD-11 biomedical record: no synonyms and no mappings. */
  function BioRow(item: TermRecord): IndexRow
  {
    IndexRow(
      id := item.id,
      code := item.code,
      display := item.display,
      definition := item.definition,
      system := Icd11Bio,
      synonyms := [],
      dosha := "",
      category := item.category,
      parentCode := "",
      mappedTm2 := "",
      mappedBio := "",
      searchText := Join([item.display, item.definition, item.category], " "),
      version := item.version,
      effectiveDate := item.effectiveDate)
  }

  /** The row of a record held in the list of `system`. */
  function RowOf(item: TermRecord, system: CodeSystem): (row: IndexRow)
    ensures row.id == item.id && row.code == item.code && row.display == item.display
    ensures row.definition == item.definition && row.version == item.version
    ensures row.system == system
    ensures row.mappedTm2 != "" ==> system == Namaste
    ensures row.mappedBio != "" ==> system != Icd11Bio
    ensures row.category == item.category && row.effectiveDate == item.effectiveDate
    ensures system == Namaste ==>
      && row.synonyms == item.synonyms && row.dosha == item.dosha
      && row.mappedTm2 == item.tm2Code && row.mappedBio == item.bioCode && row.parentCode == ""
    ensures system == Icd11Tm2 ==> row.mappedBio == item.bioCode && row.parentCode == item.parentCode
    ensures system != Namaste ==> row.synonyms == [] && row.dosha == "" && row.mappedTm2 == ""
    ensures system == Icd11Bio ==> row.mappedBio == "" && row.parentCode == ""
  {
    match system
    case Namaste => NamasteRow(item)
    case Icd11Tm2 => Tm2Row(item)
    case Icd11Bio => BioRow(item)
  }

  /** The rows of one record list, appended in list order. */
  function RowsOf(items: seq<TermRecord>, system: CodeSystem): (rows: seq<IndexRow>)
    ensures |rows| == |items|
    decreases |items|
  {
    if items == [] then [] else RowsOf(items[..|items| - 1], system) + [RowOf(items[|items| - 1], system)]
  }

  /** Extending the records by the next one extends the rows by its row. */
  lemma RowsOfSnoc(items: seq<TermRecord>, i: nat, system: CodeSystem)
    requires i < |items|
    ensures RowsOf(items[..i + 1], system) == RowsOf(items[..i], system) + [RowOf(items[i], system)]
  {
    assert items[..i + 1][..i] == items[..i];
  }

  /** The k-th row of a list's rows is the row of its k-th record. */
  lemma {:induction false} RowsOfAt(items: seq<TermRecord>, system: CodeSystem)
    ensures forall k :: 0 <= k < |items| ==> RowsOf(items, system)[k] == RowOf(items[k], system)
    decreases |items|
  {
    if items != [] {
      var init := items[..|items| - 1];
      RowsOfAt(init, system);
      assert forall k :: 0 <= k < |init| ==> init[k] == items[k];
    }
  }

  /** `_create_search_index`: the NAMASTE rows, then the TM2 rows, then the
      biomedical rows, each list in its own order. */
  function SearchIndexOf(namaste: seq<TermRecord>, tm2: seq<TermRecord>, bio: seq<TermRecord>): seq<IndexRow>
  {
    RowsOf(namaste, Namaste) + RowsOf(tm2, Icd11Tm2) + RowsOf(bio, Icd11Bio)
  }

  /** The position of a system in the index. */
  function Rank(s: CodeSystem): nat
  {
    match s
    case Namaste => 0
    case Icd11Tm2 => 1
    case Icd11Bio => 2
  }

  /** One row per record, and the rows grouped by system in the order NAMASTE, TM2,
      biomedical; the k-th row of a group is the k-th record of its list. */
  lemma SearchIndexLayout(namaste: seq<TermRecord>, tm2: seq<TermRecord>, bio: seq<TermRecord>)
    ensures var index := SearchIndexOf(namaste, tm2, bio);
      && |index| == |namaste| + |tm2| + |bio|
      && (forall i, j :: 0 <= i < j < |index| ==> Rank(index[i].system) <= Rank(index[j].system))
      && (forall i :: 0 <= i < |namaste| ==> index[i].id == namaste[i].id && index[i].system == Namaste)
      && (forall i :: 0 <= i < |tm2| ==>
            index[|namaste| + i].id == tm2[i].id && index[|namaste| + i].system == Icd11Tm2)
      && (forall i :: 0 <= i < |bio| ==>
            index[|namaste| + |tm2| + i].id == bio[i].id && index[|namaste| + |tm2| + i].system == Icd11Bio)
  {
    var index := SearchIndexOf(namaste, tm2, bio);
    var n, t := |namaste|, |tm2|;
    RowsOfAt(namaste, Namaste);
    RowsOfAt(tm2, Icd11Tm2);
    RowsOfAt(bio, Icd11Bio);
    forall i | 0 <= i < |index|
      ensures index[i].system == (if i < n then Namaste else if i < n + t then Icd11Tm2 else Icd11Bio)
    {
    }
  }

  /** A NAMASTE row's search text mentions its display, every synonym, its definition,
      its dosha and its tradition; the text is these five joined by single spaces,
      the synonyms themselves joined by spaces. */
  lemma NamasteSearchTextMentions(item: TermRecord)
    ensures var text := NamasteRow(item).searchText;
      && Contains(text, item.display)
      && (forall k :: 0 <= k < |item.synonyms| ==> Contains(text, item.synonyms[k]))
      && Contains(text, item.definition) && Contains(text, item.dosha) && Contains(text, item.category)
  {
    var parts := [item.display, Join(item.synonyms, " "), item.definition, item.dosha, item.category];
    var text := NamasteRow(item).searchText;
    JoinHoldsParts(parts, " ", 0);
    JoinHoldsParts(parts, " ", 1);
    JoinHoldsParts(parts, " ", 2);
    JoinHoldsParts(parts, " ", 3);
    JoinHoldsParts(parts, " ", 4);
    forall k | 0 <= k < |item.synonyms|
      ensures Contains(text, item.synonyms[k])
    {
      JoinHoldsParts(item.synonyms, " ", k);
      ContainsTransitive(text, parts[1], item.synonyms[k]);
    }
  }

  /** An ICD-11 row's search text mentions its display, definition and category. */
  lemma IcdSearchTextMentions(item: TermRecord, system: CodeSystem)
    requires system != Namaste
    ensures var text := RowOf(item, system).searchText;
      Contains(text, item.display) && Contains(text, item.definition) && Contains(text, item.category)
  {
    var parts := [item.display, item.definition, item.category];
    JoinHoldsParts(parts, " ", 0);
    JoinHoldsParts(parts, " ", 1);
    JoinHoldsParts(parts, " ", 2);
  }
}
