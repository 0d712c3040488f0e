/**
 * `CSVProcessor` of `app/data/csv_parser.py`: shaping the rows of a NAMASTE CSV
 * export into term records, and the optional automatic ICD-11 mapping pass.
 * Rows arrive already split into column-name/value maps; the reading of CSV text
 * (quoting, delimiters) is not part of this model.
 */
module CsvParser {
  import opened Wrappers
  import opened Strings
  import opened Records

  /** One CSV row: column name to value. A column missing from the map is absent. */
  type Row = map<string, string>

  /** Why `parse_namaste_csv` raises: a required column is missing (`KeyError`), or the
      confidence column does not read as a number (`ValueError` from `float`). */
  datatype ParseError = MissingColumn(column: string) | InvalidNumber(text: string)

  /** `float(text)`, supplied by the caller: `None` when `text` is not a number. */
  type NumberReader = string -> Option<real>

  /** `row.get(name, default)`. */
  function Column(row: Row, name: string, default: string): string
  {
    if name in row then row[name] else default
  }

  /** `float(row.get('mapping_confidence', 0.8))`. */
  function Confidence(row: Row, readNumber: NumberReader): (r: Result<real, ParseError>)
    ensures "mapping_confidence" !in row ==> r == Ok(0.8)
    ensures "mapping_confidence" in row ==>
      && (r.Ok? <==> readNumber(row["mapping_confidence"]).Some?)
      && (r.Ok? ==> Some(r.value) == readNumber(row["mapping_confidence"]))
      && (r.Err? ==> r.error == InvalidNumber(row["mapping_confidence"]))
  {
    if "mapping_confidence" !in row then Ok(0.8)
    else match readNumber(row["mapping_confidence"])
      case Some(v) => Ok(v)
      case None => Err(InvalidNumber(row["mapping_confidence"]))
  }

  /** The dictionary built for one row of `parse_namaste_csv`, with `now` standing for
      `datetime.now().isoformat()`. Lookups happen in the order the source evaluates
      them, so a missing `code` is reported before a missing `display_name`. */
  function ShapeRow(row: Row, readNumber: NumberReader, now: string): (r: Result<TermRecord, ParseError>)
    ensures r.Ok? <==> "code" in row && "display_name" in row && Confidence(row, readNumber).Ok?
    ensures "code" !in row ==> r == Err(MissingColumn("code"))
    ensures "code" in row && "display_name" !in row ==> r == Err(MissingColumn("display_name"))
    ensures "code" in row && "display_name" in row && Confidence(row, readNumber).Err? ==>
      r == Err(Confidence(row, readNumber).error)
    ensures r.Ok? ==>
      && r.value.code == row["code"]
      && r.value.id == "NAMASTE_" + r.value.code
      && r.value.display == row["display_name"]
      && r.value.system == Namaste
      && r.value.mappingConfidence == Some(Confidence(row, readNumber).value)
      && r.value.version == "1.0.0"
      && r.value.effectiveDate == now
    ensures r.Ok? ==>
      && r.value.definition == Column(row, "definition", "")
      && r.value.dosha == Column(row, "dosha", "")
      && r.value.category == Column(row, "system", "")
      && r.value.tm2Code == Column(row, "icd11_tm2_code", "")
      && r.value.bioCode == Column(row, "icd11_bio_code", "")
    ensures r.Ok? ==> (r.value.mappingSource == "manual" <==> r.value.tm2Code != "")
    ensures r.Ok? ==> (r.value.mappingSource == "unmapped" <==> r.value.tm2Code == "")
  {
    if "code" !in row then Err(MissingColumn("code"))
    else if "display_name" !in row then Err(MissingColumn("display_name"))
    else match Confidence(row, readNumber)
      case Err(e) => Err(e)
      case Ok(confidence) =>
        var synonyms := Column(row, "synonyms", "");
        var tm2 := Column(row, "icd11_tm2_code", "");
        Ok(TermRecord(
          id := "NAMASTE_" + row["code"],
          code := row["code"],
          display := row["display_name"],
          definition := Column(row, "definition", ""),
          synonyms := if synonyms != "" then Split(synonyms, ';') else [],
          system := Namaste,
          dosha := Column(row, "dosha", ""),
          category := Column(row, "system", ""),
          parentCode := "",
          tm2Code := tm2,
          bioCode := Column(row, "icd11_bio_code", ""),
          mappingConfidence := Some(confidence),
          mappingSource := if tm2 != "" then "manual" else "unmapped",
          version := "1.0.0",
          effectiveDate := now,
          lastUpdated := ""))
  }

  /** The synonyms column is split on ';' when non-empty, else there are none: the
      pieces join back to the column, and none of them holds a ';'. */
  lemma ShapedSynonyms(row: Row, readNumber: NumberReader, now: string)
    requires ShapeRow(row, readNumber, now).Ok?
    ensures var rec := ShapeRow(row, readNumber, now).value;
      && (Column(row, "synonyms", "") == "" ==> rec.synonyms == [])
      && (Column(row, "synonyms", "") != "" ==>
            && Join(rec.synonyms, ";") == row["synonyms"]
            && forall k :: 0 <= k < |rec.synonyms| ==> ';' !in rec.synonyms[k])
  {
    if Column(row, "synonyms", "") != "" {
      SplitJoin(row["synonyms"], ';');
      SplitPiecesFree(row["synonyms"], ';');
    }
  }

  /** `parse_namaste_csv`: one record per row, in row order, or the error of the first
      row that cannot be shaped. */
  method ParseNamasteCsv(rows: seq<Row>, readNumber: NumberReader, now: string)
    returns (r: Result<seq<TermRecord>, ParseError>)
    ensures r.Ok? <==> forall j :: 0 <= j < |rows| ==> ShapeRow(rows[j], readNumber, now).Ok?
    ensures r.Ok? ==>
      && |r.value| == |rows|
      && forall j :: 0 <= j < |rows| ==> ShapeRow(rows[j], readNumber, now) == Ok(r.value[j])
    ensures r.Err? ==>
      exists j :: 0 <= j < |rows| && ShapeRow(rows[j], readNumber, now) == Err(r.error)
        && forall k :: 0 <= k < j ==> ShapeRow(rows[k], readNumber, now).Ok?
  {
    var data: seq<TermRecord> := [];
    var i := 0;
    while i < |rows|
      invariant 0 <= i <= |rows|
      invariant |data| == i
      invariant forall j :: 0 <= j < i ==> ShapeRow(rows[j], readNumber, now) == Ok(data[j])
    {
      var shaped := ShapeRow(rows[i], readNumber, now);
      if shaped.Err? {
        return Err(shaped.error);
      }
      data := data + [shaped.value];
      i := i + 1;
    }
    return Ok(data);
  }

  /** What the automatic mapper proposes for an unmapped record. */
  datatype MappingSuggestion = MappingSuggestion(code: string, confidence: real)

  /** `auto_map_namaste_to_icd(code, display)` reduced to its suggested TM2 mapping;
      `None` when there is none or the call raises. */
  type AutoMapper = (string, string) -> Option<MappingSuggestion>

  /** One step of the mapping pass: a record with no TM2 code takes the suggestion. */
  function EnhanceRecord(item: TermRecord, mapper: AutoMapper): (r: TermRecord)
    ensures r.id == item.id && r.code == item.code && r.display == item.display
    ensures item.tm2Code != "" ==> r == item
    ensures r != item ==> r.mappingSource == "who_api_auto"
    ensures mapper(item.code, item.display).None? ==> r == item
    ensures item.tm2Code == "" && mapper(item.code, item.display).Some? ==>
      var s := mapper(item.code, item.display).value;
      && r.tm2Code == s.code && r.mappingConfidence == Some(s.confidence) && r.mappingSource == "who_api_auto"
      && r.(tm2Code := item.tm2Code, mappingConfidence := item.mappingConfidence,
            mappingSource := item.mappingSource) == item
  {
    if item.tm2Code != "" then item
    else match mapper(item.code, item.display)
      case None => item
      case Some(s) =>
        item.(tm2Code := s.code, mappingConfidence := Some(s.confidence), mappingSource := "who_api_auto")
  }

  /** The pass maps a record: it has no TM2 code and the mapper suggests one. */
  predicate Maps(item: TermRecord, mapper: AutoMapper)
  {
    item.tm2Code == "" && mapper(item.code, item.display).Some?
  }

  /** The number of records the pass maps. */
  function MappedCount(data: seq<TermRecord>, mapper: AutoMapper): (n: nat)
    ensures n <= |data|
  {
    if data == [] then 0
    else (if Maps(data[0], mapper) then 1 else 0) + MappedCount(data[1..], mapper)
  }

  /** The count is zero exactly when the pass maps no record, and the length of the
      list exactly when it maps every record. */
  lemma {:induction false} MappedCountExtremes(data: seq<TermRecord>, mapper: AutoMapper)
    ensures MappedCount(data, mapper) == 0 <==> forall i :: 0 <= i < |data| ==> !Maps(data[i], mapper)
    ensures MappedCount(data, mapper) == |data| <==> forall i :: 0 <= i < |data| ==> Maps(data[i], mapper)
    decreases |data|
  {
    if data != [] {
      var rest := data[1..];
      MappedCountExtremes(rest, mapper);
      assert forall i :: 1 <= i < |data| ==> data[i] == rest[i - 1];
      assert forall i :: 0 <= i < |rest| ==> rest[i] == data[i + 1];
    }
  }

  /** Counting from position `i` counts that record, then the rest. */
  lemma MappedCountStep(data: seq<TermRecord>, mapper: AutoMapper, i: nat)
    requires i < |data|
    ensures MappedCount(data[i..], mapper) == (if Maps(data[i], mapper) then 1 else 0) + MappedCount(data[i + 1..], mapper)
  {
    assert data[i..][0] == data[i] && data[i..][1..] == data[i + 1..];
  }

  /** The body of the mapping loop for one record: only an unmapped record is offered
      to the mapper, and a suggestion is copied in and counted. */
  method EnhanceOne(item: TermRecord, mapper: AutoMapper) returns (enhanced: TermRecord, mapped: bool)
    ensures enhanced == EnhanceRecord(item, mapper)
    ensures mapped <==> Maps(item, mapper)
  {
    enhanced := item;
    mapped := false;
    if item.tm2Code == "" {
      var suggestion := mapper(item.code, item.display);
      if suggestion.Some? {
        enhanced := item.(tm2Code := suggestion.value.code,
                          mappingConfidence := Some(suggestion.value.confidence),
                          mappingSource := "who_api_auto");
        mapped := true;
      }
    }
  }

  /** `enhance_with_who_mappings`: without an API client, the input comes back
      unchanged; with one, every unmapped record is offered to the mapper. */
  method EnhanceWithWhoMappings(data: seq<TermRecord>, api: Option<AutoMapper>)
    returns (r: seq<TermRecord>, mappedCount: nat)
    ensures api.None? ==> r == data && mappedCount == 0
    ensures |r| == |data|
    ensures forall i :: 0 <= i < |data| && data[i].tm2Code != "" ==> r[i] == data[i]
    ensures api.Some? ==>
      && mappedCount == MappedCount(data, api.value)
      && forall i :: 0 <= i < |data| ==> r[i] == EnhanceRecord(data[i], api.value)
  {
    if api.None? {
      return data, 0;
    }
    var mapper := api.value;
    r := [];
    mappedCount := 0;
    var i := 0;
    while i < |data|
      invariant 0 <= i <= |data|
      invariant |r| == i
      invariant forall j :: 0 <= j < i ==> r[j] == EnhanceRecord(data[j], mapper)
      invariant mappedCount + MappedCount(data[i..], mapper) == MappedCount(data, mapper)
    {
      var item, mapped := EnhanceOne(data[i], mapper);
      MappedCountStep(data, mapper, i);
      if mapped {
        mappedCount := mappedCount + 1;
      }
      r := r + [item];
      i := i + 1;
    }
  }
}
