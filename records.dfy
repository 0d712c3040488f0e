/**
 * The records the terminology engine passes around: the code-system enumeration
 * and the result shapes of `app/schemas.py`, and the term record that the source
 * keeps as a plain dictionary, made into one tagged record with a `system` field.
 */
module Records {
  import opened Wrappers

  /** `CodeSystemType`. */
  datatype CodeSystem = Namaste | Icd11Tm2 | Icd11Bio
  {
    /** The enumeration's string value (`CodeSystemType.X.value`). */
    function Value(): string
    {
      match this
      case Namaste => "namaste"
      case Icd11Tm2 => "icd11_tm2"
      case Icd11Bio => "icd11_bio"
    }
  }

  /**
   * One entry of `namaste_data`, `icd11_tm2_data` or `icd11_bio_data`.
   * Optional text fields hold "" when the dictionary has no such key. The source
   * mostly tests them for truthiness, where the two agree; the reverse translation
   * scan compares `icd11_tm2_code` with `==`, where they do not. `category` is the dictionary's `"system"` key
   * for a NAMASTE record (the medical tradition) and its `"category"` key for an
   * ICD-11 record. `mappingConfidence` is `None` when the key is absent.
   */
  datatype TermRecord = TermRecord(
    id: string,
    code: string,
    display: string,
    definition: string,
    synonyms: seq<string>,
    system: CodeSystem,
    dosha: string,
    category: string,
    parentCode: string,
    tm2Code: string,
    bioCode: string,
    mappingConfidence: Option<real>,
    mappingSource: string,
    version: string,
    effectiveDate: string,
    lastUpdated: string)

  /** `TerminologyVersion`; the timestamp is an opaque value supplied by the caller. */
  datatype TerminologyVersion = TerminologyVersion(
    version: string,
    effectiveDate: string,
    systems: seq<string>,
    description: string)

  /** One row of `search_index`: a flattened projection of a term record. Keys a row
      of some system does not carry are "" or []. */
  datatype IndexRow = IndexRow(
    id: string,
    code: string,
    display: string,
    definition: string,
    system: CodeSystem,
    synonyms: seq<string>,
    dosha: string,
    category: string,
    parentCode: string,
    mappedTm2: string,
    mappedBio: string,
    searchText: string,
    version: string,
    effectiveDate: string)

  /**
   * `SearchResult`. The `mapped_codes` dictionary is held as its two possible
   * entries, "" standing for a missing key; `mappedCodes == None` in the source
   * corresponds to both being "".
   */
  datatype SearchResult = SearchResult(
    id: string,
    code: string,
    display: string,
    definition: string,
    system: CodeSystem,
    score: real,
    mappingConfidence: Option<real>,
    mappedTm2: string,
    mappedBio: string,
    version: string)

  /** `TranslateResponse`. */
  datatype TranslateResponse = TranslateResponse(
    sourceCode: string,
    sourceDisplay: string,
    targetCode: string,
    targetDisplay: string,
    confidence: real,
    sourceVersion: string,
    targetVersion: string)
}
