# NAMASTE / ICD-11 terminology service — a Dafny model

This project models the core of a FastAPI service. The service keeps three
code systems side by side: the Indian traditional-medicine NAMASTE codes, the
ICD-11 Traditional Medicine Module 2 (TM2) codes and the ICD-11 biomedical
codes. It searches across them, translates codes between them and imports new
NAMASTE releases. The model covers these parts:

- **The terminology store** (`Terminology.TerminologyService`, a class):
  - the three record lists and the append-only version list;
  - the six code/id dictionaries and the unified search index, both derived
    from the lists;
  - the operations that read or update them: initialisation, version
    stamping, index rebuilding, CSV import, search, translation and code
    look-up.
- **The search pipeline**:
  - abbreviation mapping and synonym expansion (`Mapping`);
  - exact-or-fuzzy base scoring and patient-context boosting (`Ranking`);
  - the threshold, the first-occurrence de-duplication by id, the stable
    descending sort and the limit (`Results`).
- **Autocomplete** (`SearchService`): prefix suggestions with its early stop,
  de-duplication and cut.
- **Translation** (`Translation`): the four supported paths, including the
  reverse TM2→NAMASTE scan.
- **The CSV importer** (`CsvParser`): row shaping and the automatic-mapping
  pass.
- **The WHO ICD-API helpers** (`WhoIcdApi`): recursive chapter extraction,
  entity parsing and the built-in fallback search table.
- **Text utilities**: stemming, keyword extraction and text normalisation
  (`Similarity`, `Phonetic`).
- **Python string built-ins** the source relies on (`Strings`), such as
  `lower`, `split`, `join`, `in`, slicing and set de-duplication.

Inputs the service takes from its environment are parameters of the model:
- the clock, as timestamp strings;
- the fuzzy scorer, as a function;
- `float()`, as a number reader;
- the WHO auto-mapper, as a function.

## Model

| member | source | states |
|---|---|---|
| Terminology.RecordMappingReachesResult | app/services/terminology.py:171-187 | A record's mappings reach its search result: a NAMASTE result carries the record's TM2 and biomedical codes, a TM2 result its biomedical code only, a biomedical result none. |
| Terminology.SynonymMatchScoresOne | app/services/terminology.py:374-377 | A query held in one of a NAMASTE record's synonyms is an exact match for that record's row, so its base score is 1.0. |
| Terminology.TerminologyService.constructor | app/services/terminology.py:19-42 | The store starts with one version, "1.0.0", covering all three systems. NAMASTE records are stamped with that version and its date; TM2 and biomedical records get release "2024-01" dated "2024-01-01". The service invariant then holds: lookups and search index match the lists, every NAMASTE record carries a version label, and every ICD record carries the fixed release. |
| Terminology.TerminologyService.AddVersionMetadata | app/services/terminology.py:119-144 | Every NAMASTE record is restamped with the FIRST version's label and date, whatever versions came later. ICD records get the fixed release. Nothing else in any record changes, and the version list stays as it was. |
| Terminology.TerminologyService.RebuildIndexes | app/services/terminology.py:146-154 | After the call, the dictionaries and the search index are exactly those derived from the current lists. Lists and versions are unchanged. |
| Terminology.TerminologyService.ImportNamasteCsv | app/services/terminology.py:319-354 | The import succeeds exactly when every row can be shaped. On failure it reports the error of a failing row and changes nothing. On success: the count is the number of rows; exactly one version "1.0.<old count>" is appended; the existing NAMASTE records stay as a prefix; each new record is its shaped row stamped with the new label; ICD lists are unchanged; the service invariant is kept. |
| Terminology.TerminologyService.AddRelease | app/services/terminology.py:331-342 | The version is appended, the records extend the NAMASTE list, and the indexes are rebuilt while keeping the service invariant. |
| Terminology.ImportedRecords | app/services/terminology.py:333-341 | Appending the restamped parsed rows gives the imported list. Every record still carries the label of one of the versions. |
| Terminology.VersionLabelInjective | app/services/terminology.py:326 | Distinct version counts give distinct labels "1.0.i", so import labels never collide. |
| Terminology.LabelledAppend | app/services/terminology.py:325-331 | Appending the version labelled with the current count keeps "the i-th version is 1.0.i". |
| Terminology.StampedAppend | app/services/terminology.py:333-341 | Records stamped with the newest label join records stamped with older labels, and all stay stamped by a known version. |
| Terminology.Restamp | app/services/terminology.py:334-339 | The list keeps its length. Each record's version, effective date and last-updated fields take the new values, and every other field is unchanged. |
| Terminology.StampAll | app/services/terminology.py:123-128 | The stamping loop yields the restamped list. |
| Terminology.CreateSearchIndex | app/services/terminology.py:156-208 | The loops build the search index defined by the three lists. |
| Terminology.AppendRows | app/services/terminology.py:161-176 | One index loop extends the index by exactly one row per record, in list order. |
| Indexing.SearchIndexLayout | app/services/terminology.py:156-208 | The index has one row per record: NAMASTE rows first, then TM2, then biomedical. Each row keeps its record's position, id and system. |
| Indexing.RowOf | app/services/terminology.py:162-205 | A row copies its record's id, code, display, definition, category, version and effective date, and carries its system. A NAMASTE row also copies the synonyms, dosha and both mapped codes, with no parent code. A TM2 row copies the parent code and the biomedical mapping. TM2 and biomedical rows have no synonyms, dosha or TM2 mapping; biomedical rows have no parent code or biomedical mapping. |
| Indexing.RowsOfAt | app/services/terminology.py:161-206 | The k-th row built from a list is the row of the k-th record. |
| Indexing.NamasteSearchTextMentions | app/services/terminology.py:173 | A NAMASTE row's search text contains its display, every synonym, its definition, its dosha and its category. |
| Indexing.IcdSearchTextMentions | app/services/terminology.py:189-203 | An ICD row's search text contains its display, definition and category. |
| Indexing.KeyedDomain | app/services/terminology.py:148-153 | A key is in a by-code or by-id dictionary exactly when some record carries it. The record stored under a key is in the list and carries that key. |
| Indexing.KeyedLastWins | app/services/terminology.py:148-153 | When several records share a key, the dictionary holds the last of them. |
| Indexing.LookupFinds | app/services/terminology.py:600-608 | "By code, else by id" finds a record exactly when some record has that code or id. The found record is in the list and matches by code or id, and a code match is preferred. |
| Terminology.TerminologyService.GetCodeDetails | app/services/terminology.py:600-608 | Returns the by-code-else-by-id lookup over the named system's current list. A found record belongs to that list and matches by code or id. |
| Terminology.TerminologyService.SearchTerms | app/services/terminology.py:356-430 | The method computes the search function. Results are at most `limit` long, have pairwise distinct ids and are in non-increasing score order. Each result is built from an index row admitted by the system filter, scored above 0.3 and at most 1.0. Conversely, every admitted row scoring above 0.3 for some expanded query has its id in the output whenever the de-duplicated results fit in `limit`. |
| Terminology.CollectResults | app/services/terminology.py:368-417 | The loop over expanded queries accumulates, in order, every row contribution for every query. |
| Terminology.QueryResults | app/services/terminology.py:370-417 | The loop over index rows for one query accumulates each row's contribution in index order. |
| Terminology.ScoreRow | app/services/terminology.py:371-417 | One row's step adds its result exactly when the filter admits the row and its boosted score passes the threshold. |
| Terminology.DedupSeen | app/services/terminology.py:420-425 | The `seen` loop computes the first-occurrence de-duplication by id. |
| Results.RowContribution | app/services/terminology.py:371-417 | A row contributes exactly when the filter admits it and its boosted score exceeds 0.3, and then its one result is built from that row with that score. |
| Results.RowsResultsFromIndex | app/services/terminology.py:370-417 | Every result of one query's pass comes from an admitted index row, with a score in (0.3, 1.0]. |
| Results.CollectedFromIndex | app/services/terminology.py:368-417 | The same holds for the results of every expanded query. |
| Results.DedupByIdDistinct | app/services/terminology.py:420-425 | De-duplication leaves pairwise distinct ids, keeps the same id set and never lengthens the list. |
| Results.DedupByIdKeepsFirst | app/services/terminology.py:420-425 | Each kept result is the FIRST result with its id in the collected list. |
| Results.DedupKeepsFirstNotBest | app/services/terminology.py:420-425 | When a later result with the same id has a higher score, the earlier one is still kept. |
| Results.DedupByIdSubset | app/services/terminology.py:420-425 | Every kept result was collected. |
| Results.SortByScoreOrders | app/services/terminology.py:428 | The sort yields non-increasing scores and is a permutation of its input. |
| Results.SortByScoreStable | app/services/terminology.py:428 | The sort is stable: results with equal scores keep their relative order. |
| Results.SortByScoreDistinct | app/services/terminology.py:428 | Sorting keeps ids distinct and keeps the id set. |
| Results.SearchFromIndex | app/services/terminology.py:365-430 | Every result of the search comes from an admitted index row. |
| Results.SearchOutput | app/services/terminology.py:419-430 | The search output has at most `limit` results, distinct ids, non-increasing scores, and results that come from the index. |
| Results.RowsResultsFinds | app/services/terminology.py:370-417 | An admitted row scoring above 0.3 for a query yields its result in that query's pass over the rows. |
| Results.CollectedFinds | app/services/terminology.py:368-417 | The same result is among the collected results of all expanded queries. |
| Results.SearchFinds | app/services/terminology.py:362-430 | No qualifying row is lost: when the filter admits a row and it scores above 0.3 for some expanded query of the mapped and expanded input, its id survives the de-duplication, and it is in the search output whenever the de-duplicated results fit in `limit`. |
| Ranking.BestScore | app/services/terminology.py:384-389 | The maximum of the fuzzy scores over the phrases: at least each of them, equal to one of them, and 0 when there are no phrases. |
| Ranking.BaseScore | app/services/terminology.py:375-389 | An exact (substring, case-insensitive) match scores 1.0. Otherwise the score is the highest of the fuzzy scores of display, synonyms and definition (with 0 standing for the synonyms when there are none): at least each of them and equal to one of them. |
| Ranking.BaseScoreInUnitRange | app/services/terminology.py:375-389 | With a scorer in [0, 1], the base score is in [0, 1]. |
| Ranking.ApplyContextBoosting | app/services/terminology.py:451-509 | The boosted score never exceeds 1.0. For a non-negative score it is at least the score capped at 1.0, so context only raises scores. |
| Ranking.ContextFactor | app/services/terminology.py:458-507 | The combined age, gender, condition and symptom multiplier is at least 1. It is at least 2.5 when the age boost applies (a non-zero age under 18 with a pediatric term, or over 65 with a geriatric term), at least 2.5 when the gender boost applies, and at least 2.0 when some symptom occurs. |
| Ranking.AgeFactorCases | app/services/terminology.py:459-468 | The age factor is ×2.5 exactly when the age is present and non-zero and either under 18 with a pediatric term in the text or over 65 with a geriatric term; otherwise it is 1. |
| Ranking.GenderFactorCases | app/services/terminology.py:471-481 | The gender factor is ×2.5 exactly when the gender is non-empty and one of its terms is in the text, otherwise 1. The terms are the female list for "female" and the male list for "male", compared case-insensitively; any other gender never boosts. |
| Ranking.ContextFactorWithoutConditions | app/services/terminology.py:458-507 | With no existing conditions, the multiplier is exactly 2.5 per applying age or gender boost times 2.0 when some symptom occurs. |
| Ranking.ConditionsFactor | app/services/terminology.py:484-499 | The multiplier over all existing conditions is at least 1. |
| Ranking.FactorsAtLeastOne | app/services/terminology.py:458-507 | The age, gender and symptom multipliers are each at least 1. |
| Ranking.NoContextOnlyCaps | app/services/terminology.py:456-509 | With no age (or age 0), no recognised gender, no conditions and no symptoms, boosting only caps the score at 1.0. |
| Ranking.ConditionFactorCases | app/services/terminology.py:484-499 | A condition named in the search text multiplies by 3.0, exactly then. Otherwise the multiplier is 2.5 when a related term occurs, else 1.0. |
| Ranking.ComplicationBoostUnreachable | app/services/terminology.py:489-494 | The 4.0 complication boost can never apply: the complication test needs the condition in the text, which the direct-match branch already took. Each condition's multiplier is 3.0, 2.5 or 1.0. |
| Ranking.RelatedFrom | app/services/terminology.py:523-527 | Non-empty related terms are the term list of a table key that occurs in the condition, with no earlier key occurring. The terms are empty exactly when no key occurs in the condition. |
| Ranking.DiabetesRelatesToInsulin | app/services/terminology.py:511-527 | For condition "Diabetes", a text that mentions insulin but not diabetes gets the 2.5 related-term boost. |
| Ranking.SymptomFactorAtMostOnce | app/services/terminology.py:502-507 | Symptoms boost at most once (×2.0), exactly when some symptom occurs in the search text. |
| Ranking.MaleMatchesFemaleText | app/services/terminology.py:471-481 | Gender terms are substring tests, so a "male" patient is boosted by any text containing "female". |
| Ranking.RowScore | app/services/terminology.py:375-393 | A row's final score is at most 1.0. |
| Ranking.ExactMatchScoresOne | app/services/terminology.py:380-393 | An exact match scores exactly 1.0, whatever the patient context. |
| Ranking.InSomePhraseAt | app/services/terminology.py:376-377 | A synonym at any position that contains the query makes the query a synonym hit. |
| Ranking.ToResult | app/services/terminology.py:397-417 | A result copies the row's id, code, display, definition, system and version, with the given score. Mapped codes come from the row: TM2 and biomedical codes for NAMASTE rows, the biomedical code for TM2 rows, nothing for biomedical rows. Confidence is 0.9 exactly when some mapped code is present. |
| Mapping.MapAbbreviations | app/utils/mapping.py:28-46 | A query equal, ignoring case, to a table abbreviation becomes its full form; any other query comes back exactly as given. |
| Mapping.AbbreviationFrom | app/utils/mapping.py:43-46 | The scan from position i returns the full form of a matching abbreviation at or after i, else the query. |
| Mapping.TbIsTuberculosis | app/utils/mapping.py:33-45 | "TB" maps to "tuberculosis". |
| Mapping.MapAbbreviationsIdempotent | app/utils/mapping.py:28-46 | Mapping twice is mapping once, because no full form is itself an abbreviation. |
| Mapping.ExpandSynonyms | app/utils/mapping.py:19-26 | The method computes the expanded query list, which has no repetitions. |
| Mapping.AccumulateSynonyms | app/utils/mapping.py:21-25 | The loop over the synonym table accumulates the lowercased query, then the synonyms and key of each triggered concept, in table order. |
| Mapping.AccumulatedMembers | app/utils/mapping.py:21-25 | A phrase is accumulated exactly when it is the query or belongs to a triggered concept (a synonym or its key). |
| Mapping.ExpandedMembers | app/utils/mapping.py:19-26 | A phrase is in the expansion exactly when it is the lowercased query or comes from a concept the query triggers. |
| Mapping.ExpandedHasQuery | app/utils/mapping.py:21 | The lowercased query is always in its own expansion. |
| Mapping.ExpandedWithoutTrigger | app/utils/mapping.py:21-26 | A query that triggers no concept expands to itself alone. |
| Mapping.FeverExpandsToItself | app/utils/mapping.py:22-23 | "fever" triggers nothing, because the trigger tests synonyms, not keys; it expands to ["fever"]. |
| Mapping.JwaraExpandsToFever | app/utils/mapping.py:22-25 | "jwara" brings in the concept key "fever" and the synonym "pyrexia". |
| Similarity.Stem | app/utils/similarity.py:17-25 | The stem is a prefix of the word and at most three characters shorter. |
| Similarity.StemWord | app/utils/similarity.py:17-25 | The suffix loop computes the stem. |
| Similarity.StemStripsFirstSuffix | app/utils/similarity.py:20-24 | Only the first matching suffix in list order is stripped. |
| Similarity.StemWithoutSuffix | app/utils/similarity.py:21-25 | A word with no listed suffix is unchanged. |
| Similarity.EsEndingLosesOnlyS | app/utils/similarity.py:20-24 | Because "s" precedes "es" and "ies", a word ending in "es" loses only its final "s". |
| Similarity.BodiesStemsToBodie | app/utils/similarity.py:20-24 | "bodies" stems to "bodie". |
| Similarity.FirstSuffixIsFirst | app/utils/similarity.py:21-23 | No suffix before the chosen one matches. |
| Similarity.LetterTokens | app/utils/similarity.py:31 | Tokens are non-empty and made of ASCII letters only. |
| Similarity.RunLengthOfWord | app/utils/similarity.py:31 | A run of letters followed by the end of the text or a non-word character has exactly its own length. |
| Similarity.LetterTokensWord | app/utils/similarity.py:31 | Every word is found: a non-empty run of letters ending the text or followed by a non-word character is the next token, followed by the tokens of the rest. |
| Similarity.LetterTokensSkipsSeparator | app/utils/similarity.py:31 | A non-word character only separates tokens and is itself dropped. |
| Similarity.ExtractKeywords | app/utils/similarity.py:27-33 | There are no more keywords than letter tokens of the lowercased text, and there are none exactly when no token survives the length and stopword filter. |
| Similarity.ExtractKeywordsWord | app/utils/similarity.py:27-33 | A text starting with a word yields the stem of the lowercased word, when it is longer than two letters and not a stopword, followed by the keywords of the rest of the text. Keywords thus follow the text's word order and keep duplicates. |
| Similarity.KeywordsOfSingle | app/utils/similarity.py:32 | One token yields its stem when it is kept, and nothing otherwise. |
| Similarity.KeywordsAreStemsOfKeptTokens | app/utils/similarity.py:32 | Each keyword is the stem of a token that is longer than two characters and not a stopword. |
| Similarity.KeywordsOfAppend | app/utils/similarity.py:32 | Keyword extraction distributes over concatenated token lists. |
| Similarity.IngYieldsEmptyKeyword | app/utils/similarity.py:27-33 | "ing" passes the length filter and stems to the empty keyword. |
| Phonetic.NormalizeText | app/utils/phonetic.py:15-19 | The output is no longer than the input, and every output character is alphanumeric or whitespace and not upper-case. |
| Phonetic.Surviving | app/utils/phonetic.py:18 | Only alphanumeric or whitespace characters survive the filter. |
| Phonetic.NormalizeAppend | app/utils/phonetic.py:18 | Normalisation distributes over concatenation. |
| Phonetic.NormalizeChar | app/utils/phonetic.py:18 | A single character is kept, lowercased, exactly when it is alphanumeric or whitespace. |
| Phonetic.NormalizeIdempotent | app/utils/phonetic.py:15-19 | Normalising twice is normalising once. |
| CsvParser.Confidence | app/data/csv_parser.py:32 | A missing mapping-confidence column gives 0.8. A present one gives the number it reads as, and fails with an invalid-number error carrying the cell exactly when it does not read as a number. |
| CsvParser.ShapeRow | app/data/csv_parser.py:22-36 | A row shapes exactly when it has code and display_name and a readable confidence. The error is, in that order: a missing code, a missing display_name, then the confidence's invalid-number error. The record's id is "NAMASTE_" + code; it takes display, definition, dosha, category and both mapped codes from their columns ("" when absent), with version "1.0.0". The mapping source is "manual" exactly when a TM2 code is present, else "unmapped". |
| CsvParser.ShapedSynonyms | app/data/csv_parser.py:29 | A non-empty synonyms cell is split on ';': the pieces rejoin to the cell and contain no ';'. An empty or missing cell gives no synonyms. |
| CsvParser.ParseNamasteCsv | app/data/csv_parser.py:16-38 | Parsing succeeds exactly when every row shapes, giving one record per row in row order; otherwise it returns a failing row's error. |
| CsvParser.EnhanceRecord | app/data/csv_parser.py:49-72 | A record with a TM2 code, or one the mapper has no suggestion for, is returned unchanged. An unmapped record with a suggestion takes the suggested code and confidence and is marked "who_api_auto"; every other field is kept. |
| CsvParser.MappedCount | app/data/csv_parser.py:47-67 | The number of records the pass maps (unmapped records with a suggestion), never more than there are records. |
| CsvParser.MappedCountExtremes | app/data/csv_parser.py:47-67 | The count is 0 exactly when no record is mapped, and equals the number of records exactly when every record is mapped. |
| CsvParser.EnhanceOne | app/data/csv_parser.py:50-67 | One loop step yields the enhanced record, and counts it exactly when the record had no TM2 code and got a suggestion. |
| CsvParser.EnhanceWithWhoMappings | app/data/csv_parser.py:40-75 | Without an API client the data comes back unchanged with count 0. Otherwise the list keeps its length, already-mapped records are untouched, and each record is its enhanced form. |
| WhoIcdApi.ExtractEntitiesFromChapter | app/services/who_icd_api.py:229-250 | The sibling loop with its recursive descent yields the entities of the forest. |
| WhoIcdApi.EntitiesArePreOrderCategories | app/services/who_icd_api.py:229-250 | Extraction emits exactly one entity per category node of the tree, in pre-order. |
| WhoIcdApi.NonCategoryPassesThrough | app/services/who_icd_api.py:233-248 | A non-category node contributes nothing itself, but its descendants are still visited. |
| WhoIcdApi.CategoryPrecedesDescendants | app/services/who_icd_api.py:233-248 | A category node's entity comes before everything below it. |
| WhoIcdApi.ToEntity | app/services/who_icd_api.py:235-243 | The entity copies code, title, definition and chapter, has source "WHO ICD-API TM2", and is TM2 exactly when the chapter is "26". Its id is the URI with every occurrence of the entity prefix removed, wherever it stands, so it is never longer than the URI and is the URI itself when the prefix does not occur. |
| WhoIcdApi.RemoveAbsent | app/services/who_icd_api.py:236 | Removing a pattern that does not occur leaves the string unchanged. |
| WhoIcdApi.StripEntityPrefix | app/services/who_icd_api.py:340-342 | A URI without the entity prefix is kept as it is; stripping never lengthens. |
| WhoIcdApi.StripEntityPrefixOfUri | app/services/who_icd_api.py:340-342 | Prefix + id, where the id does not repeat the prefix, yields the id. |
| WhoIcdApi.ParseEntity | app/services/who_icd_api.py:337-355 | The parsed record has the stripped id, copies code, title, definition, chapter and chapter name, has source "WHO ICD-API", is TM2 exactly when the chapter is "26", and carries API version "v2" and the sync time. |
| WhoIcdApi.InChapter | app/services/who_icd_api.py:196-197 | The chapter filter keeps exactly the items of that chapter. |
| WhoIcdApi.GetMockSearchResults | app/services/who_icd_api.py:151-199 | The fallback search returns at most 10 items, all in the requested chapter when one is given. |
| WhoIcdApi.MockCollectedFromKeys | app/services/who_icd_api.py:187-193 | An item is collected exactly when its table key occurs in the lowercased query. |
| WhoIcdApi.MockSearchNeedsKey | app/services/who_icd_api.py:187-199 | A query containing no table key returns nothing. |
| WhoIcdApi.HighFeverFindsTm2Entry | app/services/who_icd_api.py:154-199 | "High Fever" finds the TM2 fever entry; keys match anywhere in the query, ignoring case. |
| WhoIcdApi.FeverOutsideItsChapter | app/services/who_icd_api.py:196-199 | "fever" restricted to chapter "5" returns nothing. |
| Terminology.TerminologyService.TranslateCode | app/services/terminology.py:529-591 | The method returns the translation function over the current lists and versions. |
| Terminology.TerminologyService.FindTarget | app/services/terminology.py:549-578 | Resolving the target through the by-code dictionaries agrees with the list-based target. |
| Terminology.TerminologyService.ReverseScan | app/services/terminology.py:571-578 | The reverse NAMASTE scan loop stops at the first record mapped to the input string, and that record's empty code gives no hit. |
| Translation.TranslateShape | app/services/terminology.py:529-591 | A translation exists only for a supported pair, and exactly when the source resolves and has a target. It echoes the input code and carries the source record's display and version, a non-empty target code and the target system's current version ("2024-01" for ICD, the last version for NAMASTE). An unknown code gives none. |
| Translation.NamasteToTm2 | app/services/terminology.py:550-555 | NAMASTE→TM2 uses the stored TM2 code, exactly when there is one, with the stored confidence (0.8 when absent). The display comes from a TM2 record with that code, or is "" when the code is dangling. |
| Translation.NamasteToBio | app/services/terminology.py:557-562 | NAMASTE→biomedical uses the stored biomedical code with 0.9 × the stored confidence. |
| Translation.Tm2ToBio | app/services/terminology.py:564-569 | TM2→biomedical uses the TM2 record's biomedical code at confidence 0.85. |
| Translation.Tm2ToNamaste | app/services/terminology.py:571-578 | TM2→NAMASTE needs the TM2 source. The first NAMASTE record, in list order, mapped to the input wins, with 0.9 × its confidence. |
| Translation.Tm2ToNamasteUnmapped | app/services/terminology.py:571-581 | When no NAMASTE record is mapped to the input, the reverse path gives none. |
| Translation.ReverseScanUsesInputString | app/services/terminology.py:573-578 | The reverse scan compares mappings with the caller's string, not with the resolved record's code. A TM2 record addressed by its id translates to nothing, while the same record addressed by its code translates. |
| Translation.FirstMappedTo | app/services/terminology.py:573-578 | The position found is the first NAMASTE record mapped to the code; none means no record is. |
| Translation.DisplayOfFinds | app/services/terminology.py:553-554 | A dangling target code gives the empty display; otherwise the display is that of a record with the code. |
| SearchService.Autocomplete | app/services/search.py:57-96 | The method computes the suggestion function: the early-stopping collection, de-duplicated, cut to `limit`. |
| SearchService.RowOwnSuggestions | app/services/search.py:76-81 | One row offers its display and then its synonyms, each only when it starts with the prefix, ignoring case. |
| SearchService.MatchingMembers | app/services/search.py:79-81 | A synonym is offered exactly when it is one of the row's synonyms and completes the prefix. |
| SearchService.RowSuggestionsMembers | app/services/search.py:76-81 | A row offers a phrase exactly when the phrase is its display or a synonym and completes the prefix. |
| SearchService.AllSuggestionsMembers | app/services/search.py:72-81 | Without the early stop, a phrase is collected exactly when some row admitted by the system filter offers it. |
| SearchService.CollectIsPrefix | app/services/search.py:72-84 | The early-stopping collection is a prefix of the full collection. |
| SearchService.CollectShortOnlyWhenCut | app/services/search.py:83-84 | The collection stops short only after reaching 2 × limit suggestions. |
| SearchService.SuggestionsSound | app/services/search.py:72-87 | There are at most `limit` suggestions, without repetitions, each offered by an admitted row. |
| SearchService.SuggestionsComplete | app/services/search.py:72-87 | When the scan is not cut early and its distinct phrases fit in `limit`, a phrase is suggested exactly when some admitted row offers it. |
| SearchService.ShortScanComplete | app/services/search.py:72-87 | A scan holding at most `limit` phrases in all is not cut early, and its distinct phrases fit in `limit`. |
| SearchService.UnknownSystemSuggestsNothing | app/services/search.py:73-74 | A system string other than the enum values ("namaste", "icd11_tm2", "icd11_bio") filters out every row, so there are no suggestions. |
| Strings.Lower | app/utils/mapping.py:21 | `str.lower` keeps the length and lowercases each ASCII letter. |
| Strings.SplitJoin | app/data/csv_parser.py:29 | `split(';')` pieces rejoined with ';' give back the string. |
| Strings.SplitPiecesFree | app/data/csv_parser.py:29 | No piece of `split(';')` contains ';'. |
| Strings.Take | app/services/terminology.py:430 | The slice `[:n]` is the first min(n, length) elements. |
| Strings.Dedup | app/utils/mapping.py:26 | `list(set(...))` has no repetitions and exactly the same members. |

## Left out

- Network access is not modelled: WHO ICD-API authentication, fetching, `sync_with_who_api`, `_load_or_fetch_*` and the fetch-or-demo fallbacks of `who_icd_api.py`. The constructor takes the three initial lists as parameters.
- Demo-data generators are not part of this model. Their output enters as the constructor's lists.
- Redis caching in `search.py` is not modelled, nor the `search` wrapper around `search_terms`. The Redis cache only replays earlier answers.
- The FastAPI routes, security and authentication (`main.py`, `security.py`) are not modelled.
- The FHIR CodeSystem and ConceptMap builders (`terminology.py:610-698`), `export_data` and `_calculate_mapping_confidence` are not modelled. They format data and add no behaviour the search and translation paths depend on.
- Timestamps (`datetime.now()`, `isoformat()`) are opaque strings supplied by the caller.
- `csv.DictReader` is not modelled: a row is a map from column name to value. `float()` is a caller-supplied reader that may fail.
- Floating point is modelled as exact `real` arithmetic, with no rounding.
- The fuzzy scorer (`rapidfuzz.fuzz.partial_ratio / 100`) is a parameter. `semantic_similarity`, `phonetic_similarity` and `find_phonetic_matches`, which call into rapidfuzz or jellyfish, are not modelled.
- `auto_map_namaste_to_icd` is a parameter of `EnhanceWithWhoMappings`. Its exception path is folded into "no suggestion", and its console messages are left out.
- `str.lower`, `isalnum` and `isspace` are modelled over ASCII only. Unicode case mapping is not modelled.
- Similarity.LetterTokens: the word boundaries `\b` of `extract_keywords`'s pattern `\b[a-zA-Z]+\b` are taken over ASCII word characters, whereas Python's `\w` is Unicode. Next to a non-ASCII letter the model finds a token the source does not: in "éfever" the model yields "fever", the source nothing.
- Python set order is not modelled. `list(set(...))` in `expand_synonyms` and `autocomplete` is modelled as first-occurrence order; the members are proved, the order is not.
- Mapping.ExpandSynonyms: the result's order is fixed as first occurrence, whereas the source's order is whatever the set yields.
- SearchService.Autocomplete: the result's order is fixed as first occurrence. When more than `limit` distinct phrases are collected, the source's cut picks an arbitrary subset; the model keeps the first ones.
- Terminology.TerminologyService.SearchTerms: `limit` is a natural number. Python's negative slice bounds are not modelled, and the request schema's bounds (1..100; 1..20 for autocomplete) are not required.
- Terminology.TerminologyService.SearchTerms: the expanded queries are scanned in first-occurrence order, whereas the source scans them in set order. De-duplication keeps the first result collected for an id, so in the source the score an id keeps depends on which of its queries the set yields first. The ranking and the `limit` cut depend on that order too. The model fixes one such order; the proved properties (bound, distinct ids, descending scores, provenance, completeness when the results fit) hold for it.
- Extra dictionary fields with no effect on the modelled behaviour are dropped: `who_api_version` on ICD records, `effective_date` on search results, and `icd11_tm2_display`, which the automatic-mapping pass copies from the suggestion.
- CsvParser.EnhanceRecord: the suggestion's display (`icd11_tm2_display`) is not stored, because the record type has no such field and no modelled operation reads it.
- Terminology.TerminologyService.ReverseScan: a missing `icd11_tm2_code` key is modelled as "", so a NAMASTE record without the key matches an empty input code. In the source `.get` gives `None`, which never equals a string. Translating the empty TM2 code to NAMASTE can thus give a hit in the model (through `Translation.ReverseHit`) where the source gives none.
- The six code/id dictionaries are bundled into one `Lookups` value. Python dict aliasing of records between lists and dictionaries is not modelled: records are values.
- The in-place `item.update` on dictionaries shared with callers is modelled as building new record values.
