/**
 * How `TerminologyService.search_terms` (`app/services/terminology.py`) scores one
 * index row for one expanded query: the base score (substring match, else the
 * best fuzzy score), the multiplicative patient-context boosts of
 * `_apply_context_boosting`, the 1.0 cap, and the result record built for a row
 * that clears the 0.3 threshold.
 */
module Ranking {
  import opened Wrappers
  import opened Strings
  import opened Records

  /** The fuzzy scorer, `fuzz.partial_ratio(a, b) / 100`, supplied by the caller. */
  type Scorer = (string, string) -> real

  /** The patient context of a search. An absent age is `None`; an absent gender is "";
      absent condition and symptom lists are [] (the source treats None and [] alike). */
  datatype Patient = Patient(age: Option<int>, gender: string, conditions: seq<string>, symptoms: seq<string>)

  const PediatricTerms: seq<string> := ["pediatric", "child", "infant", "juvenile"]
  const GeriatricTerms: seq<string> := ["geriatric", "elderly", "senior", "age-related"]
  const FemaleTerms: seq<string> := ["female", "woman", "women", "gynec", "obstet", "menstrual", "pregnancy"]
  const MaleTerms: seq<string> := ["male", "man", "men", "andro", "prostate", "testicular"]
  const ComplicationKeywords: seq<string> :=
    ["complication", "secondary", "due to", "caused by", "associated with", "related to", "result of"]

  /** `related_terms_map` of `_get_related_terms`, in dictionary order. */
  const RelatedTermsMap: seq<(string, seq<string>)> := [
    ("diabetes", ["diabetic", "madumeha", "sugar", "glucose", "hyperglycem", "insulin"]),
    ("hypertension", ["hypertensive", "high blood pressure", "htn", "bp"]),
    ("fever", ["jwara", "pyrexia", "temperature", "febrile"]),
    ("arthritis", ["joint", "amavata", "rheumat", "arthralgia"]),
    ("asthma", ["shwasa", "breathing", "wheez", "bronch"]),
    ("tb", ["tuberculosis", "rajayakshma", "kshaya", "mycobacter"]),
    ("anemia", ["pandu", "hemoglobin", "iron", "hemat"])
  ]

  /** `item.get("search_text", "").lower()`, the text every boost looks in. */
  function ItemText(row: IndexRow): string
  {
    Lower(row.searchText)
  }

  /** The age boost: ×2.5 for a pediatric term under 18 or a geriatric term over 65.
      An age of 0 counts as no age. */
  function AgeFactor(age: Option<int>, text: string): real
  {
    match age
    case None => 1.0
    case Some(a) =>
      if a == 0 then 1.0
      else if a < 18 && ContainsAny(text, PediatricTerms) then 2.5
      else if a > 65 && ContainsAny(text, GeriatricTerms) then 2.5
      else 1.0
  }

  /** The terms a gender looks for; any other gender looks for none. */
  function GenderTerms(gender: string): seq<string>
  {
    var g := Lower(gender);
    if g == "female" then FemaleTerms else if g == "male" then MaleTerms else []
  }

  function GenderFactor(gender: string, text: string): real
  {
    if gender != "" && ContainsAny(text, GenderTerms(gender)) then 2.5 else 1.0
  }

  /** `_is_complication_of`: some condition occurs in the row's text and so does a
      complication keyword. */
  predicate IsComplicationOf(row: IndexRow, conditions: seq<string>)
  {
    |conditions| > 0 &&
      ((Contains(ItemText(row), Lower(conditions[0])) && ContainsAny(ItemText(row), ComplicationKeywords))
       || IsComplicationOf(row, conditions[1..]))
  }

  /** The scan of `_get_related_terms` from entry `i` on: the terms of the first
      key at or after `i` that occurs in the condition, or none when no key does. */
  function RelatedFrom(condition: string, i: nat): (r: seq<string>)
    requires i <= |RelatedTermsMap|
    ensures r != [] ==> exists j: nat :: FirstKeyAt(condition, i, j) && r == RelatedTermsMap[j].1
    ensures r == [] <==> forall j :: i <= j < |RelatedTermsMap| ==> !Contains(condition, RelatedTermsMap[j].0)
    decreases |RelatedTermsMap| - i
  {
    if i == |RelatedTermsMap| then []
    else if Contains(condition, RelatedTermsMap[i].0) then RelatedTermsMap[i].1
    else RelatedFrom(condition, i + 1)
  }

  /** Entry `j` is the first entry from `i` on whose key occurs in the condition. */
  predicate FirstKeyAt(condition: string, i: nat, j: nat)
    requires i <= |RelatedTermsMap|
  {
    i <= j < |RelatedTermsMap| && Contains(condition, RelatedTermsMap[j].0)
    && forall l :: i <= l < j ==> !Contains(condition, RelatedTermsMap[l].0)
  }

  /** `_get_related_terms`: the terms of the first key occurring in the condition. */
  function RelatedTerms(condition: string): seq<string>
  {
    RelatedFrom(condition, 0)
  }

  /** The boost one existing condition gives. */
  function ConditionFactor(condition: string, row: IndexRow): real
  {
    var c := Lower(condition);
    if Contains(ItemText(row), c) then 3.0
    else if IsComplicationOf(row, [condition]) then 4.0
    else if ContainsAny(ItemText(row), RelatedTerms(c)) then 2.5
    else 1.0
  }

  /** The boosts of all conditions, multiplied in list order. */
  function ConditionsFactor(conditions: seq<string>, row: IndexRow): (f: real)
    ensures f >= 1.0
  {
    if conditions == [] then 1.0
    else
      var head := ConditionFactor(conditions[0], row);
      var rest := ConditionsFactor(conditions[1..], row);
      assert head >= 1.0;
      assert head * rest >= rest by {
        assert head * rest - rest == (head - 1.0) * rest;
      }
      head * rest
  }

  /** The symptom boost: ×2.0 for the first symptom that occurs, then the scan stops. */
  function SymptomFactor(symptoms: seq<string>, row: IndexRow): real
  {
    if symptoms == [] then 1.0
    else if Contains(ItemText(row), Lower(symptoms[0])) then 2.0
    else SymptomFactor(symptoms[1..], row)
  }

  /** The product of every boost for a row. (The source multiplies the score by each
      boost in turn; over the reals the grouping does not matter.) */
  function ContextFactor(row: IndexRow, p: Patient): (f: real)
    ensures f >= 1.0
    ensures AgeBoosted(p.age, ItemText(row)) ==> f >= 2.5
    ensures GenderBoosted(p.gender, ItemText(row)) ==> f >= 2.5
    ensures SymptomOccurs(p.symptoms, row) ==> f >= 2.0
  {
    var text := ItemText(row);
    var age := AgeFactor(p.age, text);
    var gender := GenderFactor(p.gender, text);
    var conditions := ConditionsFactor(p.conditions, row);
    var symptoms := SymptomFactor(p.symptoms, row);
    FactorsAtLeastOne(row, p);
    AgeFactorCases(p.age, text);
    GenderFactorCases(p.gender, text);
    SymptomFactorAtMostOnce(p.symptoms, row);
    ProductAtLeastEach(age, gender, conditions, symptoms);
    Product(age, gender, conditions, symptoms)
  }

  /** Without existing conditions the context factor is exactly the product of the
      age, gender and symptom boosts that apply. */
  lemma ContextFactorWithoutConditions(row: IndexRow, p: Patient)
    requires p.conditions == []
    ensures ContextFactor(row, p) == BoostProduct(row, p)
  {
    var text := ItemText(row);
    AgeFactorCases(p.age, text);
    GenderFactorCases(p.gender, text);
    SymptomFactorAtMostOnce(p.symptoms, row);
    ProductWithoutMiddle(AgeFactor(p.age, text), GenderFactor(p.gender, text), SymptomFactor(p.symptoms, row));
  }

  /** The boosts of age, gender and symptoms together. */
  function BoostProduct(row: IndexRow, p: Patient): real
  {
    Boost(AgeBoosted(p.age, ItemText(row)), 2.5) * Boost(GenderBoosted(p.gender, ItemText(row)), 2.5)
      * Boost(SymptomOccurs(p.symptoms, row), 2.0)
  }

  /** `factor` when the boost applies, else 1. */
  function Boost(applies: bool, factor: real): real
  {
    if applies then factor else 1.0
  }

  /** The age boost applies: a non-zero age under 18 with a pediatric term in the
      text, or over 65 with a geriatric term. */
  predicate AgeBoosted(age: Option<int>, text: string)
  {
    age.Some? && age.value != 0 &&
      ((age.value < 18 && ContainsAny(text, PediatricTerms)) || (age.value > 65 && ContainsAny(text, GeriatricTerms)))
  }

  /** The gender boost applies: a non-empty gender one of whose terms is in the text. */
  predicate GenderBoosted(gender: string, text: string)
  {
    gender != "" && ContainsAny(text, GenderTerms(gender))
  }

  /** Some symptom occurs in the row's text. */
  predicate SymptomOccurs(symptoms: seq<string>, row: IndexRow)
  {
    exists k :: 0 <= k < |symptoms| && Contains(ItemText(row), Lower(symptoms[k]))
  }

  /** The age factor is ×2.5 exactly when the age boost applies, and 1 otherwise. */
  lemma AgeFactorCases(age: Option<int>, text: string)
    ensures AgeFactor(age, text) == Boost(AgeBoosted(age, text), 2.5)
    ensures AgeFactor(age, text) == 2.5 <==> AgeBoosted(age, text)
  {
  }

  /** The gender factor is ×2.5 exactly when the gender boost applies, and 1
      otherwise. The terms are chosen by the lowercase gender, and any gender other
      than "female" or "male" has none, so it never boosts. */
  lemma GenderFactorCases(gender: string, text: string)
    ensures GenderFactor(gender, text) == Boost(GenderBoosted(gender, text), 2.5)
    ensures GenderFactor(gender, text) == 2.5 <==> GenderBoosted(gender, text)
    ensures Lower(gender) == "female" ==> GenderTerms(gender) == FemaleTerms
    ensures Lower(gender) == "male" ==> GenderTerms(gender) == MaleTerms
    ensures Lower(gender) != "female" && Lower(gender) != "male" ==> GenderFactor(gender, text) == 1.0
  {
  }

  /** Dropping a factor of at least 1 from the middle of a product of non-negative
      factors does not raise it. */
  /** The four factors multiplied in the source's order. */
  function Product(a: real, g: real, c: real, s: real): real
  {
    a * g * c * s
  }

  /** A product of factors of at least 1 is at least each of them. */
  lemma ProductAtLeastEach(a: real, g: real, c: real, s: real)
    requires a >= 1.0 && g >= 1.0 && c >= 1.0 && s >= 1.0
    ensures Product(a, g, c, s) >= 1.0
    ensures Product(a, g, c, s) >= a && Product(a, g, c, s) >= g && Product(a, g, c, s) >= s
  {
    ProductAtLeastOne(a, g, c, s);
    assert a * g * c * s - a == a * (g * c * s - 1.0);
    assert g * c * s >= 1.0 by { ProductAtLeastOne(g, c, s, 1.0); }
    assert a * g * c * s - g == g * (a * c * s - 1.0);
    assert a * c * s >= 1.0 by { ProductAtLeastOne(a, c, s, 1.0); }
    assert a * g * c * s - s == s * (a * g * c - 1.0);
    assert a * g * c >= 1.0 by { ProductAtLeastOne(a, g, c, 1.0); }
  }

  /** A middle factor of 1 drops out. */
  lemma ProductWithoutMiddle(a: real, g: real, s: real)
    ensures Product(a, g, 1.0, s) == a * g * s
  {
  }

  /** `_apply_context_boosting`: the score times every boost, capped at 1.0. */
  function ApplyContextBoosting(score: real, row: IndexRow, p: Patient): (r: real)
    ensures r <= 1.0
    ensures score >= 0.0 ==> r >= (if score <= 1.0 then score else 1.0)
  {
    var f := ContextFactor(row, p);
    if score >= 0.0 then CappedScaledUp(score, f); Capped(score * f) else Capped(score * f)
  }

  /** `min(x, 1.0)`. */
  function Capped(x: real): real
  {
    if x <= 1.0 then x else 1.0
  }

  /** The ×4.0 complication branch can never be taken: it is tried only when the
      condition does not occur in the text, and a complication needs it to occur. */
  lemma ComplicationBoostUnreachable(condition: string, row: IndexRow)
    ensures ConditionFactor(condition, row) != 4.0
    ensures ConditionFactor(condition, row) in {3.0, 2.5, 1.0}
  {
    assert [condition][1..] == [];
    if !Contains(ItemText(row), Lower(condition)) {
      assert !IsComplicationOf(row, [condition]);
    }
  }

  /** A condition is worth ×3.0 exactly when its lowercase form occurs in the text;
      otherwise ×2.5 when a related term of its first matching key occurs. */
  lemma ConditionFactorCases(condition: string, row: IndexRow)
    ensures Contains(ItemText(row), Lower(condition)) <==> ConditionFactor(condition, row) == 3.0
    ensures !Contains(ItemText(row), Lower(condition)) ==>
      (ConditionFactor(condition, row) == 2.5 <==> ContainsAny(ItemText(row), RelatedTerms(Lower(condition))))
  {
    ComplicationBoostUnreachable(condition, row);
  }

  /** A related term counts even when the condition's own name is absent: a patient
      with "Diabetes" lifts a row that mentions insulin by ×2.5. */
  lemma DiabetesRelatesToInsulin(row: IndexRow)
    requires !Contains(ItemText(row), "diabetes") && Contains(ItemText(row), "insulin")
    ensures ConditionFactor("Diabetes", row) == 2.5
  {
    assert Lower("Diabetes") == "diabetes";
    assert Contains("diabetes", RelatedTermsMap[0].0);
    assert RelatedTerms("diabetes") == RelatedTermsMap[0].1;
    assert RelatedTermsMap[0].1[5] == "insulin";
    ContainsAnyIff(ItemText(row), RelatedTermsMap[0].1);
    ConditionFactorCases("Diabetes", row);
  }

  /** The symptoms give ×2.0 at most once: exactly when some symptom occurs. */
  lemma {:induction false} SymptomFactorAtMostOnce(symptoms: seq<string>, row: IndexRow)
    ensures SymptomFactor(symptoms, row) == 1.0 || SymptomFactor(symptoms, row) == 2.0
    ensures SymptomFactor(symptoms, row) == 2.0 <==>
      exists k :: 0 <= k < |symptoms| && Contains(ItemText(row), Lower(symptoms[k]))
  {
    if symptoms != [] {
      SymptomFactorAtMostOnce(symptoms[1..], row);
      assert forall k :: 1 <= k < |symptoms| ==> symptoms[k] == symptoms[1..][k - 1];
    }
  }

  /** Because the gender terms are tested as substrings, "male" finds "female": a male
      patient's boost applies to a row written about women. */
  lemma MaleMatchesFemaleText(row: IndexRow)
    requires Contains(ItemText(row), "female")
    ensures GenderFactor("male", ItemText(row)) == 2.5
  {
    var text := ItemText(row);
    assert Lower("male") == "male";
    var i := ContainsWitness(text, "female");
    assert text[i..i + 6] == "female";
    assert text[i + 2..i + 6] == text[i..i + 6][2..6];
    assert "female"[2..6] == "male";
    ContainsAt(text, "male", i + 2);
    assert MaleTerms[0] == "male";
  }

  /** The factors are never below 1. */
  lemma FactorsAtLeastOne(row: IndexRow, p: Patient)
    ensures AgeFactor(p.age, ItemText(row)) >= 1.0
    ensures GenderFactor(p.gender, ItemText(row)) >= 1.0
    ensures SymptomFactor(p.symptoms, row) >= 1.0
  {
    SymptomFactorAtMostOnce(p.symptoms, row);
  }

  /** Factors of at least 1 multiply to at least 1. */
  lemma ProductAtLeastOne(a: real, g: real, c: real, s: real)
    requires a >= 1.0 && g >= 1.0 && c >= 1.0 && s >= 1.0
    ensures a * g * c * s >= 1.0
  {
    assert a * g >= 1.0 by { assert a * g - 1.0 == (a - 1.0) * g + (g - 1.0); }
    assert a * g * c >= 1.0 by { assert a * g * c - 1.0 == (a * g - 1.0) * c + (c - 1.0); }
    assert a * g * c * s - 1.0 == (a * g * c - 1.0) * s + (s - 1.0);
  }

  /** Scaling by at least 1 and capping at 1 never goes below the capped score. */
  lemma CappedScaledUp(score: real, f: real)
    requires score >= 0.0 && f >= 1.0
    ensures Capped(score * f) >= Capped(score)
  {
    ScaledUp(score, f);
  }

  lemma ScaledUp(score: real, f: real)
    requires score >= 0.0 && f >= 1.0
    ensures score * f >= score
  {
    assert score * f - score == score * (f - 1.0);
  }

  /** Without a patient context (no age or age 0, no recognised gender, no
      conditions, no symptoms) the score is only capped. */
  lemma NoContextOnlyCaps(score: real, row: IndexRow, p: Patient)
    requires p.age.None? || p.age == Some(0)
    requires Lower(p.gender) != "female" && Lower(p.gender) != "male"
    requires p.conditions == [] && p.symptoms == []
    ensures ApplyContextBoosting(score, row, p) == if score <= 1.0 then score else 1.0
  {
  }

  /** Python's `max` of two scores. */
  function Max(a: real, b: real): real
  {
    if a >= b then a else b
  }

  /** `max(fuzz(q, p) for p in phrases)`, or 0 for no phrases. */
  function BestScore(q: string, phrases: seq<string>, fuzz: Scorer): (r: real)
    ensures forall k :: 0 <= k < |phrases| ==> fuzz(q, phrases[k]) <= r
    ensures phrases == [] ==> r == 0.0
    ensures phrases != [] ==> exists k :: 0 <= k < |phrases| && r == fuzz(q, phrases[k])
  {
    if phrases == [] then 0.0
    else if |phrases| == 1 then fuzz(q, phrases[0])
    else
      var rest := BestScore(q, phrases[1..], fuzz);
      assert forall k :: 1 <= k < |phrases| ==> phrases[k] == phrases[1..][k - 1];
      Max(fuzz(q, phrases[0]), rest)
  }

  /** Some phrase holds `q` (both lowercased). */
  predicate InSomePhrase(q: string, phrases: seq<string>)
  {
    |phrases| > 0 && (Contains(Lower(phrases[0]), q) || InSomePhrase(q, phrases[1..]))
  }

  /** The exact-match test: the lowercased query occurs in the lowercased display or in
      a lowercased synonym. */
  /** A phrase at any position that holds `q` is found. */
  lemma {:induction false} InSomePhraseAt(q: string, phrases: seq<string>, k: nat)
    requires k < |phrases| && Contains(Lower(phrases[k]), q)
    ensures InSomePhrase(q, phrases)
  {
    if k > 0 {
      assert phrases[1..][k - 1] == phrases[k];
      InSomePhraseAt(q, phrases[1..], k - 1);
    }
  }

  predicate ExactMatch(q: string, row: IndexRow)
  {
    Contains(Lower(row.display), Lower(q)) || InSomePhrase(Lower(q), row.synonyms)
  }

  /** The score before boosting: 1.0 for an exact match, else the best fuzzy score of
      the display, the synonyms and the definition. */
  function BaseScore(q: string, row: IndexRow, fuzz: Scorer): (r: real)
    ensures ExactMatch(q, row) ==> r == 1.0
    ensures !ExactMatch(q, row) ==>
      && r >= fuzz(q, row.display) && r >= fuzz(q, row.definition)
      && (forall k :: 0 <= k < |row.synonyms| ==> r >= fuzz(q, row.synonyms[k]))
    ensures !ExactMatch(q, row) ==>
      || r == fuzz(q, row.display) || r == fuzz(q, row.definition)
      || (row.synonyms == [] && r == 0.0)
      || exists k :: 0 <= k < |row.synonyms| && r == fuzz(q, row.synonyms[k])
  {
    if ExactMatch(q, row) then 1.0
    else Max(Max(fuzz(q, row.display), BestScore(q, row.synonyms, fuzz)), fuzz(q, row.definition))
  }

  /** The base score lies in [0, 1] when the scorer's values do. */
  lemma BaseScoreInUnitRange(q: string, row: IndexRow, fuzz: Scorer)
    requires forall a, b :: 0.0 <= fuzz(a, b) <= 1.0
    ensures 0.0 <= BaseScore(q, row, fuzz) <= 1.0
  {
    if row.synonyms != [] {
      var b := BestScore(q, row.synonyms, fuzz);
      var k :| 0 <= k < |row.synonyms| && b == fuzz(q, row.synonyms[k]);
    }
  }

  /** The final score of a row for one query. */
  function RowScore(q: string, row: IndexRow, fuzz: Scorer, p: Patient): (r: real)
    ensures r <= 1.0
  {
    ApplyContextBoosting(BaseScore(q, row, fuzz), row, p)
  }

  /** An exact match scores exactly 1.0, whatever the patient context. */
  lemma ExactMatchScoresOne(q: string, row: IndexRow, fuzz: Scorer, p: Patient)
    requires ExactMatch(q, row)
    ensures RowScore(q, row, fuzz, p) == 1.0
  {
  }

  /** The result record for a row and its score. `mapped_codes` takes the NAMASTE
      row's TM2 and biomedical codes, a TM2 row's biomedical code, and nothing of a
      biomedical row; each only when non-empty. */
  function ToResult(row: IndexRow, score: real): (r: SearchResult)
    ensures r.id == row.id && r.code == row.code && r.display == row.display && r.definition == row.definition
    ensures r.system == row.system && r.score == score && r.version == row.version
    ensures r.mappedTm2 != "" ==> row.system == Namaste && r.mappedTm2 == row.mappedTm2
    ensures r.mappedBio != "" ==> row.system != Icd11Bio && r.mappedBio == row.mappedBio
    ensures row.system == Namaste ==> r.mappedTm2 == row.mappedTm2 && r.mappedBio == row.mappedBio
    ensures row.system == Icd11Tm2 ==> r.mappedBio == row.mappedBio
    ensures r.mappingConfidence.Some? <==> r.mappedTm2 != "" || r.mappedBio != ""
    ensures r.mappingConfidence.Some? ==> r.mappingConfidence.value == 0.9
  {
    var tm2 := if row.system == Namaste then row.mappedTm2 else "";
    var bio := if row.system == Namaste || row.system == Icd11Tm2 then row.mappedBio else "";
    SearchResult(
      id := row.id,
      code := row.code,
      display := row.display,
      definition := row.definition,
      system := row.system,
      score := score,
      mappingConfidence := if tm2 != "" || bio != "" then Some(0.9) else None,
      mappedTm2 := tm2,
      mappedBio := bio,
      version := row.version)
  }
}
