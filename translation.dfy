/**
 * What `TerminologyService.translate_code` (`app/services/terminology.py`) answers,
 * stated over the three record lists and the version list: the source record is
 * found by code or id, then one of four translation paths applies (three forward
 * through a record's stored mapping fields, one reverse scan of the NAMASTE list),
 * each with its fixed confidence rule.
 */
module Translation {
  import opened Wrappers
  import opened Records
  import opened Indexing

  /** The record list that lookups in `system` read. */
  function ListOf(system: CodeSystem, namaste: seq<TermRecord>, tm2: seq<TermRecord>, bio: seq<TermRecord>)
    : seq<TermRecord>
  {
    match system
    case Namaste => namaste
    case Icd11Tm2 => tm2
    case Icd11Bio => bio
  }

  /** `_get_target_version`: the newest version label for NAMASTE ("1.0.0" when there
      is none), the fixed ICD-11 release label otherwise. */
  function TargetVersion(versions: seq<TerminologyVersion>, system: CodeSystem): string
  {
    if system == Namaste then
      (if versions != [] then versions[|versions| - 1].version else "1.0.0")
    else "2024-01"
  }

  /** The display of the record that `code` looks up to in a by-code dictionary, or
      "" when no record has that code. */
  function DisplayOf(items: seq<TermRecord>, code: string): string
  {
    var byCode := Keyed(items, ByCode);
    if code in byCode then byCode[code].display else ""
  }

  /** A dangling target code has the empty display; otherwise the display is that of
      a record carrying the code. */
  lemma DisplayOfFinds(items: seq<TermRecord>, code: string)
    ensures (forall i :: 0 <= i < |items| ==> items[i].code != code) ==> DisplayOf(items, code) == ""
    ensures (exists i :: 0 <= i < |items| && items[i].code == code) ==>
      exists i :: 0 <= i < |items| && items[i].code == code && items[i].display == DisplayOf(items, code)
  {
    KeyedDomain(items, ByCode, code);
  }

  /** The position of the first NAMASTE record, in list order, whose TM2 mapping is
      `code`. */
  function FirstMappedTo(namaste: seq<TermRecord>, code: string): (r: Option<nat>)
    ensures r.Some? ==>
      && r.value < |namaste|
      && namaste[r.value].tm2Code == code
      && forall i :: 0 <= i < r.value ==> namaste[i].tm2Code != code
    ensures r.None? ==> forall i :: 0 <= i < |namaste| ==> namaste[i].tm2Code != code
  {
    if namaste == [] then None
    else if namaste[0].tm2Code == code then Some(0)
    else match FirstMappedTo(namaste[1..], code)
      case None => None
      case Some(i) => Some(i + 1)
  }

  /** The translation pairs the source handles. */
  predicate Supported(source: CodeSystem, target: CodeSystem)
  {
    || (source == Namaste && target == Icd11Tm2)
    || (source == Namaste && target == Icd11Bio)
    || (source == Icd11Tm2 && target == Icd11Bio)
    || (source == Icd11Tm2 && target == Namaste)
  }

  /** The target a path finds: its code, display and confidence. */
  datatype Hit = Hit(code: string, display: string, confidence: real)

  /** The translation path for a found source record. `code` is the caller's input
      string, which the reverse scan compares against. */
  function TargetOf(src: TermRecord, code: string, source: CodeSystem, target: CodeSystem,
                    namaste: seq<TermRecord>, tm2: seq<TermRecord>, bio: seq<TermRecord>): Option<Hit>
  {
    if source == Namaste && target == Icd11Tm2 then
      if src.tm2Code != "" then Some(Hit(src.tm2Code, DisplayOf(tm2, src.tm2Code), src.mappingConfidence.GetOr(0.8)))
      else None
    else if source == Namaste && target == Icd11Bio then
      if src.bioCode != "" then Some(Hit(src.bioCode, DisplayOf(bio, src.bioCode), src.mappingConfidence.GetOr(0.8) * 0.9))
      else None
    else if source == Icd11Tm2 && target == Icd11Bio then
      if src.bioCode != "" then Some(Hit(src.bioCode, DisplayOf(bio, src.bioCode), 0.85))
      else None
    else if source == Icd11Tm2 && target == Namaste then ReverseHit(namaste, code)
    else None
  }

  /** The reverse path: the first NAMASTE record mapped to `code`, with nine tenths
      of its confidence, unless its own code is empty. */
  function ReverseHit(namaste: seq<TermRecord>, code: string): Option<Hit>
  {
    match FirstMappedTo(namaste, code)
    case None => None
    case Some(i) =>
      var m := namaste[i];
      if m.code != "" then Some(Hit(m.code, m.display, m.mappingConfidence.GetOr(0.8) * 0.9)) else None
  }

  /** `translate_code`. */
  function Translate(namaste: seq<TermRecord>, tm2: seq<TermRecord>, bio: seq<TermRecord>,
                     versions: seq<TerminologyVersion>, code: string, source: CodeSystem, target: CodeSystem)
    : Option<TranslateResponse>
  {
    match Lookup(ListOf(source, namaste, tm2, bio), code)
    case None => None
    case Some(src) =>
      match TargetOf(src, code, source, target, namaste, tm2, bio)
      case None => None
      case Some(h) =>
        Some(TranslateResponse(
          sourceCode := code,
          sourceDisplay := src.display,
          targetCode := h.code,
          targetDisplay := h.display,
          confidence := h.confidence,
          sourceVersion := src.version,
          targetVersion := TargetVersion(versions, target)))
  }

  /** A translation exists only for a supported pair and a source code or id that is
      present; it echoes the input code, carries the source record's display and
      version, a non-empty target code and the target system's current version. A
      biomedical source, a same-system pair or an unknown code gives `None`. */
  lemma TranslateShape(namaste: seq<TermRecord>, tm2: seq<TermRecord>, bio: seq<TermRecord>,
                       versions: seq<TerminologyVersion>, code: string, source: CodeSystem, target: CodeSystem)
    ensures var r := Translate(namaste, tm2, bio, versions, code, source, target);
      var items := ListOf(source, namaste, tm2, bio);
      && (r.Some? ==> Supported(source, target))
      && (r.Some? <==> Lookup(items, code).Some? && TargetOf(Lookup(items, code).value, code, source, target, namaste, tm2, bio).Some?)
      && (r.Some? ==>
            && r.value.sourceCode == code
            && r.value.sourceDisplay == Lookup(items, code).value.display
            && r.value.sourceVersion == Lookup(items, code).value.version
            && r.value.targetCode != ""
            && (target != Namaste ==> r.value.targetVersion == "2024-01")
            && (target == Namaste && versions != [] ==> r.value.targetVersion == versions[|versions| - 1].version))
      && ((forall i :: 0 <= i < |items| ==> items[i].code != code && items[i].id != code) ==> r.None?)
  {
    LookupFinds(ListOf(source, namaste, tm2, bio), code);
  }

  /** NAMASTE to TM2: the record's stored TM2 code, when it has one, with the stored
      confidence (0.8 when none is stored); the display is that of a TM2 record with
      the target code, or "" when the code is dangling. */
  lemma NamasteToTm2(namaste: seq<TermRecord>, tm2: seq<TermRecord>, bio: seq<TermRecord>,
                     versions: seq<TerminologyVersion>, code: string, src: TermRecord)
    requires Lookup(namaste, code) == Some(src)
    ensures var r := Translate(namaste, tm2, bio, versions, code, Namaste, Icd11Tm2);
      && (r.Some? <==> src.tm2Code != "")
      && (r.Some? ==>
            && r.value.targetCode == src.tm2Code
            && r.value.confidence == (if src.mappingConfidence.Some? then src.mappingConfidence.value else 0.8)
            && ((forall i :: 0 <= i < |tm2| ==> tm2[i].code != src.tm2Code) ==> r.value.targetDisplay == "")
            && ((exists i :: 0 <= i < |tm2| && tm2[i].code == src.tm2Code) ==>
                  exists i :: 0 <= i < |tm2| && tm2[i].code == src.tm2Code && tm2[i].display == r.value.targetDisplay))
  {
    DisplayOfFinds(tm2, src.tm2Code);
  }

  /** NAMASTE to biomedicine: the stored biomedical code, with nine tenths of the
      stored confidence. */
  lemma NamasteToBio(namaste: seq<TermRecord>, tm2: seq<TermRecord>, bio: seq<TermRecord>,
                     versions: seq<TerminologyVersion>, code: string, src: TermRecord)
    requires Lookup(namaste, code) == Some(src)
    ensures var r := Translate(namaste, tm2, bio, versions, code, Namaste, Icd11Bio);
      && (r.Some? <==> src.bioCode != "")
      && (r.Some? ==>
            && r.value.targetCode == src.bioCode
            && r.value.confidence == (if src.mappingConfidence.Some? then src.mappingConfidence.value else 0.8) * 0.9
            && ((forall i :: 0 <= i < |bio| ==> bio[i].code != src.bioCode) ==> r.value.targetDisplay == ""))
  {
    DisplayOfFinds(bio, src.bioCode);
  }

  /** TM2 to biomedicine: the TM2 record's stored biomedical code, at the fixed
      confidence 0.85. */
  lemma Tm2ToBio(namaste: seq<TermRecord>, tm2: seq<TermRecord>, bio: seq<TermRecord>,
                 versions: seq<TerminologyVersion>, code: string, src: TermRecord)
    requires Lookup(tm2, code) == Some(src)
    ensures var r := Translate(namaste, tm2, bio, versions, code, Icd11Tm2, Icd11Bio);
      && (r.Some? <==> src.bioCode != "")
      && (r.Some? ==> r.value.targetCode == src.bioCode && r.value.confidence == 0.85)
      && (r.Some? ==> ((forall i :: 0 <= i < |bio| ==> bio[i].code != src.bioCode) ==> r.value.targetDisplay == ""))
  {
    DisplayOfFinds(bio, src.bioCode);
  }

  /** TM2 to NAMASTE, the reverse path: the TM2 source must exist; then the first
      NAMASTE record in list order whose TM2 mapping equals the input string wins,
      with nine tenths of its confidence, and no such record gives `None`. */
  lemma Tm2ToNamaste(namaste: seq<TermRecord>, tm2: seq<TermRecord>, bio: seq<TermRecord>,
                     versions: seq<TerminologyVersion>, code: string, i: nat)
    requires Lookup(tm2, code).Some?
    requires i < |namaste| && namaste[i].tm2Code == code && namaste[i].code != ""
    requires forall k :: 0 <= k < i ==> namaste[k].tm2Code != code
    ensures var r := Translate(namaste, tm2, bio, versions, code, Icd11Tm2, Namaste);
      && r.Some?
      && r.value.targetCode == namaste[i].code
      && r.value.targetDisplay == namaste[i].display
      && r.value.confidence == (if namaste[i].mappingConfidence.Some? then namaste[i].mappingConfidence.value else 0.8) * 0.9
  {
    assert FirstMappedTo(namaste, code) == Some(i);
  }

  /** With no NAMASTE record mapped to the input string, the reverse path finds
      nothing, even when the TM2 record exists. */
  lemma Tm2ToNamasteUnmapped(namaste: seq<TermRecord>, tm2: seq<TermRecord>, bio: seq<TermRecord>,
                             versions: seq<TerminologyVersion>, code: string)
    requires forall k :: 0 <= k < |namaste| ==> namaste[k].tm2Code != code
    ensures Translate(namaste, tm2, bio, versions, code, Icd11Tm2, Namaste).None?
  {
  }

  /** The reverse scan compares mappings with the caller's input string, not with the
      code of the TM2 record that string resolved to: a TM2 record addressed by its id
      is found, yet the NAMASTE record mapped to its code is not, while the same record
      addressed by its code translates. */
  lemma ReverseScanUsesInputString(t: TermRecord, n: TermRecord)
    requires t.id == "TM2_A" && t.code == "A"
    requires n.tm2Code == "A" && n.code == "N1"
    ensures Lookup([t], "TM2_A") == Some(t)
    ensures Translate([n], [t], [], [], "TM2_A", Icd11Tm2, Namaste).None?
    ensures Translate([n], [t], [], [], "A", Icd11Tm2, Namaste).Some?
  {
    LookupFinds([t], "TM2_A");
    LookupFinds([t], "A");
    Tm2ToNamaste([n], [t], [], [], "A", 0);
  }
}
