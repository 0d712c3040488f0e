/**
 * The offline parts of `WHOICDAPI` in `app/services/who_icd_api.py`: flattening a
 * chapter tree of ICD-11 entities, reshaping one entity, and the built-in search
 * table used when the service cannot be reached. Chapter "26" is ICD-11 Chapter 26,
 * Traditional Medicine Conditions.
 */
module WhoIcdApi {
  import opened Strings

  /** The URI prefix of every ICD-11 entity identifier. */
  const EntityPrefix: string := "http://id.who.int/icd/entity/"

  /** The Traditional Medicine chapter. */
  const Tm2Chapter: string := "26"

  /**
   * One node of the chapter structure as the service returns it. A missing key is
   * "" (none of the tested values is ""), and a missing `child` list is [].
   * `title` and `definition` are their `@value` texts.
   */
  datatype Node = Node(
    uri: string,
    code: string,
    title: string,
    definition: string,
    chapter: string,
    chapterName: string,
    classKind: string,
    children: seq<Node>)

  /** The record `_extract_entities_from_chapter` emits for a category node. */
  datatype Entity = Entity(
    id: string,
    code: string,
    display: string,
    definition: string,
    chapter: string,
    isTm2: bool,
    source: string)

  /** Python's `s.replace(pat, '')`: every non-overlapping occurrence of `pat`,
      scanned from the left, removed. */
  function RemoveAll(s: string, pat: string): (r: string)
    requires |pat| > 0
    ensures |r| <= |s|
    decreases |s|
  {
    if s == [] then []
    else if IsPrefix(pat, s) then RemoveAll(s[|pat|..], pat)
    else [s[0]] + RemoveAll(s[1..], pat)
  }

  /** Removing a pattern that does not occur changes nothing. */
  lemma {:induction false} RemoveAbsent(s: string, pat: string)
    requires |pat| > 0 && !Contains(s, pat)
    ensures RemoveAll(s, pat) == s
    decreases |s|
  {
    if s != [] {
      if |s| > |pat| {
        RemoveAbsent(s[1..], pat);
      } else {
        NotContainsLonger(s[1..], pat);
        RemoveAbsent(s[1..], pat);
      }
    }
  }

  predicate IsCategory(n: Node)
  {
    n.classKind == "category"
  }

  /** The entity built for one category node. Its id has every occurrence of the
      entity prefix removed, wherever it stands in the identifier. */
  function ToEntity(n: Node): (e: Entity)
    ensures e.isTm2 <==> n.chapter == Tm2Chapter
    ensures e.code == n.code && e.display == n.title && e.chapter == n.chapter
    ensures e.definition == n.definition && e.source == "WHO ICD-API TM2"
    ensures e.id == RemoveAll(n.uri, EntityPrefix) && |e.id| <= |n.uri|
    ensures !Contains(n.uri, EntityPrefix) ==> e.id == n.uri
  {
    var e := Entity(
      id := RemoveAll(n.uri, EntityPrefix),
      code := n.code,
      display := n.title,
      definition := n.definition,
      chapter := n.chapter,
      isTm2 := n.chapter == Tm2Chapter,
      source := "WHO ICD-API TM2");
    if Contains(n.uri, EntityPrefix) then e else RemoveAbsent(n.uri, EntityPrefix); e
  }

  /** What a node contributes by itself: one entity if it is a category, else none. */
  function Own(n: Node): (r: seq<Entity>)
    ensures |r| == if IsCategory(n) then 1 else 0
  {
    if IsCategory(n) then [ToEntity(n)] else []
  }

  /** The recursion of `_extract_entities_from_chapter`: each node's own entity, then
      its subtree's, then the following siblings'. */
  function EntitiesOf(nodes: seq<Node>): seq<Entity>
    decreases nodes
  {
    if nodes == [] then []
    else Own(nodes[0]) + EntitiesOf(nodes[0].children) + EntitiesOf(nodes[1..])
  }

  /** Appending in steps gives the same list as appending the grouped parts. */
  lemma Regroup(a: seq<Entity>, b: seq<Entity>, c: seq<Entity>, d: seq<Entity>)
    ensures a + b + c + d == a + (b + c + d)
  {
  }

  /** `_extract_entities_from_chapter`: a loop over the siblings that appends each
      category's entity and extends the list with the recursive result. */
  method ExtractEntitiesFromChapter(children: seq<Node>) returns (entities: seq<Entity>)
    ensures entities == EntitiesOf(children)
    decreases children
  {
    entities := [];
    var i := 0;
    while i < |children|
      invariant 0 <= i <= |children|
      invariant entities + EntitiesOf(children[i..]) == EntitiesOf(children)
    {
      var child := children[i];
      assert children[i..][1..] == children[i + 1..];
      var own: seq<Entity> := [];
      if IsCategory(child) {
        own := [ToEntity(child)];
      }
      var nested: seq<Entity> := [];
      if child.children != [] {
        nested := ExtractEntitiesFromChapter(child.children);
      }
      Regroup(entities, own, nested, EntitiesOf(children[i + 1..]));
      entities := entities + own + nested;
      i := i + 1;
    }
  }

  /** The nodes of a forest in pre-order: a node before its descendants, siblings
      in list order. */
  function PreOrder(nodes: seq<Node>): (r: seq<Node>)
    ensures |r| >= |nodes|
    decreases nodes
  {
    if nodes == [] then []
    else [nodes[0]] + PreOrder(nodes[0].children) + PreOrder(nodes[1..])
  }

  /** One entity for each category node of a flat list, in list order. */
  function CategoryEntities(ns: seq<Node>): (r: seq<Entity>)
    ensures |r| <= |ns|
  {
    if ns == [] then []
    else Own(ns[0]) + CategoryEntities(ns[1..])
  }

  lemma {:induction false} CategoryEntitiesAppend(a: seq<Node>, b: seq<Node>)
    ensures CategoryEntities(a + b) == CategoryEntities(a) + CategoryEntities(b)
  {
    if a == [] {
      assert a + b == b;
    } else {
      assert (a + b)[0] == a[0] && (a + b)[1..] == a[1..] + b;
      CategoryEntitiesAppend(a[1..], b);
    }
  }

  /** The extraction emits exactly one entity per category node of the tree, in
      pre-order; every other node emits nothing. */
  lemma {:induction false} EntitiesArePreOrderCategories(nodes: seq<Node>)
    ensures EntitiesOf(nodes) == CategoryEntities(PreOrder(nodes))
    decreases nodes
  {
    if nodes != [] {
      var n := nodes[0];
      EntitiesArePreOrderCategories(n.children);
      EntitiesArePreOrderCategories(nodes[1..]);
      CategoryEntitiesAppend([n] + PreOrder(n.children), PreOrder(nodes[1..]));
      CategoryEntitiesAppend([n], PreOrder(n.children));
      assert CategoryEntities([n]) == Own(n) by {
        assert [n][1..] == [];
      }
    }
  }

  /** A node that is not a category contributes nothing itself, yet its descendants
      are still visited. */
  lemma NonCategoryPassesThrough(n: Node)
    requires !IsCategory(n)
    ensures EntitiesOf([n]) == EntitiesOf(n.children)
  {
    assert [n][1..] == [];
  }

  /** A category node comes out before everything below it. */
  lemma CategoryPrecedesDescendants(n: Node)
    requires IsCategory(n)
    ensures EntitiesOf([n]) == [ToEntity(n)] + EntitiesOf(n.children)
  {
    assert [n][1..] == [];
  }

  /** The record `_parse_entity` builds; `lastSynced` is the caller's timestamp. */
  datatype ParsedEntity = ParsedEntity(
    id: string,
    code: string,
    display: string,
    definition: string,
    chapter: string,
    chapterName: string,
    isTm2: bool,
    whoApiVersion: string,
    source: string,
    lastSynced: string)

  /** The id rule of `_parse_entity`: occurrences of the prefix are removed only when
      the identifier starts with it. */
  function StripEntityPrefix(uri: string): (r: string)
    ensures !IsPrefix(EntityPrefix, uri) ==> r == uri
    ensures |r| <= |uri|
  {
    if IsPrefix(EntityPrefix, uri) then RemoveAll(uri, EntityPrefix) else uri
  }

  /** An entity URI made of the prefix and an id that does not repeat it yields
      that id. */
  lemma StripEntityPrefixOfUri(id: string)
    requires !Contains(id, EntityPrefix)
    ensures StripEntityPrefix(EntityPrefix + id) == id
  {
    var uri := EntityPrefix + id;
    assert uri[..|EntityPrefix|] == EntityPrefix;
    assert uri[|EntityPrefix|..] == id;
    RemoveAbsent(id, EntityPrefix);
  }

  /** `_parse_entity`. */
  function ParseEntity(n: Node, now: string): (e: ParsedEntity)
    ensures e.isTm2 <==> n.chapter == Tm2Chapter
    ensures e.id == StripEntityPrefix(n.uri)
    ensures e.code == n.code && e.display == n.title && e.chapterName == n.chapterName
    ensures e.whoApiVersion == "v2" && e.lastSynced == now
    ensures e.definition == n.definition && e.chapter == n.chapter && e.source == "WHO ICD-API"
  {
    ParsedEntity(
      id := StripEntityPrefix(n.uri),
      code := n.code,
      display := n.title,
      definition := n.definition,
      chapter := n.chapter,
      chapterName := n.chapterName,
      isTm2 := n.chapter == Tm2Chapter,
      whoApiVersion := "v2",
      source := "WHO ICD-API",
      lastSynced := now)
  }

  /** An item of the built-in search table. */
  datatype MockItem = MockItem(
    uri: string,
    code: string,
    title: string,
    definition: string,
    chapter: string,
    isTm2: bool)

  /** The built-in search table of `_get_mock_search_results`, in dictionary order. */
  const MockTable: seq<(string, seq<MockItem>)> := [
    ("fever", [MockItem(EntityPrefix + "123456789", "MG26", "Fever in traditional medicine",
      "Elevated body temperature in traditional medicine context", "26", true)]),
    ("diabetes", [MockItem(EntityPrefix + "555555555", "5A10", "Type 2 diabetes mellitus",
      "Diabetes mellitus characterized by insulin resistance", "5", false)]),
    ("arthritis", [MockItem(EntityPrefix + "777777777", "FA20", "Rheumatoid arthritis",
      "Chronic inflammatory joint disease", "15", false)])
  ]

  /** The items of the first `n` table entries whose key occurs in `q`. */
  function MockCollected(q: string, n: nat): seq<MockItem>
    requires n <= |MockTable|
  {
    if n == 0 then []
    else MockCollected(q, n - 1) + (if Contains(q, MockTable[n - 1].0) then MockTable[n - 1].1 else [])
  }

  /** The items of `items` in that chapter. */
  function InChapter(items: seq<MockItem>, chapter: string): (r: seq<MockItem>)
    ensures |r| <= |items|
    ensures forall k :: 0 <= k < |r| ==> r[k].chapter == chapter
    ensures forall x :: x in r <==> x in items && x.chapter == chapter
  {
    if items == [] then []
    else (if items[0].chapter == chapter then [items[0]] else []) + InChapter(items[1..], chapter)
  }

  /** What `_get_mock_search_results` returns; `chapter == ""` is the absent filter. */
  function MockSearch(query: string, chapter: string): seq<MockItem>
  {
    var collected := MockCollected(Lower(query), |MockTable|);
    Take(if chapter != "" then InChapter(collected, chapter) else collected, 10)
  }

  /** `_get_mock_search_results`: extend with the items of every key found in the
      lowercased query, keep those in `chapter` if one is given, cut at ten. */
  method GetMockSearchResults(query: string, chapter: string) returns (r: seq<MockItem>)
    ensures r == MockSearch(query, chapter)
    ensures |r| <= 10
    ensures chapter != "" ==> forall k :: 0 <= k < |r| ==> r[k].chapter == chapter
  {
    var q := Lower(query);
    var results: seq<MockItem> := [];
    var i := 0;
    while i < |MockTable|
      invariant 0 <= i <= |MockTable|
      invariant results == MockCollected(q, i)
    {
      var (key, items) := MockTable[i];
      if Contains(q, key) {
        results := results + items;
      }
      i := i + 1;
    }
    if chapter != "" {
      results := InChapter(results, chapter);
    }
    r := Take(results, 10);
  }

  /** Every collected item comes from a table entry whose key occurs in `q`. */
  lemma {:induction false} MockCollectedFromKeys(q: string, n: nat, x: MockItem)
    requires n <= |MockTable|
    ensures x in MockCollected(q, n) <==>
      exists j :: 0 <= j < n && Contains(q, MockTable[j].0) && x in MockTable[j].1
  {
    if n > 0 {
      MockCollectedFromKeys(q, n - 1, x);
    }
  }

  /** Without a table key inside the lowercased query there are no results. */
  lemma MockSearchNeedsKey(query: string, chapter: string)
    requires forall j :: 0 <= j < |MockTable| ==> !Contains(Lower(query), MockTable[j].0)
    ensures MockSearch(query, chapter) == []
  {
    var collected := MockCollected(Lower(query), |MockTable|);
    if collected != [] {
      MockCollectedFromKeys(Lower(query), |MockTable|, collected[0]);
    }
  }

  /** Keys are found anywhere in the query, ignoring case: "High Fever" finds the
      Traditional Medicine entry. */
  lemma HighFeverFindsTm2Entry()
    ensures MockSearch("High Fever", "") == MockTable[0].1
    ensures MockSearch("High Fever", "")[0].isTm2
  {
    var q := Lower("High Fever");
    assert q == "high fever";
    assert q[5..10] == "fever";
    ContainsAt(q, "fever", 5);
    assert MockTable[1].0 == "diabetes" && MockTable[2].0 == "arthritis";
    assert 'd' !in q && 'a' !in q;
    FirstTwoCharsOccur(q, "diabetes");
    FirstTwoCharsOccur(q, "arthritis");
    assert !Contains(q, MockTable[1].0) && !Contains(q, MockTable[2].0);
    var c1 := MockCollected(q, 1);
    assert c1 == MockTable[0].1 by {
      assert MockCollected(q, 0) == [];
    }
    assert MockCollected(q, 2) == c1;
    assert MockCollected(q, 3) == c1;
    assert |c1| == 1;
  }

  /** A chapter filter that no found item matches leaves nothing. */
  lemma FeverOutsideItsChapter()
    ensures MockSearch("fever", "5") == []
  {
    var q := Lower("fever");
    assert q == "fever";
    assert 'd' !in q;
    FirstTwoCharsOccur(q, MockTable[1].0);
    var collected := MockCollected(q, |MockTable|);
    forall x | x in collected
      ensures x.chapter != "5"
    {
      MockCollectedFromKeys(q, |MockTable|, x);
    }
  }
}
