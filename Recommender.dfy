/**
 * `RecommenderSystem.recommend`: the documents a similarity search returns are
 * turned into result records with defaults and a shortened description, and,
 * when the language model is configured and the lower-cased query contains
 * `personality` or `behavior` (American spelling only: `behaviour` does not
 * fire), the records whose test types mention "Personality" are moved to the
 * front, each group keeping its order.
 */
module Recommender {
  import opened Wrappers
  import opened Text
  import opened Catalog

  /** The `k` of the similarity search. */
  const TopK: nat := 10
  /** Characters of the description kept before the ellipsis. */
  const DescriptionLimit: nat := 200
  const Ellipsis: string := "..."
  /** The re-ranking key looks for this text in the rendered test-type list. */
  const Personality: string := "Personality"

  /** One result record. */
  datatype Recommendation = Recommendation(
    url: string,
    name: string,
    description: string,
    duration: int,
    testType: seq<string>)

  /** What the similarity search did: returned the metadata of its documents, or raised. */
  datatype SearchOutcome = Found(docs: seq<Item>) | Raised

  /** The result record for one document's metadata; absent keys take their defaults. */
  function Format(meta: Item): (r: Recommendation)
    ensures r.url == (if meta.url.Some? then meta.url.value else "")
    ensures r.name == (if meta.name.Some? then meta.name.value else "")
    ensures r.duration == (if meta.duration.Some? then meta.duration.value else DefaultDuration)
    ensures r.testType == (if meta.testType.Some? then meta.testType.value else [KnowledgeAndSkills])
    ensures var d := meta.description.GetOr("");
      && |r.description| == (if |d| <= DescriptionLimit then |d| else DescriptionLimit) + |Ellipsis|
      && StartsWith(d, r.description[..|r.description| - |Ellipsis|])
      && EndsWith(r.description, Ellipsis)
      && (|d| <= DescriptionLimit ==> r.description == d + Ellipsis)
  {
    var d := meta.description.GetOr("");
    var description := Take(d, DescriptionLimit) + Ellipsis;
    assert description[..|description| - |Ellipsis|] == Take(d, DescriptionLimit);
    assert description[|description| - |Ellipsis|..] == Ellipsis;
    Recommendation(
      meta.url.GetOr(""),
      meta.name.GetOr(""),
      description,
      meta.duration.GetOr(DefaultDuration),
      meta.testType.GetOr([KnowledgeAndSkills]))
  }

  /** A formatted description never exceeds 203 characters and always ends in the ellipsis. */
  lemma DescriptionBound(meta: Item)
    ensures |Format(meta).description| <= DescriptionLimit + |Ellipsis|
    ensures EndsWith(Format(meta).description, "...")
  {
  }

  /** The records for the documents, one per document, in search order. */
  function FormatAll(docs: seq<Item>): (rs: seq<Recommendation>)
    ensures |rs| == |docs|
    ensures forall i :: 0 <= i < |docs| ==> rs[i] == Format(docs[i])
  {
    if docs == [] then [] else FormatAll(docs[..|docs| - 1]) + [Format(docs[|docs| - 1])]
  }

  /** Step 2 of `recommend`: append one record per document. */
  method FormatResults(docs: seq<Item>) returns (results: seq<Recommendation>)
    ensures results == FormatAll(docs)
  {
    results := [];
    for i := 0 to |docs|
      invariant results == FormatAll(docs[..i])
    {
      assert docs[..i + 1][..i] == docs[..i];
      var meta := docs[i];
      results := results + [Format(meta)];
    }
    assert docs[..|docs|] == docs;
  }

  /** `str(test_types)` for a list of strings: `['a', 'b']` (quote escaping left aside). */
  function Rendered(testTypes: seq<string>): (s: string)
    ensures s == "[]" <==> testTypes == []
  {
    "[" + QuotedList(testTypes) + "]"
  }

  /** The items of a rendered list: each quoted, separated by a comma and a space. */
  function QuotedList(testTypes: seq<string>): (q: string)
    ensures q == [] <==> testTypes == []
    ensures q != [] ==> q[0] == '\'' && q[|q| - 1] == '\''
  {
    if testTypes == [] then []
    else if |testTypes| == 1 then "'" + testTypes[0] + "'"
    else "'" + testTypes[0] + "', " + QuotedList(testTypes[1..])
  }

  /** A word made of none of the characters a rendered list adds around its items. */
  predicate Plain(w: string) {
    w != [] && '\'' !in w && ',' !in w && ' ' !in w && '[' !in w && ']' !in w
  }

  /** An occurrence of a plain word in `'t'` lies inside `t`. */
  lemma QuotedOnly(t: string, w: string)
    requires Plain(w) && Contains("'" + t + "'", w)
    ensures Contains(t, w)
  {
    assert "'" + t + "'" == [] + ['\''] + (t + ['\''] + []);
    ContainsAcross([], '\'', t + ['\''] + [], w);
    if Contains([], w) {
      ContainsChars([], w);
    } else {
      ContainsAcross(t, '\'', [], w);
      if Contains([], w) {
        ContainsChars([], w);
      }
    }
  }

  /** An occurrence of a plain word in `'t', rest` lies inside `t` or inside `rest`. */
  lemma QuotedConsOnly(t: string, rest: string, w: string)
    requires Plain(w) && Contains("'" + t + "', " + rest, w)
    ensures Contains(t, w) || Contains(rest, w)
  {
    var tail := [','] + ([' '] + rest);
    assert "'" + t + "', " + rest == [] + ['\''] + (t + ['\''] + tail);
    ContainsAcross([], '\'', t + ['\''] + tail, w);
    if Contains([], w) {
      ContainsChars([], w);
    } else {
      ContainsAcross(t, '\'', tail, w);
      if !Contains(t, w) {
        assert tail == [] + [','] + ([' '] + rest);
        ContainsAcross([], ',', [' '] + rest, w);
        if Contains([], w) {
          ContainsChars([], w);
        } else {
          assert [' '] + rest == [] + [' '] + rest;
          ContainsAcross([], ' ', rest, w);
          if Contains([], w) {
            ContainsChars([], w);
          }
        }
      }
    }
  }

  /** A plain word found in a rendered list is found in one of its items. */
  lemma {:induction false} QuotedListOnly(testTypes: seq<string>, w: string)
    requires Plain(w) && Contains(QuotedList(testTypes), w)
    ensures exists i :: 0 <= i < |testTypes| && Contains(testTypes[i], w)
  {
    if testTypes == [] {
      ContainsChars([], w);
    } else if |testTypes| == 1 {
      QuotedOnly(testTypes[0], w);
    } else {
      QuotedConsOnly(testTypes[0], QuotedList(testTypes[1..]), w);
      if !Contains(testTypes[0], w) {
        QuotedListOnly(testTypes[1..], w);
        var i :| 0 <= i < |testTypes[1..]| && Contains(testTypes[1..][i], w);
        assert testTypes[1..][i] == testTypes[i + 1];
      }
    }
  }

  /** Every item's occurrences of a word are occurrences in the rendered list. */
  lemma {:induction false} QuotedListEach(testTypes: seq<string>, w: string, i: int)
    requires 0 <= i < |testTypes| && Contains(testTypes[i], w)
    ensures Contains(QuotedList(testTypes), w)
  {
    var t := testTypes[0];
    if |testTypes| == 1 {
      ContainsAppend(t, "'", w);
      ContainsAppend("'", t + "'", w);
      assert "'" + (t + "'") == QuotedList(testTypes);
    } else {
      var rest := QuotedList(testTypes[1..]);
      if i == 0 {
        ContainsAppend(t, "', " + rest, w);
        ContainsAppend("'", t + ("', " + rest), w);
      } else {
        assert testTypes[1..][i - 1] == testTypes[i];
        QuotedListEach(testTypes[1..], w, i - 1);
        ContainsAppend("'" + t + "', ", rest, w);
      }
      assert "'" + (t + ("', " + rest)) == QuotedList(testTypes);
      assert "'" + t + "', " + rest == QuotedList(testTypes);
    }
  }

  /** A plain word occurs in a rendered list exactly when it occurs in one of its items. */
  lemma QuotedListContains(testTypes: seq<string>, w: string)
    requires Plain(w)
    ensures Contains(QuotedList(testTypes), w) <==> exists i :: 0 <= i < |testTypes| && Contains(testTypes[i], w)
  {
    if Contains(QuotedList(testTypes), w) {
      QuotedListOnly(testTypes, w);
    }
    if exists i :: 0 <= i < |testTypes| && Contains(testTypes[i], w) {
      var i :| 0 <= i < |testTypes| && Contains(testTypes[i], w);
      QuotedListEach(testTypes, w, i);
    }
  }

  /** A plain word occurs in `str(test_types)` exactly when it occurs in one of the test types. */
  lemma RenderedContains(testTypes: seq<string>, w: string)
    requires Plain(w)
    ensures Contains(Rendered(testTypes), w) <==> exists i :: 0 <= i < |testTypes| && Contains(testTypes[i], w)
  {
    var q := QuotedList(testTypes);
    QuotedListContains(testTypes, w);
    assert Rendered(testTypes) == [] + ['['] + (q + [']'] + []);
    if Contains(Rendered(testTypes), w) {
      ContainsAcross([], '[', q + [']'] + [], w);
      ContainsAcross(q, ']', [], w);
      if Contains([], w) {
        ContainsChars([], w);
      }
    }
    if Contains(q, w) {
      ContainsAppend(q, "]", w);
      ContainsAppend("[", q + "]", w);
      assert "[" + (q + "]") == Rendered(testTypes);
    }
  }

  /** The sort key: `"Personality" in str(x.get("test_type", ""))`. */
  predicate HasPersonality(r: Recommendation): (key: bool)
    ensures key <==> exists i :: 0 <= i < |r.testType| && Contains(r.testType[i], Personality)
  {
    RenderedContains(r.testType, Personality);
    Contains(Rendered(r.testType), Personality)
  }

  /** The words whose occurrence in the lower-cased query triggers the re-ranking. */
  const PersonalityWord: string := "personality"
  const BehaviorWord: string := "behavior"

  /** The re-ranking trigger: the lower-cased query contains "personality" or "behavior". */
  predicate Triggered(query: string): (fires: bool)
    ensures fires ==> |query| >= |BehaviorWord|
  {
    ContainsLength(Lower(query), PersonalityWord);
    ContainsLength(Lower(query), BehaviorWord);
    assert |BehaviorWord| == 8 && |PersonalityWord| == 11;
    Contains(Lower(query), PersonalityWord) || Contains(Lower(query), BehaviorWord)
  }

  /** The trigger ignores letter case: any casing of either word in the query fires it. */
  lemma TriggeredAnyCase(query: string, word: string)
    requires Lower(word) == PersonalityWord || Lower(word) == BehaviorWord
    requires Contains(query, word)
    ensures Triggered(query)
  {
    ContainsIff(query, word);
    var i :| OccursAt(query, word, i);
    assert Lower(query)[i..i + |word|] == Lower(word);
    ContainsAt(Lower(query), Lower(word), i);
  }

  /** The British spelling, in any letter case, does not fire the trigger: `behaviour` does not contain `behavior`. */
  lemma BritishSpellingDoesNotTrigger(query: string)
    requires Lower(query) == "behaviour"
    ensures !Triggered(query)
  {
    var q := Lower(query);
    ContainsIff(q, PersonalityWord);
    ContainsIff(q, BehaviorWord);
    assert !OccursAt(q, BehaviorWord, 0) by {
      assert q[0..8][7] == q[7] == 'u' != BehaviorWord[7];
    }
    assert !OccursAt(q, BehaviorWord, 1) by {
      assert q[1..9][0] == q[1] == 'e' != BehaviorWord[0];
    }
  }

  /** The records of `rs` whose key is `want`, in their order in `rs`. */
  function Select(rs: seq<Recommendation>, want: bool): (sel: seq<Recommendation>)
    ensures |sel| <= |rs|
    ensures forall i :: 0 <= i < |sel| ==> HasPersonality(sel[i]) == want
  {
    if rs == [] then []
    else
      var last := rs[|rs| - 1];
      Select(rs[..|rs| - 1], want) + if HasPersonality(last) == want then [last] else []
  }

  /** `results.sort(key=…, reverse=True)`: the records with the key first, then the others, each group in its original order. */
  function Partition(rs: seq<Recommendation>): (ranked: seq<Recommendation>)
    ensures |ranked| == |rs|
    ensures forall r :: r in ranked <==> r in rs
  {
    SelectMultiset(rs);
    assert |multiset(Select(rs, true) + Select(rs, false))| == |rs|;
    assert forall r :: r in Select(rs, true) + Select(rs, false) <==> r in multiset(rs);
    Select(rs, true) + Select(rs, false)
  }

  /** Selecting from a concatenation selects from each part. */
  lemma {:induction false} SelectAppend(a: seq<Recommendation>, b: seq<Recommendation>, want: bool)
    ensures Select(a + b, want) == Select(a, want) + Select(b, want)
  {
    if b != [] {
      var b' := b[..|b| - 1];
      assert (a + b)[..|a + b| - 1] == a + b';
      SelectAppend(a, b', want);
    } else {
      assert a + b == a;
    }
  }

  /** The two selections together hold every record exactly as often as the list does. */
  lemma {:induction false} SelectMultiset(rs: seq<Recommendation>)
    ensures multiset(Select(rs, true)) + multiset(Select(rs, false)) == multiset(rs)
  {
    if rs != [] {
      var init := rs[..|rs| - 1];
      var last := rs[|rs| - 1];
      SelectMultiset(init);
      assert rs == init + [last];
      assert multiset(rs) == multiset(init) + multiset{last};
      if HasPersonality(last) {
        assert Select(rs, true) == Select(init, true) + [last];
        assert Select(rs, false) == Select(init, false);
      } else {
        assert Select(rs, true) == Select(init, true);
        assert Select(rs, false) == Select(init, false) + [last];
      }
    }
  }

  /** Selecting from records that all have key `want` keeps them all; selecting the other key keeps none. */
  lemma {:induction false} SelectUniform(rs: seq<Recommendation>, want: bool)
    requires forall i :: 0 <= i < |rs| ==> HasPersonality(rs[i]) == want
    ensures Select(rs, want) == rs
    ensures Select(rs, !want) == []
  {
    if rs != [] {
      var init := rs[..|rs| - 1];
      var last := rs[|rs| - 1];
      assert HasPersonality(last) == want;
      SelectUniform(init, want);
      assert rs == init + [last];
    }
  }

  /** Re-ranking adds and drops nothing: the result is a permutation of its input. */
  lemma PartitionPermutation(rs: seq<Recommendation>)
    ensures |Partition(rs)| == |rs|
    ensures multiset(Partition(rs)) == multiset(rs)
  {
    SelectMultiset(rs);
    assert |multiset(Partition(rs))| == |rs|;
  }

  /** Every record with the key precedes every record without it. */
  predicate KeyFirst(rs: seq<Recommendation>) {
    forall i, j :: 0 <= i < j < |rs| && HasPersonality(rs[j]) ==> HasPersonality(rs[i])
  }

  /** The re-ranked list puts the key first. */
  lemma PartitionKeyFirst(rs: seq<Recommendation>)
    ensures KeyFirst(Partition(rs))
  {
  }

  /** Re-ranking is stable: within each group the records keep their relative order. */
  lemma PartitionStable(rs: seq<Recommendation>)
    ensures Select(Partition(rs), true) == Select(rs, true)
    ensures Select(Partition(rs), false) == Select(rs, false)
  {
    var front, back := Select(rs, true), Select(rs, false);
    SelectAppend(front, back, true);
    SelectAppend(front, back, false);
    SelectUniform(front, true);
    SelectUniform(back, false);
    assert front + [] == front;
    assert [] + back == back;
  }

  /** A list in which no record has the key is left as it is. */
  lemma UnkeyedUnmoved(rs: seq<Recommendation>)
    requires forall i :: 0 <= i < |rs| ==> !HasPersonality(rs[i])
    ensures Partition(rs) == rs
  {
    SelectUniform(rs, false);
    assert [] + rs == rs;
  }

  /** Re-ranking an already re-ranked list changes nothing. */
  lemma PartitionIdempotent(rs: seq<Recommendation>)
    ensures Partition(Partition(rs)) == Partition(rs)
  {
    PartitionStable(rs);
  }

  /** A list with the key first is its own re-ranking. */
  lemma {:induction false} KeyFirstIsPartition(rs: seq<Recommendation>)
    requires KeyFirst(rs)
    ensures Partition(rs) == rs
  {
    if rs != [] {
      var init, last := rs[..|rs| - 1], rs[|rs| - 1];
      KeyFirstIsPartition(init);
      if HasPersonality(last) {
        SelectUniform(init, true);
        assert Select(rs, true) == init + [last];
      } else {
        assert Select(rs, false) == Select(init, false) + [last];
      }
    }
  }

  /**
   * The re-ranking is the only order with the key first that keeps each group's
   * order: any such arrangement of the same groups is `Partition`.
   */
  lemma PartitionUnique(rs: seq<Recommendation>, other: seq<Recommendation>)
    requires KeyFirst(other)
    requires Select(other, true) == Select(rs, true) && Select(other, false) == Select(rs, false)
    ensures other == Partition(rs)
  {
    KeyFirstIsPartition(other);
  }

  /** Step 3 of `recommend`: the stable re-ranking, building the two groups in one pass. */
  method SortPersonalityFirst(results: seq<Recommendation>) returns (sorted: seq<Recommendation>)
    ensures sorted == Partition(results)
  {
    var front: seq<Recommendation> := [];
    var back: seq<Recommendation> := [];
    for i := 0 to |results|
      invariant front == Select(results[..i], true)
      invariant back == Select(results[..i], false)
    {
      assert results[..i + 1][..i] == results[..i];
      if HasPersonality(results[i]) {
        front := front + [results[i]];
      } else {
        back := back + [results[i]];
      }
    }
    assert results[..|results|] == results;
    sorted := front + back;
  }

  /** Re-ranking `[A, B, C]` where only A and C have the key gives `[A, C, B]`. */
  lemma PartitionExample(a: Recommendation, b: Recommendation, c: Recommendation)
    requires HasPersonality(a) && !HasPersonality(b) && HasPersonality(c)
    ensures Partition([a, b, c]) == [a, c, b]
  {
    assert [a, b, c][..2] == [a, b] && [a, b][..1] == [a] && [a][..0] == [];
    assert Select([a], true) == [a] && Select([a], false) == [];
    assert Select([a, b], true) == [a] && Select([a, b], false) == [b];
  }

  /** A record whose single test type is "Personality" has the key. */
  lemma PersonalityHasKey(r: Recommendation)
    requires r.testType == [Personality]
    ensures HasPersonality(r)
  {
    assert OccursAt(r.testType[0], Personality, 0);
    ContainsAt(r.testType[0], Personality, 0);
  }

  /** "Knowledge & Skills" does not mention "Personality": it has no capital P. */
  lemma KnowledgeLacksPersonality()
    ensures !Contains(KnowledgeAndSkills, Personality)
  {
    assert Personality[0] == 'P' && 'P' !in KnowledgeAndSkills;
    if Contains(KnowledgeAndSkills, Personality) {
      ContainsChars(KnowledgeAndSkills, Personality);
      assert false;
    }
  }

  /** A record whose test types are just "Knowledge & Skills" lacks the key. */
  lemma KnowledgeNotPersonality(r: Recommendation)
    requires r.testType == [KnowledgeAndSkills]
    ensures !HasPersonality(r)
  {
    KnowledgeLacksPersonality();
  }

  /** The engine: whether the language model was configured (`has_llm`). */
  class RecommenderSystem {
    var hasLlm: bool

    /** The engine after start-up; the key lookup and model set-up are reduced to their outcome. */
    constructor(hasLlm: bool)
      ensures this.hasLlm == hasLlm
    {
      this.hasLlm := hasLlm;
    }

    /**
     * `recommend(query)`, given what the similarity search for the query with
     * `k = 10` did: a failed search gives no results; otherwise one record per
     * document, re-ranked only when the model is configured and the lower-cased
     * query contains `personality` or `behavior`.
     */
    method Recommend(query: string, searched: SearchOutcome) returns (results: seq<Recommendation>)
      requires searched.Found? ==> |searched.docs| <= TopK
      ensures searched.Raised? ==> results == []
      ensures searched.Found? ==> |results| == |searched.docs| <= TopK
      ensures searched.Found? && !(hasLlm && Triggered(query)) ==> results == FormatAll(searched.docs)
      ensures searched.Found? && hasLlm && Triggered(query) ==> results == Partition(FormatAll(searched.docs))
    {
      if searched.Raised? {
        return [];
      }
      results := FormatResults(searched.docs);
      if hasLlm {
        if Contains(Lower(query), "personality") || Contains(Lower(query), "behavior") {
          PartitionPermutation(results);
          results := SortPersonalityFirst(results);
        }
      }
    }
  }
}
