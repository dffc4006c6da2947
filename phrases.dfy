/**
 * The Arabic phrase book: a list of categories, each holding phrases, looked
 * up by category and searched by a query text.
 */
module Phrases {
  import opened Options
  import opened Subsequences

  datatype Phrase = Phrase(
    id: string,
    english: string,
    arabic: string,
    pronunciation: string,
    context: Option<string>)

  datatype PhrasesCategory = PhrasesCategory(id: string, name: string, phrases: seq<Phrase>)

  // ---------------------------------------------------------------------
  // getPhrasesByCategory
  // ---------------------------------------------------------------------

  /** `ARABIC_PHRASES.find(cat => cat.id === categoryId)`, and its phrases or `[]`. */
  function PhrasesByCategory(categories: seq<PhrasesCategory>, categoryId: string): seq<Phrase> {
    if categories == [] then []
    else if categories[0].id == categoryId then categories[0].phrases
    else PhrasesByCategory(categories[1..], categoryId)
  }

  /** The phrases of the first category with that id; none when no category has it. */
  lemma {:induction false} PhrasesByCategoryFirstMatch(categories: seq<PhrasesCategory>, categoryId: string)
    ensures (forall c :: c in categories ==> c.id != categoryId) ==> PhrasesByCategory(categories, categoryId) == []
    ensures forall i :: 0 <= i < |categories| && categories[i].id == categoryId
                        && (forall j :: 0 <= j < i ==> categories[j].id != categoryId)
                        ==> PhrasesByCategory(categories, categoryId) == categories[i].phrases
  {
    if categories != [] {
      PhrasesByCategoryFirstMatch(categories[1..], categoryId);
      var rest := categories[1..];
      forall i | 0 < i < |categories| && categories[i].id == categoryId
                 && (forall j :: 0 <= j < i ==> categories[j].id != categoryId)
        ensures PhrasesByCategory(categories, categoryId) == categories[i].phrases
      {
        assert categories[0].id != categoryId;
        assert rest[i - 1] == categories[i];
        forall j | 0 <= j < i - 1 ensures rest[j].id != categoryId { assert rest[j] == categories[j + 1]; }
      }
    }
  }

  // ---------------------------------------------------------------------
  // The match test of searchPhrases
  // ---------------------------------------------------------------------

  /** `toLowerCase` on one character (ASCII letters). */
  function LowerChar(c: char): char {
    if 'A' <= c <= 'Z' then ((c as int) + 32) as char else c
  }

  function Lower(s: string): (r: string)
    ensures |r| == |s| && forall i :: 0 <= i < |s| ==> r[i] == LowerChar(s[i])
  {
    seq(|s|, i requires 0 <= i < |s| => LowerChar(s[i]))
  }

  /** `part` occurs in `text` starting at position `i`. */
  predicate OccursAt(text: string, part: string, i: nat) {
    i + |part| <= |text| && text[i..i + |part|] == part
  }

  /** `text.includes(part)`. */
  predicate Includes(text: string, part: string) {
    exists i: nat :: i <= |text| && OccursAt(text, part, i)
  }

  /** English and pronunciation are compared case-insensitively, Arabic exactly. */
  predicate Matches(p: Phrase, query: string) {
    || Includes(Lower(p.english), Lower(query))
    || Includes(p.arabic, query)
    || Includes(Lower(p.pronunciation), Lower(query))
  }

  /** `phrases.filter(phrase => Matches(phrase, query))`. */
  function MatchingPhrases(phrases: seq<Phrase>, query: string): seq<Phrase> {
    if phrases == [] then []
    else
      var rest := MatchingPhrases(phrases[..|phrases| - 1], query);
      var p := phrases[|phrases| - 1];
      if Matches(p, query) then rest + [p] else rest
  }

  /** All phrases, category after category. */
  function AllPhrases(categories: seq<PhrasesCategory>): seq<Phrase> {
    if categories == [] then []
    else AllPhrases(categories[..|categories| - 1]) + categories[|categories| - 1].phrases
  }

  lemma {:induction false} MatchingConcat(a: seq<Phrase>, b: seq<Phrase>, query: string)
    ensures MatchingPhrases(a + b, query) == MatchingPhrases(a, query) + MatchingPhrases(b, query)
    decreases |b|
  {
    if b == [] {
      assert a + b == a;
    } else {
      var front := b[..|b| - 1];
      assert (a + b)[..|a + b| - 1] == a + front;
      assert (a + b)[|a + b| - 1] == b[|b| - 1];
      MatchingConcat(a, front, query);
    }
  }

  // ---------------------------------------------------------------------
  // searchPhrases
  // ---------------------------------------------------------------------

  /** `searchPhrases(query)`: each category's matching phrases pushed onto `results` in turn. */
  method SearchPhrases(categories: seq<PhrasesCategory>, query: string) returns (results: seq<Phrase>)
    ensures results == MatchingPhrases(AllPhrases(categories), query)
  {
    results := [];
    for i := 0 to |categories|
      invariant results == MatchingPhrases(AllPhrases(categories[..i]), query)
    {
      assert categories[..i + 1][..i] == categories[..i];
      MatchingConcat(AllPhrases(categories[..i]), categories[i].phrases, query);
      results := results + MatchingPhrases(categories[i].phrases, query);
    }
    assert categories[..|categories|] == categories;
  }

  /** Each matching phrase occurs in the result as often as in the input; no other phrase occurs. */
  lemma {:induction false} MatchingCounts(phrases: seq<Phrase>, query: string, p: Phrase)
    ensures multiset(MatchingPhrases(phrases, query))[p] == if Matches(p, query) then multiset(phrases)[p] else 0
  {
    if phrases != [] {
      var front := phrases[..|phrases| - 1];
      MatchingCounts(front, query, p);
      assert phrases == front + [phrases[|phrases| - 1]];
    }
  }

  /** A phrase is found exactly when it is in the phrase book and matches the query. */
  lemma {:induction false} MatchingMembers(phrases: seq<Phrase>, query: string, p: Phrase)
    ensures p in MatchingPhrases(phrases, query) <==> p in phrases && Matches(p, query)
  {
    if phrases != [] {
      var front := phrases[..|phrases| - 1];
      MatchingMembers(front, query, p);
      assert phrases == front + [phrases[|phrases| - 1]];
    }
  }

  /** The results keep the phrase book's order. */
  lemma {:induction false} MatchingIsSubsequence(phrases: seq<Phrase>, query: string)
    ensures IsSubsequence(MatchingPhrases(phrases, query), phrases)
  {
    if phrases != [] {
      var front := phrases[..|phrases| - 1];
      MatchingIsSubsequence(front, query);
      var r := MatchingPhrases(phrases, query);
      if Matches(phrases[|phrases| - 1], query) {
        assert r[..|r| - 1] == MatchingPhrases(front, query);
      }
    }
  }

  /** Every text includes the empty text. */
  lemma IncludesEmpty(text: string)
    ensures Includes(text, "")
  {
    assert OccursAt(text, "", 0);
  }

  /** The empty query finds every phrase. */
  lemma {:induction false} EmptyQueryMatchesAll(phrases: seq<Phrase>)
    ensures MatchingPhrases(phrases, "") == phrases
  {
    if phrases != [] {
      var p := phrases[|phrases| - 1];
      IncludesEmpty(p.arabic);
      EmptyQueryMatchesAll(phrases[..|phrases| - 1]);
    }
  }

  /** Search results: exactly the matching phrases of the whole book, in book order, and all of them for "". */
  lemma SearchResults(categories: seq<PhrasesCategory>, query: string, p: Phrase)
    ensures var found := MatchingPhrases(AllPhrases(categories), query);
            && (p in found <==> p in AllPhrases(categories) && Matches(p, query))
            && IsSubsequence(found, AllPhrases(categories))
            && (query == "" ==> found == AllPhrases(categories))
  {
    MatchingMembers(AllPhrases(categories), query, p);
    MatchingIsSubsequence(AllPhrases(categories), query);
    if query == "" { EmptyQueryMatchesAll(AllPhrases(categories)); }
  }

  /** A phrase is in the book exactly when some category holds it. */
  lemma {:induction false} AllPhrasesMembers(categories: seq<PhrasesCategory>, p: Phrase)
    ensures p in AllPhrases(categories) <==> exists c :: c in categories && p in c.phrases
  {
    if categories != [] {
      var front := categories[..|categories| - 1];
      AllPhrasesMembers(front, p);
      assert categories == front + [categories[|categories| - 1]];
    }
  }
}
