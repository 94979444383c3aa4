/**
 * The country search box, the same on both pages: the typed text is
 * lower-cased, an empty query shows nothing, and otherwise every distinct
 * country name whose lower-cased form contains the query is listed once, in
 * order of first appearance in the data (a `Set` keeps insertion order).
 *
 * Lower-casing is a per-character folding function `fold`, given by the caller.
 */
module Search {
  import opened Dataset

  /** `s.toLowerCase()`, character by character. */
  function Lower(s: string, fold: char -> char): string {
    seq(|s|, i requires 0 <= i < |s| => fold(s[i]))
  }

  /** `needle` occurs in `hay` starting at index `k`. */
  predicate OccursAt(hay: string, needle: string, k: nat) {
    k + |needle| <= |hay| && hay[k..k + |needle|] == needle
  }

  /** `hay.includes(needle)`: `needle` occurs in `hay` as a contiguous piece. */
  predicate Contains(hay: string, needle: string) {
    exists k :: 0 <= k <= |hay| && OccursAt(hay, needle, k)
  }

  /** The search test of one name against the (already lower-cased) query. */
  predicate Matches(name: string, query: string, fold: char -> char) {
    Contains(Lower(name, fold), query)
  }

  /** The names of `names` that match `query`, in their order. */
  function MatchingNames(names: seq<string>, query: string, fold: char -> char): (r: seq<string>)
    ensures forall n | n in r :: n in names && Matches(n, query, fold)
    ensures forall n | n in names && Matches(n, query, fold) :: n in r
  {
    if |names| == 0 then []
    else
      var init, last := names[..|names| - 1], names[|names| - 1];
      assert forall n | n in init :: n in names;
      MatchingNames(init, query, fold) + (if Matches(last, query, fold) then [last] else [])
  }

  lemma MatchingNamesStep(names: seq<string>, n: string, query: string, fold: char -> char)
    ensures MatchingNames(names + [n], query, fold) ==
      MatchingNames(names, query, fold) + if Matches(n, query, fold) then [n] else []
  {
    assert (names + [n])[..|names|] == names;
  }

  /** What the result list shows for the text `input` typed into the search box. */
  function SearchResults(data: seq<Record>, input: string, fold: char -> char): seq<string> {
    var query := Lower(input, fold);
    if |query| == 0 then [] else MatchingNames(Names(data), query, fold)
  }

  /** Every name of `names` occurs in `data`, and earlier names first appear earlier. */
  ghost predicate InFirstAppearanceOrder(names: seq<string>, data: seq<Record>) {
    && (forall n | n in names :: Occurs(data, n))
    && (forall i, j :: 0 <= i < j < |names| ==> FirstIndex(data, names[i]) < FirstIndex(data, names[j]))
  }

  lemma {:induction false} MatchingNamesKeepsOrder(names: seq<string>, query: string, fold: char -> char, data: seq<Record>)
    requires InFirstAppearanceOrder(names, data)
    ensures InFirstAppearanceOrder(MatchingNames(names, query, fold), data)
  {
    if |names| > 0 {
      var init, last := names[..|names| - 1], names[|names| - 1];
      assert InFirstAppearanceOrder(init, data) by {
        forall n | n in init ensures n in names { }
        forall i, j | 0 <= i < j < |init| ensures FirstIndex(data, init[i]) < FirstIndex(data, init[j]) {
          assert init[i] == names[i] && init[j] == names[j];
        }
      }
      MatchingNamesKeepsOrder(init, query, fold, data);
      var left := MatchingNames(init, query, fold);
      if Matches(last, query, fold) {
        assert last in names;
        forall n | n in left ensures FirstIndex(data, n) < FirstIndex(data, last) {
          var p :| 0 <= p < |init| && init[p] == n;
          assert names[p] == n;
        }
        AppendKeepsOrder(left, last, data);
      }
    }
  }

  lemma AppendKeepsOrder(names: seq<string>, n: string, data: seq<Record>)
    requires InFirstAppearanceOrder(names, data) && Occurs(data, n)
    requires forall m | m in names :: FirstIndex(data, m) < FirstIndex(data, n)
    ensures InFirstAppearanceOrder(names + [n], data)
  {
    var r := names + [n];
    forall i, j | 0 <= i < j < |r| ensures FirstIndex(data, r[i]) < FirstIndex(data, r[j]) {
      assert r[i] == names[i];
      if j == |names| {
        assert names[i] in names;
      } else {
        assert r[j] == names[j];
      }
    }
  }

  /**
   * The search results: nothing for an empty query; otherwise only names that
   * contain the query, every such name of the data, no name twice, and in the
   * order in which the countries first appear in the data.
   */
  lemma SearchResultsProperties(data: seq<Record>, input: string, fold: char -> char)
    ensures var r := SearchResults(data, input, fold);
      && (|input| == 0 ==> r == [])
      && (forall n | n in r :: Matches(n, Lower(input, fold), fold) && Occurs(data, n))
      && (|input| > 0 ==> forall i :: 0 <= i < |data| && Matches(data[i].name, Lower(input, fold), fold) ==> data[i].name in r)
      && InFirstAppearanceOrder(r, data)
      && (forall i, j :: 0 <= i < j < |r| ==> r[i] != r[j])
  {
    var query := Lower(input, fold);
    var names := Names(data);
    var r := SearchResults(data, input, fold);
    if |query| > 0 {
      forall i | 0 <= i < |data| ensures data[i].name in names { }
      NamesInFirstAppearanceOrder(data);
      MatchingNamesKeepsOrder(names, query, fold, data);
    }
  }

  /** One more record adds its name to the matches when it matches and is not listed yet. */
  lemma MatchingStep(data: seq<Record>, i: nat, query: string, fold: char -> char)
    requires i < |data|
    ensures var before := MatchingNames(Names(data[..i]), query, fold); var name := data[i].name;
      MatchingNames(Names(data[..i + 1]), query, fold) ==
        before + if Matches(name, query, fold) && name !in before then [name] else []
  {
    var name := data[i].name;
    var names := Names(data[..i]);
    NamesStep(data, i);
    if name !in names {
      MatchingNamesStep(names, name, query, fold);
    }
  }

  /**
   * The input handler: lower-case the query and, when it is not empty, walk the
   * records adding each matching name to an insertion-ordered set.
   */
  method OnInput(data: seq<Record>, input: string, fold: char -> char) returns (results: seq<string>)
    ensures results == SearchResults(data, input, fold)
  {
    var query := Lower(input, fold);
    results := [];
    if |query| > 0 {
      // the insertion-ordered Set of unique names: adding a present name changes nothing
      var uniqueCountries: seq<string> := [];
      var i := 0;
      while i < |data|
        invariant 0 <= i <= |data|
        invariant uniqueCountries == MatchingNames(Names(data[..i]), query, fold)
      {
        var countryName := data[i].name;
        MatchingStep(data, i, query, fold);
        if Matches(countryName, query, fold) && countryName !in uniqueCountries {
          uniqueCountries := uniqueCountries + [countryName];
        }
        i := i + 1;
      }
      assert data[..|data|] == data;
      results := uniqueCountries;
    }
  }
}
