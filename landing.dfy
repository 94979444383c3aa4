/**
 * The landing page: one summary per country (latest Life Ladder score, its
 * year, and the percent change against the second-newest entry), and the five
 * card sections built from the summaries.
 *
 * The overall, most-challenged and alphabetical sections sort ONE shared array
 * of summaries in place, one after the other; the two percent-change sections
 * recompute the summaries from the raw records into arrays of their own.
 */
module Landing {
  import opened Dataset
  import opened Sorting

  /** `{ year, score }`: what the grouping keeps of a record. */
  datatype Entry = Entry(year: int, score: real)

  /** A percent change, or `'N/A'` for a country observed in a single year. */
  datatype Change = NA | Pct(value: real)

  datatype Summary = Summary(name: string, latestScore: real, latestYear: int, percentChange: Change)

  /**
   * Every record carries a Life Ladder score and none is zero (a zero prior
   * score would make the percent change divide by zero).
   */
  ghost predicate Scored(data: seq<Record>) {
    forall r | r in data :: LifeLadder in r.values && r.values[LifeLadder] != 0.0
  }

  function Score(r: Record): real
    requires LifeLadder in r.values
  {
    r.values[LifeLadder]
  }

  function EntryOf(r: Record): Entry
    requires LifeLadder in r.values
  {
    Entry(r.year, Score(r))
  }

  function Entries(rs: seq<Record>): (es: seq<Entry>)
    requires forall r | r in rs :: LifeLadder in r.values
  {
    seq(|rs|, i requires 0 <= i < |rs| => EntryOf(rs[i]))
  }

  /** The list the grouping builds for country `name`: its records' entries, in input order. */
  function Group(data: seq<Record>, name: string): seq<Entry>
    requires Scored(data)
  {
    Entries(RecordsOf(data, name))
  }

  /** `(a, b) => b.year - a.year`: newest year first. */
  function ByYearDesc(): Comparator<Entry> {
    (a: Entry, b: Entry) => (b.year - a.year) as real
  }

  function AnyEntry(): Entry -> bool {
    (e: Entry) => true
  }

  /**
   * The summary of one country from its entries: the newest entry after the
   * descending-year sort gives the latest score and year, the next one the prior
   * score of the percent change.
   */
  function Summarize(name: string, entries: seq<Entry>): Summary
    requires |entries| > 0 && forall e | e in entries :: e.score != 0.0
  {
    var sorted := Sort(entries, ByYearDesc());
    SortPermutes(entries, ByYearDesc());
    var latest := sorted[0];
    Summary(name, latest.score, latest.year,
      if |sorted| > 1 then
        assert sorted[1] in multiset(entries);
        Pct(PercentChange(latest.score, sorted[1].score))
      else NA)
  }

  lemma ScoredGroup(data: seq<Record>, name: string)
    requires Scored(data)
    ensures forall e | e in Group(data, name) :: e.score != 0.0
  {
    var rs := RecordsOf(data, name);
    forall e | e in Group(data, name) ensures e.score != 0.0 {
      var i :| 0 <= i < |rs| && Group(data, name)[i] == e;
      assert rs[i] in rs;
    }
  }

  function CountrySummary(data: seq<Record>, name: string): Summary
    requires Scored(data) && Occurs(data, name)
  {
    ScoredGroup(data, name);
    Summarize(name, Group(data, name))
  }

  /** What `processCountryData` returns: one summary per country, in order of first appearance. */
  function Summaries(data: seq<Record>): (p: seq<Summary>)
    requires Scored(data)
  {
    var names := Names(data);
    seq(|names|, i requires 0 <= i < |names| => CountrySummary(data, names[i]))
  }

  // ---------------------------------------------------------------------------
  // Properties of the summaries

  lemma EntryYearOrderConsistent()
    ensures ConsistentOn(ByYearDesc(), AnyEntry())
  {
  }

  /** The newest-first sort of entries: a permutation of them, in non-increasing year order. */
  lemma YearSorted(entries: seq<Entry>)
    ensures var sorted := Sort(entries, ByYearDesc());
      && multiset(sorted) == multiset(entries)
      && forall a, b :: 0 <= a < b < |sorted| ==> sorted[a].year >= sorted[b].year
  {
    SortPermutes(entries, ByYearDesc());
    EntryYearOrderConsistent();
    SortSorted(entries, ByYearDesc(), AnyEntry());
    var sorted := Sort(entries, ByYearDesc());
    forall a, b | 0 <= a < b < |sorted| ensures sorted[a].year >= sorted[b].year {
      assert ByYearDesc()(sorted[a], sorted[b]) <= 0.0;
    }
  }

  /**
   * After the stable newest-first sort, the first entry is the first entry of
   * the newest year in input order.
   */
  lemma NewestFirst(entries: seq<Entry>) returns (i: nat)
    requires |entries| > 0
    ensures var sorted := Sort(entries, ByYearDesc());
      && i < |entries| && entries[i] == sorted[0]
      && (forall k :: 0 <= k < |entries| ==> entries[k].year <= sorted[0].year)
      && (forall k :: 0 <= k < i ==> entries[k].year < sorted[0].year)
  {
    var cmp := ByYearDesc();
    var sorted := Sort(entries, cmp);
    assert forall k :: 0 <= k < |entries| ==> entries[k].year <= sorted[0].year by {
      YearSorted(entries);
      forall k | 0 <= k < |entries| ensures entries[k].year <= sorted[0].year {
        assert entries[k] in multiset(sorted);
      }
    }
    var top := sorted[0];
    assert TiesWith(sorted, cmp, top) == TiesWith(entries, cmp, top) by {
      EntryYearOrderConsistent();
      SortStable(entries, cmp, AnyEntry(), top);
    }
    assert cmp(sorted[0], top) == 0.0;
    SomeTie(sorted, cmp, top, 0);
    var t := FirstTie(sorted, cmp, top);
    assert t == 0;
    i := FirstTie(entries, cmp, top);
  }

  /** In a newest-first permutation of `entries`, the second entry is the newest apart from entry `i`. */
  lemma SecondNewest(entries: seq<Entry>, sorted: seq<Entry>, i: nat) returns (j: nat)
    requires |sorted| == |entries| > 1 && i < |entries|
    requires multiset(sorted) == multiset(entries)
    requires forall a, b :: 0 <= a < b < |sorted| ==> sorted[a].year >= sorted[b].year
    requires entries[i] == sorted[0]
    ensures j < |entries| && j != i && entries[j] == sorted[1]
    ensures forall k :: 0 <= k < |entries| && k != i ==> entries[k].year <= entries[j].year
  {
    var rest := sorted[1..];
    assert sorted == [sorted[0]] + rest;
    assert multiset(rest) == multiset(entries) - multiset{entries[i]};
    assert sorted[1] in multiset(rest) by {
      assert rest[0] == sorted[1];
    }
    j := OtherIndex(entries, i, sorted[1]);
    forall k | 0 <= k < |entries| && k != i ensures entries[k].year <= entries[j].year {
      OthersRemain(entries, i, k);
      assert entries[k] in multiset(rest);
      var m :| 0 <= m < |rest| && rest[m] == entries[k];
      assert entries[k] == sorted[m + 1];
    }
  }

  /**
   * After the stable newest-first sort, the second entry is the first entry
   * in input order, apart from entry `i`, of the newest remaining year.
   */
  lemma PriorFirst(entries: seq<Entry>, i: nat) returns (j: nat)
    requires |entries| > 1 && i < |entries|
    requires entries[i] == Sort(entries, ByYearDesc())[0]
    requires forall k :: 0 <= k < i ==> entries[k].year < entries[i].year
    ensures j < |entries| && j != i && entries[j] == Sort(entries, ByYearDesc())[1]
    ensures forall k :: 0 <= k < |entries| && k != i ==> entries[k].year <= entries[j].year
    ensures forall k :: 0 <= k < j && k != i ==> entries[k].year < entries[j].year
  {
    var cmp := ByYearDesc();
    var sorted := Sort(entries, cmp);
    YearSorted(entries);
    var j0 := SecondNewest(entries, sorted, i);
    EntryYearOrderConsistent();
    if sorted[1].year < sorted[0].year {
      var key := sorted[1];
      SortStable(entries, cmp, AnyEntry(), key);
      SomeTie(sorted, cmp, key, 1);
      var t := FirstTie(sorted, cmp, key);
      assert t == 1 by {
        assert cmp(sorted[0], key) != 0.0;
      }
      j := FirstTie(entries, cmp, key);
    } else {
      var top := sorted[0];
      SortStable(entries, cmp, AnyEntry(), top);
      TwoTies(sorted, cmp, top, 0, 1);
      var t := SecondTie(sorted, cmp, top, 0);
      assert t == 1;
      j := SecondTie(entries, cmp, top, i);
    }
  }

  /**
   * The summary of a country's entries, in terms of the entries: the latest
   * year is the newest year and the latest score that of the first entry (in
   * input order) of that year, entry `i`; the percent change is `'N/A'` exactly
   * when there is one entry, and otherwise is taken against entry `j`: the
   * first entry (in input order) other than `i` of the newest remaining year.
   */
  lemma SummarizeMeaning(name: string, entries: seq<Entry>) returns (i: nat, j: nat)
    requires |entries| > 0 && forall e | e in entries :: e.score != 0.0
    ensures var s := Summarize(name, entries);
      && s.name == name
      && i < |entries| && entries[i].year == s.latestYear && entries[i].score == s.latestScore
      && (forall k :: 0 <= k < |entries| ==> entries[k].year <= s.latestYear)
      && (forall k :: 0 <= k < i ==> entries[k].year < s.latestYear)
      && (s.percentChange == NA <==> |entries| == 1)
      && (|entries| > 1 ==>
            && j < |entries| && j != i
            && s.percentChange == Pct(PercentChange(s.latestScore, entries[j].score))
            && (forall k :: 0 <= k < |entries| && k != i ==> entries[k].year <= entries[j].year)
            && forall k :: 0 <= k < j && k != i ==> entries[k].year < entries[j].year)
  {
    i := NewestFirst(entries);
    j := 0;
    if |entries| > 1 {
      j := PriorFirst(entries, i);
    }
  }

  /**
   * How each summary derives from its country's records `rs`: the latest year
   * is the newest year and the latest score that of the first record (in input
   * order) of that year, `rs[i]`; the percent change is `'N/A'` exactly when
   * the country has one record, and otherwise is taken against `rs[j]`: the
   * first record (in input order) other than `rs[i]` of the newest remaining year.
   */
  lemma NewestAndPrior(data: seq<Record>, name: string) returns (i: nat, j: nat)
    requires Scored(data) && Occurs(data, name)
    ensures var rs := RecordsOf(data, name); var s := CountrySummary(data, name);
      && s.name == name
      && i < |rs| && rs[i].year == s.latestYear && Score(rs[i]) == s.latestScore
      && (forall k :: 0 <= k < |rs| ==> rs[k].year <= s.latestYear)
      && (forall k :: 0 <= k < i ==> rs[k].year < s.latestYear)
      && (s.percentChange == NA <==> |rs| == 1)
      && (|rs| > 1 ==>
            && j < |rs| && j != i
            && s.percentChange == Pct(PercentChange(s.latestScore, Score(rs[j])))
            && (forall k :: 0 <= k < |rs| && k != i ==> rs[k].year <= rs[j].year)
            && forall k :: 0 <= k < j && k != i ==> rs[k].year < rs[j].year)
  {
    var rs := RecordsOf(data, name);
    var entries := Group(data, name);
    ScoredGroup(data, name);
    i, j := SummarizeMeaning(name, entries);
    assert forall r | r in rs :: LifeLadder in r.values;
    assert forall k :: 0 <= k < |rs| ==> rs[k] in rs;
    assert forall k :: 0 <= k < |entries| ==> entries[k] in entries;
    EntriesOfRecords(rs, entries, Summarize(name, entries), i, j);
  }

  /** The facts of `SummarizeMeaning`, read back from entries to the records they came from. */
  lemma EntriesOfRecords(rs: seq<Record>, entries: seq<Entry>, s: Summary, i: nat, j: nat)
    requires forall r | r in rs :: LifeLadder in r.values
    requires forall k :: 0 <= k < |rs| ==> LifeLadder in rs[k].values
    requires entries == Entries(rs)
    requires forall k :: 0 <= k < |entries| ==> entries[k].score != 0.0
    requires i < |entries| && entries[i].year == s.latestYear && entries[i].score == s.latestScore
    requires forall k :: 0 <= k < |entries| ==> entries[k].year <= s.latestYear
    requires forall k :: 0 <= k < i ==> entries[k].year < s.latestYear
    requires |entries| > 1 ==>
      && j < |entries| && j != i
      && s.percentChange == Pct(PercentChange(s.latestScore, entries[j].score))
      && (forall k :: 0 <= k < |entries| && k != i ==> entries[k].year <= entries[j].year)
      && forall k :: 0 <= k < j && k != i ==> entries[k].year < entries[j].year
    ensures i < |rs| && rs[i].year == s.latestYear && Score(rs[i]) == s.latestScore
    ensures forall k :: 0 <= k < |rs| ==> rs[k].year <= s.latestYear
    ensures forall k :: 0 <= k < i ==> rs[k].year < s.latestYear
    ensures |rs| > 1 ==>
      && j < |rs| && j != i
      && s.percentChange == Pct(PercentChange(s.latestScore, Score(rs[j])))
      && (forall k :: 0 <= k < |rs| && k != i ==> rs[k].year <= rs[j].year)
      && forall k :: 0 <= k < j && k != i ==> rs[k].year < rs[j].year
  {
    assert forall k :: 0 <= k < |rs| ==> entries[k] == EntryOf(rs[k]);
  }
  /**
   * The summaries of a country list: one per distinct country, in order of first
   * appearance, each for its own country.
   */
  lemma SummariesProperties(data: seq<Record>)
    requires Scored(data)
    ensures var p := Summaries(data);
      && |p| == |Names(data)|
      && (forall i :: 0 <= i < |p| ==> p[i].name == Names(data)[i] && p[i] == CountrySummary(data, p[i].name))
      && (forall i, j :: 0 <= i < j < |p| ==> p[i].name != p[j].name)
      && (forall s | s in p :: Occurs(data, s.name) && s == CountrySummary(data, s.name))
  {
  }

  // ---------------------------------------------------------------------------
  // processCountryData, as the source runs it

  lemma EntriesAppend(a: seq<Record>, b: seq<Record>)
    requires forall r | r in a + b :: LifeLadder in r.values
    ensures forall r | r in a :: LifeLadder in r.values
    ensures forall r | r in b :: LifeLadder in r.values
    ensures Entries(a + b) == Entries(a) + Entries(b)
  {
    assert forall r | r in a :: r in a + b;
    assert forall r | r in b :: r in a + b;
  }

  /** The entries of one more record, in the grouping of a prefix of the data. */
  lemma GroupStep(data: seq<Record>, i: nat, name: string)
    requires Scored(data) && i < |data|
    ensures Scored(data[..i]) && Scored(data[..i + 1])
    ensures Group(data[..i + 1], name) ==
      Group(data[..i], name) + if data[i].name == name then [EntryOf(data[i])] else []
  {
    ScoredPrefix(data, i);
    ScoredPrefix(data, i + 1);
    RecordsOfStep(data, i, name);
    assert data[i] in data;
    var extra := if data[i].name == name then [data[i]] else [];
    EntriesAppend(RecordsOf(data[..i], name), extra);
    assert Entries(extra) == if data[i].name == name then [EntryOf(data[i])] else [];
  }

  /**
   * One country's summary, as the `map` callback computes it: sort the
   * country's entries newest first, then read the first two.
   */
  method SummarizeCountry(name: string, entries: seq<Entry>) returns (s: Summary)
    requires |entries| > 0 && forall e | e in entries :: e.score != 0.0
    ensures s == Summarize(name, entries)
  {
    var a := NewArray(entries);
    SortInPlace(a, ByYearDesc());
    var latestEntry := a[0];
    var percentChange := NA;
    if a.Length > 1 {
      var priorEntry := a[1];
      assert priorEntry.score != 0.0 by {
        SortPermutes(entries, ByYearDesc());
        assert priorEntry in multiset(entries);
      }
      percentChange := Pct(((latestEntry.score - priorEntry.score) / priorEntry.score) * 100.0);
    }
    s := Summary(name, latestEntry.score, latestEntry.year, percentChange);
  }

  lemma ScoredPrefix(data: seq<Record>, i: nat)
    requires Scored(data) && i <= |data|
    ensures Scored(data[..i])
  {
    forall r | r in data[..i] ensures r in data { }
  }

  /**
   * The dictionary the grouping `forEach` builds from `data`: each record
   * appends its `{ year, score }` to its country's list, starting a new list
   * for a country not seen before.
   */
  function GroupMap(data: seq<Record>): map<string, seq<Entry>>
    requires Scored(data)
  {
    if |data| == 0 then map[]
    else
      var init, last := data[..|data| - 1], data[|data| - 1];
      ScoredPrefix(data, |data| - 1);
      assert last in data;
      var m := GroupMap(init);
      var started := if last.name in m then m else m[last.name := []];
      started[last.name := started[last.name] + [EntryOf(last)]]
  }

  /**
   * The dictionary has a key for exactly the countries of the data, and each
   * key holds the entries of that country's records, in input order.
   */
  lemma {:induction false} GroupMapGroups(data: seq<Record>)
    requires Scored(data)
    ensures forall n :: n in GroupMap(data) <==> Occurs(data, n)
    ensures forall n | n in GroupMap(data) :: GroupMap(data)[n] == Group(data, n)
  {
    if |data| > 0 {
      var i := |data| - 1;
      var init, last := data[..i], data[i];
      ScoredPrefix(data, i);
      GroupMapGroups(init);
      assert data[..i + 1] == data;
      var m := GroupMap(data);
      forall n ensures n in m <==> Occurs(data, n) {
        RecordsOfStep(data, i, n);
      }
      forall n | n in m ensures m[n] == Group(data, n) {
        GroupStep(data, i, n);
        if n == last.name && n !in GroupMap(init) {
          assert Group(init, n) == [];
        }
      }
    }
  }

  lemma GroupMapStep(data: seq<Record>, i: nat)
    requires Scored(data) && i < |data|
    ensures Scored(data[..i]) && Scored(data[..i + 1]) && data[i] in data
    ensures var m := GroupMap(data[..i]); var name := data[i].name;
      var started := if name in m then m else m[name := []];
      GroupMap(data[..i + 1]) == started[name := started[name] + [EntryOf(data[i])]]
  {
    ScoredPrefix(data, i);
    ScoredPrefix(data, i + 1);
    assert data[..i + 1][..i] == data[..i];
    assert data[i] in data;
  }

  /**
   * The first half of `processCountryData`: the dictionary from each country
   * name to the `{ year, score }` entries of its records, and its keys in
   * insertion order.
   */
  method GroupByCountry(data: seq<Record>) returns (countryMap: map<string, seq<Entry>>, keys: seq<string>)
    requires Scored(data)
    ensures keys == Names(data)
    ensures countryMap == GroupMap(data)
  {
    countryMap := map[];
    keys := [];
    var i := 0;
    while i < |data|
      invariant 0 <= i <= |data|
      invariant keys == Names(data[..i])
      invariant countryMap == GroupMap(data[..i])
    {
      var countryName := data[i].name;
      var entry := Entry(data[i].year, data[i].values[LifeLadder]);
      assert countryName in countryMap <==> countryName in keys by {
        GroupMapGroups(data[..i]);
      }
      ghost var before := countryMap;
      if countryName !in countryMap {
        countryMap := countryMap[countryName := []];
        keys := keys + [countryName];
      }
      countryMap := countryMap[countryName := countryMap[countryName] + [entry]];
      assert keys == Names(data[..i + 1]) by {
        NamesStep(data, i);
      }
      assert countryMap == GroupMap(data[..i + 1]) by {
        GroupMapStep(data, i);
        assert before == GroupMap(data[..i]);
      }
      i := i + 1;
    }
    assert data[..|data|] == data;
  }

  /**
   * The `map` over the dictionary's keys: one summary per key, in key order.
   */
  method SummarizeKeys(countryMap: map<string, seq<Entry>>, keys: seq<string>) returns (p: seq<Summary>)
    requires forall n | n in keys :: n in countryMap && |countryMap[n]| > 0
    requires forall n, e | n in keys && n in countryMap && e in countryMap[n] :: e.score != 0.0
    ensures |p| == |keys|
    ensures forall k :: 0 <= k < |keys| ==> p[k] == Summarize(keys[k], countryMap[keys[k]])
  {
    p := [];
    var j := 0;
    while j < |keys|
      invariant 0 <= j <= |keys|
      invariant |p| == j
      invariant forall k :: 0 <= k < j ==> p[k] == Summarize(keys[k], countryMap[keys[k]])
    {
      var countryName := keys[j];
      var s := SummarizeCountry(countryName, countryMap[countryName]);
      p := p + [s];
      j := j + 1;
    }
  }

  /**
   * `processCountryData`: group the records by country into a dictionary whose
   * keys keep their insertion order, then summarize each country in key order.
   * The result is a new array.
   */
  method ProcessCountryData(data: seq<Record>) returns (processed: array<Summary>)
    requires Scored(data)
    ensures fresh(processed)
    ensures processed[..] == Summaries(data)
  {
    var countryMap, keys := GroupByCountry(data);
    assert forall n | n in keys :: n in countryMap && Occurs(data, n) && countryMap[n] == Group(data, n) by {
      GroupMapGroups(data);
    }
    assert forall n, e: Entry | n in keys && n in countryMap && e in countryMap[n] :: e.score != 0.0 by {
      forall n | n in keys ensures forall e: Entry | e in countryMap[n] :: e.score != 0.0 {
        ScoredGroup(data, n);
      }
    }
    var p := SummarizeKeys(countryMap, keys);
    SummariesOfGrouping(data, countryMap, keys, p);
    processed := NewArray(p);
  }

  lemma SummariesOfGrouping(data: seq<Record>, countryMap: map<string, seq<Entry>>, keys: seq<string>, p: seq<Summary>)
    requires Scored(data) && keys == Names(data)
    requires forall n | n in keys :: n in countryMap && Occurs(data, n) && countryMap[n] == Group(data, n)
    requires forall n | n in keys :: |countryMap[n]| > 0
    requires forall n, e: Entry | n in keys && n in countryMap && e in countryMap[n] :: e.score != 0.0
    requires |p| == |keys|
    requires forall k :: 0 <= k < |keys| ==> p[k] == Summarize(keys[k], countryMap[keys[k]])
    ensures p == Summaries(data)
  {
    var q := Summaries(data);
    forall k | 0 <= k < |p| ensures p[k] == q[k] {
      assert keys[k] in keys;
    }
  }

  // ---------------------------------------------------------------------------
  // The card sections

  /** `(a, b) => b.latestScore - a.latestScore`: highest score first. */
  function ByScoreDesc(): Comparator<Summary> {
    (a: Summary, b: Summary) => b.latestScore - a.latestScore
  }

  /** `(a, b) => a.latestScore - b.latestScore`: lowest score first. */
  function ByScoreAsc(): Comparator<Summary> {
    (a: Summary, b: Summary) => a.latestScore - b.latestScore
  }

  /**
   * `x - y` on two percent changes. Subtracting `'N/A'` gives `NaN`, which the
   * sort reads as 0; the sections that use it filter `'N/A'` out first.
   */
  function Minus(x: Change, y: Change): real {
    if x.Pct? && y.Pct? then x.value - y.value else 0.0
  }

  /** `(a, b) => b.percentChange - a.percentChange`: largest change first. */
  function ByChangeDesc(): Comparator<Summary> {
    (a: Summary, b: Summary) => Minus(b.percentChange, a.percentChange)
  }

  /** `(a, b) => a.percentChange - b.percentChange`: smallest change first. */
  function ByChangeAsc(): Comparator<Summary> {
    (a: Summary, b: Summary) => Minus(a.percentChange, b.percentChange)
  }

  /** `(a, b) => a.name.localeCompare(b.name)`, with `collate` standing for `localeCompare`. */
  function ByName(collate: (string, string) -> real): Comparator<Summary> {
    (a: Summary, b: Summary) => collate(a.name, b.name)
  }

  function AnySummary(): Summary -> bool {
    (s: Summary) => true
  }

  function HasChange(): Summary -> bool {
    (s: Summary) => s.percentChange.Pct?
  }

  function MemberOf(p: seq<Summary>): Summary -> bool {
    (s: Summary) => s in p
  }

  /**
   * `collate` orders strings consistently and only ties equal strings, as a
   * locale's collation does for the country names of the data set.
   */
  ghost predicate CollationOrder(collate: (string, string) -> real) {
    && (forall a, b {:trigger collate(a, b), collate(b, a)} :: collate(a, b) > 0.0 <==> collate(b, a) < 0.0)
    && (forall a, b, c {:trigger collate(a, b), collate(b, c), collate(a, c)} ::
          collate(a, b) <= 0.0 && collate(b, c) <= 0.0 ==> collate(a, c) <= 0.0)
    && (forall a, b {:trigger collate(a, b)} :: collate(a, b) == 0.0 ==> a == b)
  }

  /** `.filter(country => country.percentChange !== 'N/A')`. */
  function WithChange(p: seq<Summary>): (r: seq<Summary>)
    ensures forall x | x in r :: x in p && x.percentChange.Pct?
    ensures forall x | x in p && x.percentChange.Pct? :: x in r
    ensures multiset(r) <= multiset(p)
  {
    if |p| == 0 then []
    else
      var init, last := p[..|p| - 1], p[|p| - 1];
      assert p == init + [last];
      WithChange(init) + if last.percentChange.Pct? then [last] else []
  }

  /** The filter distributes over concatenation, so it keeps the summaries' relative order. */
  lemma {:induction false} WithChangeAppend(a: seq<Summary>, b: seq<Summary>)
    ensures WithChange(a + b) == WithChange(a) + WithChange(b)
    decreases |b|
  {
    if |b| > 0 {
      var init, last := b[..|b| - 1], b[|b| - 1];
      assert (a + b)[..|a + b| - 1] == a + init;
      WithChangeAppend(a, init);
    } else {
      assert a + b == a;
    }
  }

  /**
   * The filter keeps order and multiplicity: the summaries kept are those of
   * `p` at the strictly increasing indices `idx`, which are all the indices of
   * summaries with a numeric change.
   */
  lemma {:induction false} WithChangeInOrder(p: seq<Summary>) returns (idx: seq<nat>)
    ensures var r := WithChange(p);
      && |idx| == |r|
      && (forall k :: 0 <= k < |idx| ==> idx[k] < |p| && r[k] == p[idx[k]])
      && (forall k, m :: 0 <= k < m < |idx| ==> idx[k] < idx[m])
      && (forall i :: 0 <= i < |p| && p[i].percentChange.Pct? ==> i in idx)
  {
    if |p| == 0 {
      idx := [];
    } else {
      var init, last := p[..|p| - 1], p[|p| - 1];
      var prefix := WithChangeInOrder(init);
      assert WithChange(p) == WithChange(init) + if last.percentChange.Pct? then [last] else [];
      idx := KeptIndicesStep(p, WithChange(init), prefix);
    }
  }

  /** One step of `WithChangeInOrder`: the index of the last summary extends those of the others. */
  lemma KeptIndicesStep(p: seq<Summary>, kept: seq<Summary>, prefix: seq<nat>) returns (idx: seq<nat>)
    requires |p| > 0 && |prefix| == |kept|
    requires forall k :: 0 <= k < |prefix| ==> prefix[k] < |p| - 1 && kept[k] == p[..|p| - 1][prefix[k]]
    requires forall k, m :: 0 <= k < m < |prefix| ==> prefix[k] < prefix[m]
    requires forall i :: 0 <= i < |p| - 1 && p[..|p| - 1][i].percentChange.Pct? ==> i in prefix
    ensures var last := p[|p| - 1]; var r := kept + if last.percentChange.Pct? then [last] else [];
      && |idx| == |r|
      && (forall k :: 0 <= k < |idx| ==> idx[k] < |p| && r[k] == p[idx[k]])
      && (forall k, m :: 0 <= k < m < |idx| ==> idx[k] < idx[m])
      && (forall i :: 0 <= i < |p| && p[i].percentChange.Pct? ==> i in idx)
  {
    var init, last := p[..|p| - 1], p[|p| - 1];
    var r := kept + if last.percentChange.Pct? then [last] else [];
    idx := if last.percentChange.Pct? then prefix + [|p| - 1] else prefix;
    forall k | 0 <= k < |idx| ensures idx[k] < |p| && r[k] == p[idx[k]] {
      if k < |prefix| {
        assert idx[k] == prefix[k] && r[k] == kept[k] && init[prefix[k]] == p[prefix[k]];
      }
    }
    forall k, m | 0 <= k < m < |idx| ensures idx[k] < idx[m] {
      if m < |prefix| {
        assert idx[k] == prefix[k] && idx[m] == prefix[m];
      }
    }
    forall i | 0 <= i < |p| && p[i].percentChange.Pct? ensures i in idx {
      if i < |init| {
        assert init[i] == p[i];
      }
    }
  }

  /** What `getTop10MostImproved` returns for the raw records `data`. */
  function MostImproved(data: seq<Record>): seq<Summary>
    requires Scored(data)
  {
    Take(Sort(WithChange(Summaries(data)), ByChangeDesc()), 10)
  }

  /** What `getTop10LargestDecline` returns for the raw records `data`. */
  function LargestDecline(data: seq<Record>): seq<Summary>
    requires Scored(data)
  {
    Take(Sort(WithChange(Summaries(data)), ByChangeAsc()), 10)
  }

  lemma ScoreOrdersConsistent()
    ensures ConsistentOn(ByScoreDesc(), AnySummary())
    ensures ConsistentOn(ByScoreAsc(), AnySummary())
  {
  }

  lemma ChangeOrdersConsistent()
    ensures ConsistentOn(ByChangeDesc(), HasChange())
    ensures ConsistentOn(ByChangeAsc(), HasChange())
  {
  }

  lemma NameOrderConsistent(collate: (string, string) -> real, ok: Summary -> bool)
    requires CollationOrder(collate)
    ensures ConsistentOn(ByName(collate), ok)
  {
    var cmp := ByName(collate);
    forall a, b | ok(a) && ok(b) ensures cmp(a, b) > 0.0 <==> cmp(b, a) < 0.0 {
      assert cmp(a, b) == collate(a.name, b.name) && cmp(b, a) == collate(b.name, a.name);
    }
    forall a, b, c | ok(a) && ok(b) && ok(c) && cmp(a, b) <= 0.0 && cmp(b, c) <= 0.0 ensures cmp(a, c) <= 0.0 {
      assert cmp(a, b) == collate(a.name, b.name) && cmp(b, c) == collate(b.name, c.name);
      assert cmp(a, c) == collate(a.name, c.name);
    }
  }

  /** `getTop10Overall`: sorts the shared array by descending score and returns its first ten. */
  method GetTop10Overall(data: array<Summary>) returns (top: seq<Summary>)
    modifies data
    ensures data[..] == Sort(old(data[..]), ByScoreDesc())
    ensures top == Take(data[..], 10)
  {
    SortInPlace(data, ByScoreDesc());
    top := Take(data[..], 10);
  }

  /** `getBottom10Scored`: sorts the shared array by ascending score and returns its first ten. */
  method GetBottom10Scored(data: array<Summary>) returns (bottom: seq<Summary>)
    modifies data
    ensures data[..] == Sort(old(data[..]), ByScoreAsc())
    ensures bottom == Take(data[..], 10)
  {
    SortInPlace(data, ByScoreAsc());
    bottom := Take(data[..], 10);
  }

  /** `getAllCountriesAlphabetical`: sorts the shared array by name and returns that same array. */
  method GetAllCountriesAlphabetical(data: array<Summary>, collate: (string, string) -> real) returns (sorted: array<Summary>)
    modifies data
    ensures sorted == data
    ensures data[..] == Sort(old(data[..]), ByName(collate))
  {
    SortInPlace(data, ByName(collate));
    sorted := data;
  }

  /**
   * `getTop10MostImproved`: recomputes the summaries from the raw records, keeps
   * those with a percent change, sorts them by descending change and takes ten.
   */
  method GetTop10MostImproved(data: seq<Record>) returns (top: seq<Summary>)
    requires Scored(data)
    ensures top == MostImproved(data)
  {
    var processed := ProcessCountryData(data);
    var filtered := NewArray(WithChange(processed[..]));
    SortInPlace(filtered, ByChangeDesc());
    top := Take(filtered[..], 10);
  }

  /**
   * `getTop10LargestDecline`: recomputes the summaries from the raw records,
   * keeps those with a percent change, sorts them by ascending change and takes ten.
   */
  method GetTop10LargestDecline(data: seq<Record>) returns (top: seq<Summary>)
    requires Scored(data)
    ensures top == LargestDecline(data)
  {
    var processed := ProcessCountryData(data);
    var filtered := NewArray(WithChange(processed[..]));
    SortInPlace(filtered, ByChangeAsc());
    top := Take(filtered[..], 10);
  }

  /**
   * `fetchDataAndRenderCards` after the fetch: the five sections, in the order
   * the page computes them. The overall, most-challenged and alphabetical
   * sections sort the same array one after the other, and the alphabetical
   * section is that array itself.
   */
  method FetchDataAndRenderCards(data: seq<Record>, collate: (string, string) -> real)
    returns (top10Overall: seq<Summary>, top10MostImproved: seq<Summary>, top10LargestRegression: seq<Summary>,
             bottom10Scored: seq<Summary>, allCountries: array<Summary>)
    requires Scored(data)
    ensures fresh(allCountries)
    ensures var byScore := Sort(Summaries(data), ByScoreDesc());
      && top10Overall == Take(byScore, 10)
      && bottom10Scored == Take(Sort(byScore, ByScoreAsc()), 10)
      && allCountries[..] == Sort(Sort(byScore, ByScoreAsc()), ByName(collate))
    ensures top10MostImproved == MostImproved(data)
    ensures top10LargestRegression == LargestDecline(data)
  {
    var processedData := ProcessCountryData(data);
    top10Overall := GetTop10Overall(processedData);
    top10MostImproved := GetTop10MostImproved(data);
    top10LargestRegression := GetTop10LargestDecline(data);
    bottom10Scored := GetBottom10Scored(processedData);
    allCountries := GetAllCountriesAlphabetical(processedData, collate);
  }

  // ---------------------------------------------------------------------------
  // What the sections show

  lemma SummariesDistinct(data: seq<Record>)
    requires Scored(data)
    ensures Distinct(Summaries(data))
  {
    SummariesProperties(data);
  }

  /**
   * The first ten of summaries `p` sorted by `cmp`, for a consistent
   * comparator under which a larger `key` goes first: ten of them (or all),
   * none twice, in non-increasing key order, and no summary left out has a
   * larger key than one that is kept.
   */
  lemma TopTen(p: seq<Summary>, cmp: Comparator<Summary>, ok: Summary -> bool, key: Summary -> real)
    requires Distinct(p) && ConsistentOn(cmp, ok) && AllOk(p, ok)
    requires forall a, b :: ok(a) && ok(b) && cmp(a, b) <= 0.0 ==> key(a) >= key(b)
    ensures var r := Take(Sort(p, cmp), 10);
      && |r| == (if |p| < 10 then |p| else 10)
      && (forall x | x in r :: x in p)
      && Distinct(r)
      && (forall i, j :: 0 <= i < j < |r| ==> key(r[i]) >= key(r[j]))
      && (forall x, y | x in p && x !in r && y in r :: key(y) >= key(x))
  {
    TopTenMembers(p, cmp, ok);
    TopTenOrder(p, cmp, ok, key);
  }

  lemma TopTenMembers(p: seq<Summary>, cmp: Comparator<Summary>, ok: Summary -> bool)
    requires Distinct(p) && ConsistentOn(cmp, ok) && AllOk(p, ok)
    ensures var r := Take(Sort(p, cmp), 10);
      && |r| == (if |p| < 10 then |p| else 10)
      && (forall x | x in r :: x in p)
      && Distinct(r)
  {
    var r := Take(Sort(p, cmp), 10);
    TakeOfSorted(p, cmp, ok, 10);
    SubmultisetDistinct(r, p);
    forall x | x in r ensures x in p {
      assert x in multiset(p);
    }
  }

  lemma TopTenOrder(p: seq<Summary>, cmp: Comparator<Summary>, ok: Summary -> bool, key: Summary -> real)
    requires ConsistentOn(cmp, ok) && AllOk(p, ok)
    requires forall a, b :: ok(a) && ok(b) && cmp(a, b) <= 0.0 ==> key(a) >= key(b)
    ensures var r := Take(Sort(p, cmp), 10);
      && (forall i, j :: 0 <= i < j < |r| ==> key(r[i]) >= key(r[j]))
      && (forall x, y | x in p && x !in r && y in r :: key(y) >= key(x))
  {
    var r := Take(Sort(p, cmp), 10);
    assert Sorted(r, cmp) && multiset(r) <= multiset(p) by {
      TakeOfSorted(p, cmp, ok, 10);
    }
    forall i, j | 0 <= i < j < |r| ensures key(r[i]) >= key(r[j]) {
      assert r[i] in multiset(p) && r[j] in multiset(p);
      assert cmp(r[i], r[j]) <= 0.0;
    }
    TopTenBeatsRest(p, cmp, ok, key);
  }

  lemma TopTenBeatsRest(p: seq<Summary>, cmp: Comparator<Summary>, ok: Summary -> bool, key: Summary -> real)
    requires ConsistentOn(cmp, ok) && AllOk(p, ok)
    requires forall a, b :: ok(a) && ok(b) && cmp(a, b) <= 0.0 ==> key(a) >= key(b)
    ensures var r := Take(Sort(p, cmp), 10);
      forall x, y | x in p && x !in r && y in r :: key(y) >= key(x)
  {
    var r := Take(Sort(p, cmp), 10);
    assert multiset(r) <= multiset(p) && forall x, e | x in r && e in multiset(p) - multiset(r) :: cmp(x, e) <= 0.0 by {
      TakeOfSorted(p, cmp, ok, 10);
    }
    forall x, y | x in p && x !in r && y in r ensures key(y) >= key(x) {
      assert x in multiset(p) - multiset(r);
      assert cmp(y, x) <= 0.0;
      assert y in multiset(p);
    }
  }

  /**
   * Top 10 Overall: ten countries (or all, when there are fewer), no country
   * twice, highest score first, and no country left out scores higher than one
   * that is shown.
   */
  lemma TopOverallRanking(data: seq<Record>)
    requires Scored(data)
    ensures var p := Summaries(data); var r := Take(Sort(p, ByScoreDesc()), 10);
      && |r| == (if |p| < 10 then |p| else 10)
      && (forall x | x in r :: x in p)
      && Distinct(r)
      && (forall i, j :: 0 <= i < j < |r| ==> r[i].latestScore >= r[j].latestScore)
      && (forall x, y | x in p && x !in r && y in r :: y.latestScore >= x.latestScore)
  {
    SummariesDistinct(data);
    ScoreTopTen(Summaries(data));
  }

  lemma ScoreTopTen(p: seq<Summary>)
    requires Distinct(p)
    ensures var r := Take(Sort(p, ByScoreDesc()), 10);
      && |r| == (if |p| < 10 then |p| else 10)
      && (forall x | x in r :: x in p)
      && Distinct(r)
      && (forall i, j :: 0 <= i < j < |r| ==> r[i].latestScore >= r[j].latestScore)
      && (forall x, y | x in p && x !in r && y in r :: y.latestScore >= x.latestScore)
  {
    var r := Take(Sort(p, ByScoreDesc()), 10);
    var key := (s: Summary) => s.latestScore;
    ScoreOrdersConsistent();
    TopTen(p, ByScoreDesc(), AnySummary(), key);
    forall i, j | 0 <= i < j < |r| ensures r[i].latestScore >= r[j].latestScore {
      assert key(r[i]) >= key(r[j]);
    }
    forall x, y | x in p && x !in r && y in r ensures y.latestScore >= x.latestScore {
      assert key(y) >= key(x);
    }
  }

  /**
   * Most Challenged, as computed on the array the overall section left sorted
   * by descending score: ten countries (or all), no country twice, lowest score
   * first, and no country left out scores lower than one that is shown.
   */
  lemma BottomScoredRanking(data: seq<Record>)
    requires Scored(data)
    ensures var p := Summaries(data); var r := Take(Sort(Sort(p, ByScoreDesc()), ByScoreAsc()), 10);
      && |r| == (if |p| < 10 then |p| else 10)
      && (forall x | x in r :: x in p)
      && Distinct(r)
      && (forall i, j :: 0 <= i < j < |r| ==> r[i].latestScore <= r[j].latestScore)
      && (forall x, y | x in p && x !in r && y in r :: y.latestScore <= x.latestScore)
  {
    SummariesDistinct(data);
    ScoreBottomTen(Summaries(data));
  }

  lemma ScoreBottomTen(p: seq<Summary>)
    requires Distinct(p)
    ensures var r := Take(Sort(Sort(p, ByScoreDesc()), ByScoreAsc()), 10);
      && |r| == (if |p| < 10 then |p| else 10)
      && (forall x | x in r :: x in p)
      && Distinct(r)
      && (forall i, j :: 0 <= i < j < |r| ==> r[i].latestScore <= r[j].latestScore)
      && (forall x, y | x in p && x !in r && y in r :: y.latestScore <= x.latestScore)
  {
    var byScore := Sort(p, ByScoreDesc());
    SortPermutes(p, ByScoreDesc());
    SubmultisetDistinct(byScore, p);
    ScoreOrdersConsistent();
    var r := Take(Sort(byScore, ByScoreAsc()), 10);
    var key := (s: Summary) => -s.latestScore;
    TopTen(byScore, ByScoreAsc(), AnySummary(), key);
    forall x | x in p ensures x in byScore {
      assert x in multiset(byScore);
    }
    forall x | x in byScore ensures x in p {
      assert x in multiset(p);
    }
    forall i, j | 0 <= i < j < |r| ensures r[i].latestScore <= r[j].latestScore {
      assert key(r[i]) >= key(r[j]);
    }
    forall x, y | x in p && x !in r && y in r ensures y.latestScore <= x.latestScore {
      assert key(y) >= key(x);
    }
  }

  /** A summary with a percent change is of a country with more than one record. */
  lemma ChangedHasHistory(data: seq<Record>, x: Summary)
    requires Scored(data) && x in Summaries(data) && x.percentChange.Pct?
    ensures |RecordsOf(data, x.name)| > 1
  {
    SummariesProperties(data);
    var i, j := NewestAndPrior(data, x.name);
  }

  /**
   * Most Improved: ten countries with a percent change (or all of them), each
   * observed in more than one year, no country twice, largest change first, and
   * no country with a change left out has a larger change than one that is shown.
   */
  lemma MostImprovedRanking(data: seq<Record>)
    requires Scored(data)
    ensures var p := Summaries(data); var w := WithChange(p); var r := MostImproved(data);
      && |r| == (if |w| < 10 then |w| else 10)
      && (forall x | x in r :: x in p && x.percentChange.Pct? && |RecordsOf(data, x.name)| > 1)
      && Distinct(r)
      && (forall i, j :: 0 <= i < j < |r| ==> r[i].percentChange.value >= r[j].percentChange.value)
      && (forall x, y | x in p && x.percentChange.Pct? && x !in r && y in r ::
            y.percentChange.value >= x.percentChange.value)
  {
    var p := Summaries(data);
    SummariesDistinct(data);
    ChangeTopTen(p);
    forall x | x in MostImproved(data) ensures |RecordsOf(data, x.name)| > 1 {
      ChangedHasHistory(data, x);
    }
  }

  lemma ChangeTopTen(p: seq<Summary>)
    requires Distinct(p)
    ensures var w := WithChange(p); var r := Take(Sort(w, ByChangeDesc()), 10);
      && |r| == (if |w| < 10 then |w| else 10)
      && (forall x | x in r :: x in p && x.percentChange.Pct?)
      && Distinct(r)
      && (forall i, j :: 0 <= i < j < |r| ==> r[i].percentChange.value >= r[j].percentChange.value)
      && (forall x, y | x in p && x.percentChange.Pct? && x !in r && y in r ::
            y.percentChange.value >= x.percentChange.value)
  {
    var w := WithChange(p);
    SubmultisetDistinct(w, p);
    ChangeOrdersConsistent();
    var r := Take(Sort(w, ByChangeDesc()), 10);
    var key := (s: Summary) => if s.percentChange.Pct? then s.percentChange.value else 0.0;
    TopTen(w, ByChangeDesc(), HasChange(), key);
    forall x | x in r ensures x in p && x.percentChange.Pct? {
      assert x in w;
    }
    forall i, j | 0 <= i < j < |r| ensures r[i].percentChange.value >= r[j].percentChange.value {
      assert r[i] in w && r[j] in w;
      assert key(r[i]) >= key(r[j]);
    }
    forall x, y | x in p && x.percentChange.Pct? && x !in r && y in r
      ensures y.percentChange.value >= x.percentChange.value
    {
      assert x in w && y in w;
      assert key(y) >= key(x);
    }
  }

  /**
   * Largest Regression: ten countries with a percent change (or all of them),
   * each observed in more than one year, no country twice, smallest change
   * first, and no country with a change left out has a smaller change than one
   * that is shown.
   */
  lemma LargestDeclineRanking(data: seq<Record>)
    requires Scored(data)
    ensures var p := Summaries(data); var w := WithChange(p); var r := LargestDecline(data);
      && |r| == (if |w| < 10 then |w| else 10)
      && (forall x | x in r :: x in p && x.percentChange.Pct? && |RecordsOf(data, x.name)| > 1)
      && Distinct(r)
      && (forall i, j :: 0 <= i < j < |r| ==> r[i].percentChange.value <= r[j].percentChange.value)
      && (forall x, y | x in p && x.percentChange.Pct? && x !in r && y in r ::
            y.percentChange.value <= x.percentChange.value)
  {
    var p := Summaries(data);
    SummariesDistinct(data);
    ChangeBottomTen(p);
    forall x | x in LargestDecline(data) ensures |RecordsOf(data, x.name)| > 1 {
      ChangedHasHistory(data, x);
    }
  }

  lemma ChangeBottomTen(p: seq<Summary>)
    requires Distinct(p)
    ensures var w := WithChange(p); var r := Take(Sort(w, ByChangeAsc()), 10);
      && |r| == (if |w| < 10 then |w| else 10)
      && (forall x | x in r :: x in p && x.percentChange.Pct?)
      && Distinct(r)
      && (forall i, j :: 0 <= i < j < |r| ==> r[i].percentChange.value <= r[j].percentChange.value)
      && (forall x, y | x in p && x.percentChange.Pct? && x !in r && y in r ::
            y.percentChange.value <= x.percentChange.value)
  {
    var w := WithChange(p);
    SubmultisetDistinct(w, p);
    ChangeOrdersConsistent();
    var r := Take(Sort(w, ByChangeAsc()), 10);
    var key := (s: Summary) => if s.percentChange.Pct? then -s.percentChange.value else 0.0;
    TopTen(w, ByChangeAsc(), HasChange(), key);
    forall x | x in r ensures x in p && x.percentChange.Pct? {
      assert x in w;
    }
    forall i, j | 0 <= i < j < |r| ensures r[i].percentChange.value <= r[j].percentChange.value {
      assert r[i] in w && r[j] in w;
      assert key(r[i]) >= key(r[j]);
    }
    forall x, y | x in p && x.percentChange.Pct? && x !in r && y in r
      ensures y.percentChange.value <= x.percentChange.value
    {
      assert x in w && y in w;
      assert key(y) >= key(x);
    }
  }

  /**
   * All Countries: although the array it sorts was sorted twice by score
   * before, the alphabetical section lists every country exactly once, in
   * strictly increasing collation order, and is the same as sorting the
   * summaries by name directly.
   */
  lemma AliasedSortsAgree(data: seq<Record>, collate: (string, string) -> real)
    requires Scored(data) && CollationOrder(collate)
    ensures var p := Summaries(data);
      var all := Sort(Sort(Sort(p, ByScoreDesc()), ByScoreAsc()), ByName(collate));
      && all == Sort(p, ByName(collate))
      && multiset(all) == multiset(p)
      && forall i, j :: 0 <= i < j < |all| ==> collate(all[i].name, all[j].name) < 0.0
  {
    SummariesProperties(data);
    NameSortForgetsScoreSorts(Summaries(data), collate);
  }

  /**
   * For summaries with distinct names, sorting by name after any number of
   * other sorts gives the same strictly name-ordered arrangement.
   */
  lemma NameSortForgetsScoreSorts(p: seq<Summary>, collate: (string, string) -> real)
    requires CollationOrder(collate)
    requires forall i, j :: 0 <= i < j < |p| ==> p[i].name != p[j].name
    ensures var all := Sort(Sort(Sort(p, ByScoreDesc()), ByScoreAsc()), ByName(collate));
      && all == Sort(p, ByName(collate))
      && multiset(all) == multiset(p)
      && forall i, j :: 0 <= i < j < |all| ==> collate(all[i].name, all[j].name) < 0.0
  {
    var byScore := Sort(p, ByScoreDesc());
    var byLowScore := Sort(byScore, ByScoreAsc());
    var all := Sort(p, ByName(collate));
    SortPermutes(p, ByScoreDesc());
    SortPermutes(byScore, ByScoreAsc());
    NameOrderConsistent(collate, MemberOf(p));
    forall a, b | MemberOf(p)(a) && MemberOf(p)(b) && ByName(collate)(a, b) == 0.0 ensures a == b {
      var i :| 0 <= i < |p| && p[i] == a;
      var j :| 0 <= j < |p| && p[j] == b;
      assert a.name == b.name;
    }
    SortForgetsOrder(p, byLowScore, ByName(collate), MemberOf(p));
    SortPermutes(p, ByName(collate));
    NameOrderConsistent(collate, AnySummary());
    SortSorted(p, ByName(collate), AnySummary());
    forall i, j | 0 <= i < j < |all| ensures collate(all[i].name, all[j].name) < 0.0 {
      assert all[i] in multiset(p) && all[j] in multiset(p);
      var k :| 0 <= k < |p| && p[k] == all[i];
      var m :| 0 <= m < |p| && p[m] == all[j];
      assert ByName(collate)(all[i], all[j]) <= 0.0;
      assert all[i].name != all[j].name by {
        assert Distinct(p);
        SubmultisetDistinct(all, p);
        assert k != m;
      }
    }
  }
}
