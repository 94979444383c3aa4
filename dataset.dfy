/**
 * The dataset both pages load: a flat list of country-year records, and the
 * notions both pages build on it (the distinct country names in order of first
 * appearance, the records of one country, the percent-change formula).
 */
module Dataset {

  datatype Option<T> = None | Some(value: T)

  /**
   * One country-year observation. `values` holds the numeric fields of the
   * record by their names ("Life Ladder", "Social support", ...); a field
   * missing from the record is missing from the map.
   */
  datatype Record = Record(name: string, year: int, values: map<string, real>)

  /** The field holding the happiness score. */
  const LifeLadder: string := "Life Ladder"

  /** `entry[variable]`: the field's value, `None` standing for `undefined`. */
  function Lookup(r: Record, variable: string): Option<real> {
    if variable in r.values then Some(r.values[variable]) else None
  }

  /** Some record of `data` is for country `name`. */
  ghost predicate Occurs(data: seq<Record>, name: string) {
    exists i :: 0 <= i < |data| && data[i].name == name
  }

  /** The index of the first record of country `name`. */
  function FirstIndex(data: seq<Record>, name: string): (k: nat)
    requires Occurs(data, name)
    ensures k < |data| && data[k].name == name
    ensures forall i :: 0 <= i < k ==> data[i].name != name
  {
    if data[0].name == name then 0
    else
      assert Occurs(data[1..], name) by {
        var i :| 0 <= i < |data| && data[i].name == name;
        assert data[1..][i - 1] == data[i];
      }
      1 + FirstIndex(data[1..], name)
  }

  /**
   * The distinct country names of `data`, each once, in order of first
   * appearance (the order in which a dictionary keyed by name receives its keys).
   */
  function Names(data: seq<Record>): (names: seq<string>)
    ensures forall i, j :: 0 <= i < j < |names| ==> names[i] != names[j]
    ensures forall n :: n in names <==> Occurs(data, n)
  {
    if |data| == 0 then []
    else
      var init, last := data[..|data| - 1], data[|data| - 1];
      var p := Names(init);
      assert forall n :: Occurs(data, n) <==> Occurs(init, n) || n == last.name by {
        forall n ensures Occurs(data, n) ==> Occurs(init, n) || n == last.name {
          if Occurs(data, n) {
            var i :| 0 <= i < |data| && data[i].name == n;
            if i < |data| - 1 { assert init[i] == data[i]; }
          }
        }
        forall n ensures Occurs(init, n) ==> Occurs(data, n) {
          if Occurs(init, n) {
            var i :| 0 <= i < |init| && init[i].name == n;
            assert data[i] == init[i];
          }
        }
      }
      if last.name in p then p else p + [last.name]
  }

  /** Reading one more record adds its name to `Names` exactly when the name is new. */
  lemma NamesStep(data: seq<Record>, i: nat)
    requires i < |data|
    ensures Names(data[..i + 1]) ==
      if data[i].name in Names(data[..i]) then Names(data[..i]) else Names(data[..i]) + [data[i].name]
  {
    assert data[..i + 1][..i] == data[..i];
  }

  /** `Names` lists the countries in the order in which they first appear in the data. */
  lemma {:induction false} NamesInFirstAppearanceOrder(data: seq<Record>)
    ensures forall i, j :: 0 <= i < j < |Names(data)| ==>
      FirstIndex(data, Names(data)[i]) < FirstIndex(data, Names(data)[j])
  {
    if |data| > 0 {
      var init, last := data[..|data| - 1], data[|data| - 1];
      NamesInFirstAppearanceOrder(init);
      var p, names := Names(init), Names(data);
      forall n | n in p ensures FirstIndex(data, n) == FirstIndex(init, n) {
        FirstIndexOfPrefix(data, n);
      }
      forall i, j | 0 <= i < j < |names| ensures FirstIndex(data, names[i]) < FirstIndex(data, names[j]) {
        assert names[i] in p;
        if j < |p| {
          assert names[j] == p[j] && names[i] == p[i];
        } else {
          // the new name first appears in the last record
          assert names[j] == last.name && last.name !in p;
          assert !Occurs(init, last.name);
          forall i | 0 <= i < |data| - 1 ensures data[i].name != last.name {
            assert init[i] == data[i];
          }
        }
      }
    }
  }

  lemma FirstIndexOfPrefix(data: seq<Record>, n: string)
    requires |data| > 0 && Occurs(data[..|data| - 1], n)
    ensures Occurs(data, n)
    ensures FirstIndex(data, n) == FirstIndex(data[..|data| - 1], n)
  {
    var init := data[..|data| - 1];
    var k := FirstIndex(init, n);
    assert data[k] == init[k];
    assert Occurs(data, n);
    forall i | 0 <= i < k ensures data[i].name != n {
      assert data[i] == init[i];
    }
  }

  /**
   * `data.filter(entry => entry['Country name'] === name)`: the records of
   * country `name`, in their order in `data`.
   */
  function RecordsOf(data: seq<Record>, name: string): (rs: seq<Record>)
    ensures forall r | r in rs :: r in data && r.name == name
    ensures forall i :: 0 <= i < |data| && data[i].name == name ==> data[i] in rs
    ensures |rs| == 0 <==> !Occurs(data, name)
  {
    if |data| == 0 then []
    else
      var init, last := data[..|data| - 1], data[|data| - 1];
      var rs := RecordsOf(init, name) + (if last.name == name then [last] else []);
      assert forall i :: 0 <= i < |init| ==> init[i] == data[i];
      assert forall r | r in init :: r in data;
      rs
  }

  /**
   * The filter keeps data order and multiplicity: the records of `name` are
   * the records at the strictly increasing indices `idx` of `data`, and those
   * indices are all the indices of `name`'s records.
   */
  lemma {:induction false} RecordsOfInOrder(data: seq<Record>, name: string) returns (idx: seq<nat>)
    ensures var rs := RecordsOf(data, name);
      && |idx| == |rs|
      && (forall k :: 0 <= k < |idx| ==> idx[k] < |data| && rs[k] == data[idx[k]])
      && (forall k, m :: 0 <= k < m < |idx| ==> idx[k] < idx[m])
      && (forall i :: 0 <= i < |data| && data[i].name == name ==> i in idx)
  {
    if |data| == 0 {
      idx := [];
    } else {
      var init, last := data[..|data| - 1], data[|data| - 1];
      var prefix := RecordsOfInOrder(init, name);
      assert RecordsOf(data, name) == RecordsOf(init, name) + if last.name == name then [last] else [];
      idx := IndicesStep(data, name, RecordsOf(init, name), prefix);
    }
  }

  /** One step of `RecordsOfInOrder`: the indices of the last record extend those of the others. */
  lemma IndicesStep(data: seq<Record>, name: string, ps: seq<Record>, prefix: seq<nat>) returns (idx: seq<nat>)
    requires |data| > 0 && |prefix| == |ps|
    requires forall k :: 0 <= k < |prefix| ==> prefix[k] < |data| - 1 && ps[k] == data[..|data| - 1][prefix[k]]
    requires forall k, m :: 0 <= k < m < |prefix| ==> prefix[k] < prefix[m]
    requires forall i :: 0 <= i < |data| - 1 && data[..|data| - 1][i].name == name ==> i in prefix
    ensures var last := data[|data| - 1]; var rs := ps + if last.name == name then [last] else [];
      && |idx| == |rs|
      && (forall k :: 0 <= k < |idx| ==> idx[k] < |data| && rs[k] == data[idx[k]])
      && (forall k, m :: 0 <= k < m < |idx| ==> idx[k] < idx[m])
      && (forall i :: 0 <= i < |data| && data[i].name == name ==> i in idx)
  {
    var init, last := data[..|data| - 1], data[|data| - 1];
    var rs := ps + if last.name == name then [last] else [];
    idx := if last.name == name then prefix + [|data| - 1] else prefix;
    forall k | 0 <= k < |idx| ensures idx[k] < |data| && rs[k] == data[idx[k]] {
      if k < |prefix| {
        assert idx[k] == prefix[k] && rs[k] == ps[k] && init[prefix[k]] == data[prefix[k]];
      }
    }
    forall k, m | 0 <= k < m < |idx| ensures idx[k] < idx[m] {
      if m < |prefix| {
        assert idx[k] == prefix[k] && idx[m] == prefix[m];
      }
    }
    forall i | 0 <= i < |data| && data[i].name == name ensures i in idx {
      if i < |init| {
        assert init[i] == data[i];
      }
    }
  }

  /** Reading one more record extends the records of its own country only. */
  lemma RecordsOfStep(data: seq<Record>, i: nat, name: string)
    requires i < |data|
    ensures RecordsOf(data[..i + 1], name) ==
      RecordsOf(data[..i], name) + if data[i].name == name then [data[i]] else []
  {
    assert data[..i + 1][..i] == data[..i];
  }

  /**
   * The relative change `(latest - prior) / prior * 100`, in percent. Its
   * defining property: growing `prior` by `r` percent gives back `latest`.
   */
  function PercentChange(latest: real, prior: real): (r: real)
    requires prior != 0.0
    ensures prior * (100.0 + r) == 100.0 * latest
    ensures r > 0.0 <==> (prior > 0.0 && latest > prior) || (prior < 0.0 && latest < prior)
  {
    var q := (latest - prior) / prior;
    assert q * prior == latest - prior;
    assert q > 0.0 <==> (prior > 0.0 && latest > prior) || (prior < 0.0 && latest < prior) by {
      if prior > 0.0 {
        assert q > 0.0 <==> q * prior > 0.0;
      } else {
        assert q > 0.0 <==> q * prior < 0.0;
      }
    }
    q * 100.0
  }
}
