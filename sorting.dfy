/**
 * The in-place, comparator-driven sort both pages use (`Array.prototype.sort`).
 *
 * A comparator is modelled as the JavaScript one: a function of two elements
 * returning a number, where a positive number means "the second goes first".
 * Since the 2019 edition the language requires the sort to be stable, and for a
 * consistent comparator every stable sort produces the same order; the model
 * therefore specifies the sort as stable insertion sort (`Sort`), and
 * `SortInPlace` performs it on an array.
 */
module Sorting {

  /** A comparator as passed to `Array.prototype.sort`. */
  type Comparator<!T> = (T, T) -> real

  /**
   * `cmp` is a consistent comparator on the elements that satisfy `ok`:
   * the sign flips when the arguments are swapped, and "not after" is transitive.
   */
  ghost predicate ConsistentOn<T(!new)>(cmp: Comparator<T>, ok: T -> bool) {
    && (forall a, b {:trigger cmp(a, b), cmp(b, a)} :: ok(a) && ok(b) ==> (cmp(a, b) > 0.0 <==> cmp(b, a) < 0.0))
    && (forall a, b, c {:trigger cmp(a, b), cmp(b, c), cmp(a, c)} ::
          ok(a) && ok(b) && ok(c) && cmp(a, b) <= 0.0 && cmp(b, c) <= 0.0 ==> cmp(a, c) <= 0.0)
  }

  /** Every element of `s` is in the domain on which the comparator is consistent. */
  ghost predicate AllOk<T>(s: seq<T>, ok: T -> bool) {
    forall x | x in s :: ok(x)
  }

  /** No element of `s` must go after a later one. */
  ghost predicate Sorted<T>(s: seq<T>, cmp: Comparator<T>) {
    forall i, j :: 0 <= i < j < |s| ==> cmp(s[i], s[j]) <= 0.0
  }

  /** The elements of `s` that compare equal to `k`, in their order in `s`. */
  function TiesWith<T>(s: seq<T>, cmp: Comparator<T>, k: T): seq<T> {
    if |s| == 0 then []
    else TiesWith(s[..|s| - 1], cmp, k) + (if cmp(s[|s| - 1], k) == 0.0 then [s[|s| - 1]] else [])
  }

  /**
   * Inserts `x` into `s` the way insertion sort does: `x` passes, from the
   * right, exactly the elements that must go after it.
   */
  function Insert<T>(s: seq<T>, x: T, cmp: Comparator<T>): (r: seq<T>)
    ensures |r| == |s| + 1
  {
    if |s| == 0 then [x]
    else if cmp(s[|s| - 1], x) > 0.0 then
      Insert(s[..|s| - 1], x, cmp) + [s[|s| - 1]]
    else s + [x]
  }

  /** The stable sort of `s` under `cmp`. */
  function Sort<T>(s: seq<T>, cmp: Comparator<T>): (r: seq<T>)
    ensures |r| == |s|
  {
    if |s| == 0 then []
    else Insert(Sort(s[..|s| - 1], cmp), s[|s| - 1], cmp)
  }

  /** `slice(0, n)`: the first `n` elements, or all of them when there are fewer. */
  function Take<T>(s: seq<T>, n: nat): (r: seq<T>)
    ensures |r| <= n && |r| <= |s|
    ensures |r| == n || r == s
    ensures r == s[..|r|]
  {
    if |s| <= n then s else s[..n]
  }

  /** Inserting adds exactly `x` to the elements of `s`. */
  lemma {:induction false} InsertPermutes<T>(s: seq<T>, x: T, cmp: Comparator<T>)
    ensures multiset(Insert(s, x, cmp)) == multiset(s) + multiset{x}
  {
    if |s| > 0 && cmp(s[|s| - 1], x) > 0.0 {
      InsertPermutes(s[..|s| - 1], x, cmp);
      assert s == s[..|s| - 1] + [s[|s| - 1]];
    }
  }

  /** The sort is a permutation of its input. */
  lemma {:induction false} SortPermutes<T>(s: seq<T>, cmp: Comparator<T>)
    ensures multiset(Sort(s, cmp)) == multiset(s)
  {
    if |s| > 0 {
      SortPermutes(s[..|s| - 1], cmp);
      InsertPermutes(Sort(s[..|s| - 1], cmp), s[|s| - 1], cmp);
      assert s == s[..|s| - 1] + [s[|s| - 1]];
    }
  }

  lemma {:induction false} InsertSorted<T(!new)>(s: seq<T>, x: T, cmp: Comparator<T>, ok: T -> bool)
    requires ConsistentOn(cmp, ok) && AllOk(s, ok) && ok(x)
    requires Sorted(s, cmp)
    ensures Sorted(Insert(s, x, cmp), cmp)
  {
    if |s| > 0 {
      var init, last := s[..|s| - 1], s[|s| - 1];
      assert ok(last) by { assert last in s; }
      if cmp(last, x) > 0.0 {
        assert AllOk(init, ok) by {
          forall y | y in init ensures ok(y) { assert y in s; }
        }
        InsertSorted(init, x, cmp, ok);
        var left := Insert(init, x, cmp);
        InsertPermutes(init, x, cmp);
        forall i | 0 <= i < |left| ensures cmp(left[i], last) <= 0.0 {
          var e := left[i];
          assert e in multiset(left);
          if e != x {
            assert e in init;
            var k :| 0 <= k < |init| && init[k] == e;
            assert s[k] == e;
          }
        }
        var r := left + [last];
        assert Insert(s, x, cmp) == r;
        forall i, j | 0 <= i < j < |r| ensures cmp(r[i], r[j]) <= 0.0 {
          if j < |left| {
            assert r[i] == left[i] && r[j] == left[j];
          } else {
            assert r[i] == left[i] && r[j] == last;
          }
        }
      } else {
        forall i | 0 <= i < |s| ensures cmp(s[i], x) <= 0.0 {
          assert ok(s[i]) by { assert s[i] in s; }
          if i < |s| - 1 {
            assert cmp(s[i], last) <= 0.0;
          }
        }
        var r := s + [x];
        assert Insert(s, x, cmp) == r;
        forall i, j | 0 <= i < j < |r| ensures cmp(r[i], r[j]) <= 0.0 {
          if j < |s| {
            assert r[i] == s[i] && r[j] == s[j];
          } else {
            assert r[i] == s[i] && r[j] == x;
          }
        }
      }
    }
  }

  /** Under a consistent comparator, the sort's output is sorted. */
  lemma {:induction false} SortSorted<T(!new)>(s: seq<T>, cmp: Comparator<T>, ok: T -> bool)
    requires ConsistentOn(cmp, ok) && AllOk(s, ok)
    ensures Sorted(Sort(s, cmp), cmp)
  {
    if |s| > 0 {
      var init := s[..|s| - 1];
      assert AllOk(init, ok) by {
        forall y | y in init ensures ok(y) { assert y in s; }
      }
      SortSorted(init, cmp, ok);
      var sorted := Sort(init, cmp);
      SortPermutes(init, cmp);
      assert AllOk(sorted, ok) by {
        forall y | y in sorted ensures ok(y) {
          assert y in multiset(sorted);
        }
      }
      assert s[|s| - 1] in s;
      InsertSorted(sorted, s[|s| - 1], cmp, ok);
    }
  }

  lemma {:induction false} InsertKeepsTies<T(!new)>(s: seq<T>, x: T, cmp: Comparator<T>, ok: T -> bool, k: T)
    requires ConsistentOn(cmp, ok) && AllOk(s, ok) && ok(x) && ok(k)
    ensures TiesWith(Insert(s, x, cmp), cmp, k) == TiesWith(s + [x], cmp, k)
  {
    assert (s + [x])[..|s|] == s;
    if |s| > 0 {
      var init, last := s[..|s| - 1], s[|s| - 1];
      assert last in s;
      if cmp(last, x) > 0.0 {
        assert AllOk(init, ok) by {
          forall y | y in init ensures ok(y) { assert y in s; }
        }
        InsertKeepsTies(init, x, cmp, ok, k);
        var left := Insert(init, x, cmp);
        assert (left + [last])[..|left|] == left;
        assert (init + [x])[..|init|] == init;
        assert s == init + [last];
        // x and last cannot both tie with k, since last must go after x
        if cmp(x, k) == 0.0 {
          assert cmp(k, x) == 0.0;
          assert cmp(last, k) != 0.0;
        }
      }
    }
  }

  /**
   * Stability: the elements that tie with any given `k` keep their relative
   * input order.
   */
  lemma {:induction false} SortStable<T(!new)>(s: seq<T>, cmp: Comparator<T>, ok: T -> bool, k: T)
    requires ConsistentOn(cmp, ok) && AllOk(s, ok) && ok(k)
    ensures TiesWith(Sort(s, cmp), cmp, k) == TiesWith(s, cmp, k)
  {
    if |s| > 0 {
      var init, last := s[..|s| - 1], s[|s| - 1];
      assert AllOk(init, ok) by {
        forall y | y in init ensures ok(y) { assert y in s; }
      }
      SortStable(init, cmp, ok, k);
      var sorted := Sort(init, cmp);
      SortPermutes(init, cmp);
      assert AllOk(sorted, ok) by {
        forall y | y in sorted ensures ok(y) {
          assert y in multiset(sorted);
        }
      }
      assert last in s;
      InsertKeepsTies(sorted, last, cmp, ok, k);
      assert (sorted + [last])[..|sorted|] == sorted;
    }
  }

  lemma SortedHeadsEqual<T(!new)>(u: seq<T>, v: seq<T>, cmp: Comparator<T>, ok: T -> bool)
    requires ConsistentOn(cmp, ok) && AllOk(u, ok)
    requires forall a, b :: ok(a) && ok(b) && cmp(a, b) == 0.0 ==> a == b
    requires multiset(u) == multiset(v) && |u| > 0
    requires Sorted(u, cmp) && Sorted(v, cmp)
    ensures |v| > 0 && u[0] == v[0]
  {
    assert u[0] in multiset(v);
    assert v[0] in multiset(u);
    var j :| 0 <= j < |v| && v[j] == u[0];
    var i :| 0 <= i < |u| && u[i] == v[0];
    assert ok(u[0]) && ok(v[0]) by { assert u[0] in u && u[i] in u; }
    assert cmp(v[0], u[0]) <= 0.0 by { if j > 0 { assert cmp(v[0], v[j]) <= 0.0; } }
    assert cmp(u[0], v[0]) <= 0.0 by { if i > 0 { assert cmp(u[0], u[i]) <= 0.0; } }
  }

  lemma SortedSlice<T>(s: seq<T>, k: nat, cmp: Comparator<T>)
    requires Sorted(s, cmp) && k <= |s|
    ensures Sorted(s[k..], cmp)
  {
    forall i, j | 0 <= i < j < |s| - k ensures cmp(s[k..][i], s[k..][j]) <= 0.0 {
      assert s[k..][i] == s[k + i] && s[k..][j] == s[k + j];
    }
  }

  lemma TailsPermute<T>(u: seq<T>, v: seq<T>)
    requires multiset(u) == multiset(v) && |u| > 0 && |v| > 0 && u[0] == v[0]
    ensures multiset(u[1..]) == multiset(v[1..])
  {
    calc {
      multiset(u[1..]);
      multiset([u[0]] + u[1..]) - multiset{u[0]};
      { assert [u[0]] + u[1..] == u; }
      multiset(u) - multiset{u[0]};
      multiset(v) - multiset{v[0]};
      { assert [v[0]] + v[1..] == v; }
      multiset([v[0]] + v[1..]) - multiset{v[0]};
      multiset(v[1..]);
    }
  }

  /** The first element of `TiesWith` is the first element of `s` that ties with `k`. */
  lemma {:induction false} FirstTie<T>(s: seq<T>, cmp: Comparator<T>, k: T) returns (i: nat)
    requires TiesWith(s, cmp, k) != []
    ensures i < |s| && s[i] == TiesWith(s, cmp, k)[0] && cmp(s[i], k) == 0.0
    ensures forall j :: 0 <= j < i ==> cmp(s[j], k) != 0.0
  {
    var init := s[..|s| - 1];
    if TiesWith(init, cmp, k) != [] {
      i := FirstTie(init, cmp, k);
    } else {
      NoTies(init, cmp, k);
      i := |s| - 1;
    }
  }

  /** An element that ties with `k` puts something into `TiesWith`. */
  lemma {:induction false} SomeTie<T>(s: seq<T>, cmp: Comparator<T>, k: T, m: nat)
    requires m < |s| && cmp(s[m], k) == 0.0
    ensures TiesWith(s, cmp, k) != []
  {
    if m < |s| - 1 {
      SomeTie(s[..|s| - 1], cmp, k, m);
    }
  }

  lemma {:induction false} NoTies<T>(s: seq<T>, cmp: Comparator<T>, k: T)
    requires TiesWith(s, cmp, k) == []
    ensures forall j :: 0 <= j < |s| ==> cmp(s[j], k) != 0.0
  {
    if |s| > 0 {
      NoTies(s[..|s| - 1], cmp, k);
    }
  }

  /**
   * The second element of `TiesWith` is the first element of `s` after the
   * first tie `s[i]` that ties with `k`.
   */
  lemma {:induction false} SecondTie<T>(s: seq<T>, cmp: Comparator<T>, k: T, i: nat) returns (j: nat)
    requires i < |s| && cmp(s[i], k) == 0.0
    requires forall m :: 0 <= m < i ==> cmp(s[m], k) != 0.0
    requires |TiesWith(s, cmp, k)| >= 2
    ensures i < j < |s| && s[j] == TiesWith(s, cmp, k)[1] && cmp(s[j], k) == 0.0
    ensures forall m :: 0 <= m < j && m != i ==> cmp(s[m], k) != 0.0
  {
    var init := s[..|s| - 1];
    assert TiesWith(init, cmp, k) != [];
    var t := FirstTie(init, cmp, k);
    assert i <= t;
    if |TiesWith(init, cmp, k)| >= 2 {
      j := SecondTie(init, cmp, k, i);
    } else {
      OnlyTie(init, cmp, k, i);
      j := |s| - 1;
    }
  }

  /** Two elements at different indices that tie with `k` both go into `TiesWith`. */
  lemma {:induction false} TwoTies<T>(s: seq<T>, cmp: Comparator<T>, k: T, a: nat, b: nat)
    requires a < b < |s| && cmp(s[a], k) == 0.0 && cmp(s[b], k) == 0.0
    ensures |TiesWith(s, cmp, k)| >= 2
  {
    var init := s[..|s| - 1];
    if b == |s| - 1 {
      SomeTie(init, cmp, k, a);
    } else {
      TwoTies(init, cmp, k, a, b);
    }
  }

  /** When only one element of `s` ties with `k`, and `s[i]` does, no other does. */
  lemma {:induction false} OnlyTie<T>(s: seq<T>, cmp: Comparator<T>, k: T, i: nat)
    requires i < |s| && cmp(s[i], k) == 0.0
    requires |TiesWith(s, cmp, k)| == 1
    ensures forall m :: 0 <= m < |s| && m != i ==> cmp(s[m], k) != 0.0
  {
    var init := s[..|s| - 1];
    if cmp(s[|s| - 1], k) == 0.0 {
      NoTies(init, cmp, k);
    } else {
      OnlyTie(init, cmp, k, i);
    }
  }

  /** An element of `s` other than the one at `i` sits at some other index. */
  lemma OtherIndex<T>(s: seq<T>, i: nat, x: T) returns (j: nat)
    requires i < |s| && x in multiset(s) - multiset{s[i]}
    ensures j < |s| && j != i && s[j] == x
  {
    var rest := RemoveAt(s, i);
    assert x in rest;
    var m :| 0 <= m < |rest| && rest[m] == x;
    j := if m < i then m else m + 1;
  }

  /** Taking out the element at `i` leaves every other element in the multiset. */
  lemma OthersRemain<T>(s: seq<T>, i: nat, k: nat)
    requires i < |s| && k < |s| && k != i
    ensures s[k] in multiset(s) - multiset{s[i]}
  {
    var rest := RemoveAt(s, i);
    if k < i {
      assert rest[k] == s[k];
    } else {
      assert rest[k - 1] == s[k];
    }
  }

  /** The elements of `s` but the one at `i`, in order. */
  lemma RemoveAt<T>(s: seq<T>, i: nat) returns (rest: seq<T>)
    requires i < |s|
    ensures rest == s[..i] + s[i + 1..]
    ensures multiset(s) - multiset{s[i]} == multiset(rest)
  {
    rest := s[..i] + s[i + 1..];
    assert s == s[..i] + [s[i]] + s[i + 1..];
    calc {
      multiset(s);
      multiset(s[..i]) + multiset{s[i]} + multiset(s[i + 1..]);
      multiset(rest) + multiset{s[i]};
    }
  }

  /**
   * Two sorted arrangements of the same elements coincide when the comparator
   * only ties equal elements.
   */
  lemma {:induction false} SortedPermutationsEqual<T(!new)>(u: seq<T>, v: seq<T>, cmp: Comparator<T>, ok: T -> bool)
    requires ConsistentOn(cmp, ok) && AllOk(u, ok)
    requires forall a, b :: ok(a) && ok(b) && cmp(a, b) == 0.0 ==> a == b
    requires multiset(u) == multiset(v)
    requires Sorted(u, cmp) && Sorted(v, cmp)
    ensures u == v
  {
    if |u| == 0 {
      assert |v| == |multiset(v)| == 0;
    } else {
      SortedHeadsEqual(u, v, cmp, ok);
      TailsPermute(u, v);
      assert AllOk(u[1..], ok) by {
        forall y | y in u[1..] ensures ok(y) { assert y in u; }
      }
      assert Sorted(u[1..], cmp) && Sorted(v[1..], cmp) by {
        SortedSlice(u, 1, cmp);
        SortedSlice(v, 1, cmp);
      }
      SortedPermutationsEqual(u[1..], v[1..], cmp, ok);
      assert u == [u[0]] + u[1..] && v == [v[0]] + v[1..];
    }
  }

  /**
   * Sorting with a comparator that ties only equal elements forgets the order
   * it was given: any two arrangements of the same elements sort alike.
   */
  lemma SortForgetsOrder<T(!new)>(s: seq<T>, t: seq<T>, cmp: Comparator<T>, ok: T -> bool)
    requires ConsistentOn(cmp, ok) && AllOk(s, ok)
    requires forall a, b :: ok(a) && ok(b) && cmp(a, b) == 0.0 ==> a == b
    requires multiset(s) == multiset(t)
    ensures Sort(s, cmp) == Sort(t, cmp)
  {
    assert AllOk(t, ok) by {
      forall y | y in t ensures ok(y) { assert y in multiset(s); }
    }
    SortSorted(s, cmp, ok);
    SortSorted(t, cmp, ok);
    SortPermutes(s, cmp);
    SortPermutes(t, cmp);
    assert AllOk(Sort(s, cmp), ok) by {
      forall y | y in Sort(s, cmp) ensures ok(y) { assert y in multiset(Sort(s, cmp)); }
    }
    SortedPermutationsEqual(Sort(s, cmp), Sort(t, cmp), cmp, ok);
  }

  /** Sorting input that is already in comparator order leaves it as it is. */
  lemma {:induction false} SortOfSorted<T>(s: seq<T>, cmp: Comparator<T>)
    requires Sorted(s, cmp)
    ensures Sort(s, cmp) == s
  {
    if |s| > 0 {
      var init, last := s[..|s| - 1], s[|s| - 1];
      assert Sorted(init, cmp) by {
        forall i, j | 0 <= i < j < |init| ensures cmp(init[i], init[j]) <= 0.0 {
          assert init[i] == s[i] && init[j] == s[j];
        }
      }
      SortOfSorted(init, cmp);
      if |init| > 0 {
        assert cmp(init[|init| - 1], last) <= 0.0;
      }
      assert init + [last] == s;
    }
  }

  /**
   * A sorted prefix of `n` elements: at most `n` of them, drawn from the
   * input, in order, and none of the omitted elements must go before a kept one.
   */
  lemma TakeOfSorted<T(!new)>(s: seq<T>, cmp: Comparator<T>, ok: T -> bool, n: nat)
    requires ConsistentOn(cmp, ok) && AllOk(s, ok)
    ensures var r := Take(Sort(s, cmp), n);
      && |r| <= n
      && (|r| == n || |r| == |s|)
      && Sorted(r, cmp)
      && multiset(r) <= multiset(s)
      && forall x, e | x in r && e in multiset(s) - multiset(r) :: cmp(x, e) <= 0.0
  {
    var t := Sort(s, cmp);
    SortSorted(s, cmp, ok);
    SortPermutes(s, cmp);
    var r := Take(t, n);
    var rest := t[|r|..];
    assert t == r + rest;
    assert multiset(s) - multiset(r) == multiset(rest) by {
      assert multiset(t) == multiset(r) + multiset(rest);
    }
    SortedSplit(t, |r|, cmp);
  }

  /** In a sorted sequence no element of a suffix must go before an element of the prefix. */
  lemma SortedSplit<T>(t: seq<T>, m: nat, cmp: Comparator<T>)
    requires Sorted(t, cmp) && m <= |t|
    ensures Sorted(t[..m], cmp)
    ensures forall x, e | x in t[..m] && e in t[m..] :: cmp(x, e) <= 0.0
  {
    forall x, e | x in t[..m] && e in t[m..] ensures cmp(x, e) <= 0.0 {
      var i :| 0 <= i < m && t[..m][i] == x;
      var j :| 0 <= j < |t| - m && t[m..][j] == e;
      assert t[i] == x && t[m + j] == e;
    }
    forall i, j | 0 <= i < j < m ensures cmp(t[..m][i], t[..m][j]) <= 0.0 {
      assert t[..m][i] == t[i] && t[..m][j] == t[j];
    }
  }

  /** No element occurs twice. */
  ghost predicate Distinct<T>(s: seq<T>) {
    forall i, j :: 0 <= i < j < |s| ==> s[i] != s[j]
  }

  lemma {:induction false} DistinctCount<T>(s: seq<T>, x: T)
    requires Distinct(s)
    ensures multiset(s)[x] <= 1
  {
    if |s| > 0 {
      var init, last := s[..|s| - 1], s[|s| - 1];
      assert s == init + [last];
      assert Distinct(init) by {
        forall i, j | 0 <= i < j < |init| ensures init[i] != init[j] {
          assert init[i] == s[i] && init[j] == s[j];
        }
      }
      DistinctCount(init, x);
      if last == x {
        forall i | 0 <= i < |init| ensures init[i] != x {
          assert init[i] == s[i];
        }
        assert x !in init;
      }
    }
  }

  lemma TwiceCount<T>(t: seq<T>, i: nat, j: nat)
    requires i < j < |t|
    ensures t[i] == t[j] ==> multiset(t)[t[i]] >= 2
  {
    if t[i] == t[j] {
      assert t == t[..j] + [t[j]] + t[j + 1..];
      assert t[..j][i] == t[i];
    }
  }

  /** Part of (or a permutation of) a sequence without repetitions has none either. */
  lemma SubmultisetDistinct<T>(r: seq<T>, s: seq<T>)
    requires Distinct(s) && multiset(r) <= multiset(s)
    ensures Distinct(r)
  {
    forall i, j | 0 <= i < j < |r| ensures r[i] != r[j] {
      TwiceCount(r, i, j);
      DistinctCount(s, r[i]);
    }
  }

  /** A sequence that agrees elementwise with `prefix` with `x` put in at index `j`. */
  lemma PutIn<T>(s: seq<T>, prefix: seq<T>, j: nat, x: T)
    requires j <= |prefix| && |s| == |prefix| + 1
    requires forall k :: 0 <= k < j ==> s[k] == prefix[k]
    requires s[j] == x
    requires forall k :: j < k < |s| ==> s[k] == prefix[k - 1]
    ensures s == prefix[..j] + [x] + prefix[j..]
  {
  }

  /**
   * Where `Insert` puts `x`: after the longest suffix of elements that must go
   * after it.
   */
  lemma {:induction false} InsertAt<T>(p: seq<T>, x: T, cmp: Comparator<T>, j: nat)
    requires j <= |p|
    requires forall k :: j <= k < |p| ==> cmp(p[k], x) > 0.0
    requires j == 0 || cmp(p[j - 1], x) <= 0.0
    ensures Insert(p, x, cmp) == p[..j] + [x] + p[j..]
    decreases |p|
  {
    if |p| == j {
      assert p[..j] == p && p[j..] == [];
    } else {
      var init, last := p[..|p| - 1], p[|p| - 1];
      InsertAt(init, x, cmp, j);
      assert init[..j] == p[..j] && init[j..] + [last] == p[j..];
    }
  }

  /**
   * The shifting loop of one insertion step: the elements of `a[..i]` that
   * must go after `x` move one place right, leaving a gap at `j`.
   */
  method ShiftRight<T>(a: array<T>, i: nat, x: T, cmp: Comparator<T>) returns (j: nat)
    requires i < a.Length
    modifies a
    ensures j <= i
    ensures forall k :: 0 <= k < j ==> a[k] == old(a[k])
    ensures forall k :: j < k <= i ==> a[k] == old(a[k - 1])
    ensures forall k :: i < k < a.Length ==> a[k] == old(a[k])
    ensures Insert(old(a[..i]), x, cmp) == old(a[..i])[..j] + [x] + old(a[..i])[j..]
  {
    ghost var prefix := a[..i];
    j := i;
    while j > 0 && cmp(a[j - 1], x) > 0.0
      invariant 0 <= j <= i
      invariant forall k :: 0 <= k < j ==> a[k] == prefix[k]
      invariant forall k :: j < k <= i ==> a[k] == prefix[k - 1]
      invariant forall k :: i < k < a.Length ==> a[k] == old(a[k])
      invariant forall k :: j <= k < i ==> cmp(prefix[k], x) > 0.0
    {
      a[j] := a[j - 1];
      j := j - 1;
    }
    InsertAt(prefix, x, cmp, j);
  }

  /**
   * One step of the in-place sort: `a[..i]` already sorted, `a[i]` is moved
   * left past the elements that must go after it.
   */
  method InsertInPlace<T>(a: array<T>, i: nat, cmp: Comparator<T>)
    requires i < a.Length
    modifies a
    ensures a[..i + 1] == Insert(old(a[..i]), old(a[i]), cmp)
    ensures a[i + 1..] == old(a[i + 1..])
  {
    var x := a[i];
    ghost var prefix := a[..i];
    var j := ShiftRight(a, i, x, cmp);
    a[j] := x;
    PutIn(a[..i + 1], prefix, j, x);
    assert a[i + 1..] == old(a[i + 1..]) by {
      forall k | i + 1 <= k < a.Length ensures a[k] == old(a[k]) { }
    }
  }

  /** `Array.prototype.sort` on `a`: afterwards `a` holds the stable sort of its old contents. */
  method SortInPlace<T>(a: array<T>, cmp: Comparator<T>)
    modifies a
    ensures a[..] == Sort(old(a[..]), cmp)
  {
    ghost var orig := a[..];
    var i := 0;
    while i < a.Length
      invariant 0 <= i <= a.Length
      invariant a[..i] == Sort(orig[..i], cmp)
      invariant a[i..] == orig[i..]
    {
      assert a[i] == orig[i] by { assert a[i..][0] == orig[i..][0]; }
      InsertInPlace(a, i, cmp);
      assert orig[..i + 1][..i] == orig[..i];
      i := i + 1;
    }
    assert orig[..a.Length] == orig;
  }

  /** A fresh array holding `s`. */
  method NewArray<T>(s: seq<T>) returns (a: array<T>)
    ensures fresh(a) && a[..] == s
  {
    a := new T[|s|](k requires 0 <= k < |s| => s[k]);
  }
}
