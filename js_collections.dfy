/**
 * JavaScript's insertion-ordered `Set` and `Map`, as the table exporter uses
 * them. A Set is a sequence without repetitions in iteration order; a Map is
 * its key sequence plus, per key, a value that may be `undefined` (None).
 */
module JsCollections {
  import opened Wrappers
  import opened SeqFacts

  /** No element occurs twice: what a Set guarantees of its iteration order. */
  predicate Distinct<T(==,!new)>(s: seq<T>) {
    forall i, j :: 0 <= i < j < |s| ==> s[i] != s[j]
  }

  /** `set.add(x)`: a new element goes last, one already present keeps its place. */
  function Add<T(==,!new)>(s: seq<T>, x: T): (r: seq<T>)
    ensures forall y :: y in r <==> y in s || y == x
    ensures |s| <= |r| && r[..|s|] == s
    ensures Distinct(s) ==> Distinct(r)
  {
    if x in s then s else s + [x]
  }

  /** `for (const x of xs) set.add(x)` */
  function AddAll<T(==,!new)>(s: seq<T>, xs: seq<T>): (r: seq<T>)
    ensures forall y :: y in r <==> y in s || y in xs
    ensures |s| <= |r| && r[..|s|] == s
    ensures Distinct(s) ==> Distinct(r)
  {
    if |xs| == 0 then s
    else
      assert xs == xs[..|xs| - 1] + [xs[|xs| - 1]];
      var init := AddAll(s, xs[..|xs| - 1]);
      var r := Add(init, xs[|xs| - 1]);
      assert r[..|s|] == r[..|init|][..|s|];
      r
  }

  /** Adding elements that are all present changes nothing. */
  lemma {:induction false} AddAllPresent<T(!new)>(s: seq<T>, xs: seq<T>)
    requires forall x :: x in xs ==> x in s
    ensures AddAll(s, xs) == s
  {
    if |xs| > 0 {
      var init := xs[..|xs| - 1];
      assert forall x :: x in init ==> x in xs;
      AddAllPresent(s, init);
      assert xs[|xs| - 1] in xs;
    }
  }

  /** Adding distinct elements to an empty Set keeps them in their order. */
  lemma {:induction false} AddAllDistinct<T(!new)>(xs: seq<T>)
    requires Distinct(xs)
    ensures AddAll([], xs) == xs
  {
    if |xs| > 0 {
      var init, x := xs[..|xs| - 1], xs[|xs| - 1];
      assert xs == init + [x];
      forall i, j | 0 <= i < j < |init| ensures init[i] != init[j] {
        assert init[i] == xs[i] && init[j] == xs[j];
      }
      AddAllDistinct(init);
      forall k | 0 <= k < |init| ensures init[k] != x {
        assert init[k] == xs[k];
      }
      assert AddAll([], xs) == Add(init, x);
    }
  }

  /** The elements of `s` that are not in `xs`, in their order in `s`:
      what is left of a Set after `set.delete(x)` for every `x` of `xs`. */
  function Without<T(==,!new)>(s: seq<T>, xs: seq<T>): (r: seq<T>)
    ensures forall y :: y in r <==> y in s && y !in xs
    ensures |r| <= |s|
    ensures Distinct(s) ==> Distinct(r)
  {
    if |s| == 0 then []
    else
      assert s == s[..|s| - 1] + [s[|s| - 1]];
      var init := Without(s[..|s| - 1], xs);
      if s[|s| - 1] in xs then init else init + [s[|s| - 1]]
  }

  /** Deletion keeps order: deleting from a concatenation deletes from each part. */
  lemma {:induction false} WithoutAppend<T(!new)>(a: seq<T>, b: seq<T>, xs: seq<T>)
    ensures Without(a + b, xs) == Without(a, xs) + Without(b, xs)
  {
    if |b| == 0 {
      assert a + b == a;
    } else {
      var init, last := b[..|b| - 1], b[|b| - 1];
      assert (a + b)[..|a + b| - 1] == a + init;
      WithoutAppend(a, init, xs);
    }
  }

  /** A single element survives exactly when it is not deleted. */
  lemma WithoutSingle<T(!new)>(x: T, xs: seq<T>)
    ensures Without([x], xs) == if x in xs then [] else [x]
  {
    assert [x][..0] == [];
  }

  /** Deleting one more element from the result of `Without`. */
  lemma {:induction false} WithoutThenDelete<T(!new)>(s: seq<T>, xs: seq<T>, x: T)
    ensures Without(Without(s, xs), [x]) == Without(s, xs + [x])
  {
    if |s| > 0 {
      var init, last := s[..|s| - 1], s[|s| - 1];
      WithoutThenDelete(init, xs, x);
      var w := Without(init, xs);
      if last !in xs {
        assert (w + [last])[..|w|] == w;
      }
    }
  }

  /** Deleting elements that are not there changes nothing. */
  lemma {:induction false} WithoutAbsent<T(!new)>(s: seq<T>, xs: seq<T>)
    requires forall y :: y in xs ==> y !in s
    ensures Without(s, xs) == s
  {
    if |s| > 0 {
      var init := s[..|s| - 1];
      assert forall y :: y in init ==> y in s;
      WithoutAbsent(init, xs);
      assert s == init + [s[|s| - 1]];
    }
  }

  /** Deleting nothing changes nothing. */
  lemma WithoutNothing<T(!new)>(s: seq<T>)
    ensures Without(s, []) == s
  {
    WithoutAbsent(s, []);
  }

  /** Deleting the elements of `xs` one by one, in order. */
  lemma WithoutPrefixStep<T(!new)>(s: seq<T>, xs: seq<T>, i: nat)
    requires i < |xs|
    ensures Without(Without(s, xs[..i]), [xs[i]]) == Without(s, xs[..i + 1])
  {
    WithoutThenDelete(s, xs[..i], xs[i]);
    PrefixStep(xs, i);
  }

  /** Deleting the same element twice is deleting it once. */
  lemma WithoutTwice<T(!new)>(s: seq<T>, x: T)
    ensures Without(Without(s, [x]), [x]) == Without(s, [x])
  {
    WithoutThenDelete(s, [x], x);
    WithoutSameElements(s, [x] + [x], [x]);
  }

  /** Deleting `x` from a Set, whether or not it was deleted before, leaves the same Set. */
  lemma WithoutAgain<T(!new)>(s: seq<T>, r: seq<T>, x: T)
    requires r == s || r == Without(s, [x])
    ensures Without(r, [x]) == Without(s, [x])
  {
    if r != s {
      WithoutTwice(s, x);
    }
  }

  /** Only which elements are deleted matters, not how often or in what order. */
  lemma {:induction false} WithoutSameElements<T(!new)>(s: seq<T>, xs: seq<T>, ys: seq<T>)
    requires forall y :: y in xs <==> y in ys
    ensures Without(s, xs) == Without(s, ys)
  {
    if |s| > 0 {
      WithoutSameElements(s[..|s| - 1], xs, ys);
    }
  }

  /** A Map: its keys in insertion order and, per key, a value or `undefined` (None). */
  datatype JsMap<K(==,!new), W> = JsMap(keys: seq<K>, entries: map<K, Option<W>>)
  {
    ghost predicate Valid() {
      Distinct(keys) && forall k :: k in entries <==> k in keys
    }

    /** `map.get(k)`: `undefined` for a missing key as for a key mapped to `undefined`. */
    function Get(k: K): (r: Option<W>)
      ensures k in entries ==> r == entries[k]
      ensures k !in entries ==> r == None
      ensures Valid() && k !in keys ==> r == None
      ensures Valid() && r.Some? ==> k in keys
    {
      if k in entries then entries[k] else None
    }

    /** `map.set(k, w)`: a new key goes last, an existing key keeps its place. */
    function Set(k: K, w: Option<W>): (r: JsMap<K, W>)
      ensures r.keys == if k in entries then keys else keys + [k]
      ensures Valid() ==> r.Valid()
      ensures r.Get(k) == w
      ensures forall k' :: k' != k ==> r.Get(k') == Get(k')
    {
      if k in entries then JsMap(keys, entries[k := w]) else JsMap(keys + [k], entries[k := w])
    }

    /** Deleting a key the Map lacks leaves the Map as it was. */
    lemma DeleteMissing(k: K)
      requires Valid() && k !in entries
      ensures Delete(k) == this
    {
      WithoutAbsent(keys, [k]);
      assert entries - {k} == entries;
    }

    /** Setting a key the Map lacks and deleting it again leaves the Map as it was. */
    lemma SetThenDeleteFresh(k: K, w: Option<W>)
      requires Valid() && k !in entries
      ensures Set(k, w).Delete(k) == this
    {
      var s := keys + [k];
      assert s[..|s| - 1] == keys;
      WithoutAbsent(keys, [k]);
      assert Without(s, [k]) == keys;
      assert entries[k := w] - {k} == entries;
    }

    /** `map.delete(k)` */
    function Delete(k: K): (r: JsMap<K, W>)
      ensures r.keys == Without(keys, [k])
      ensures Valid() ==> r.Valid()
      ensures r.Get(k) == None
      ensures forall k' :: k' != k ==> r.Get(k') == Get(k')
    {
      JsMap(Without(keys, [k]), entries - {k})
    }
  }
}
