/**
 * Constant-aspect reduction (`TableExport._getFactsInSlice` and
 * `_getConstantAspectsForSlice`): for one row or column of the grid, the
 * aspects on which all of its facts agree, as a Map from aspect name to the
 * first fact's aspect, or `null` when the slice holds no fact.
 *
 * `Aspect.equalTo` belongs to the report's fact model, which is not part of
 * this model: here an aspect equals another exactly when both are present and
 * equal, and never equals a missing one.
 */
module AspectReducer {
  import opened Wrappers
  import opened JsCollections
  import opened Facts
  import opened Cells

  /** A slice's constant aspects: a Map from aspect name to aspect, or `null`. */
  type AspectMap<V> = JsMap<string, Aspect<V>>

  /** `slice.filter(cell => cell.type === 'fact').map(cell => cell.fact)` */
  function FactsInSlice<V>(slice: seq<Cell<V>>): (r: seq<Fact<V>>)
    ensures |r| <= |slice|
    ensures forall i :: 0 <= i < |slice| && slice[i].FactCell? ==> slice[i].fact in r
    ensures forall k :: 0 <= k < |r| ==> exists i :: 0 <= i < |slice| && slice[i].FactCell? && slice[i].fact == r[k]
  {
    if |slice| == 0 then []
    else
      var init := FactsInSlice(slice[..|slice| - 1]);
      var last := slice[|slice| - 1];
      assert forall i :: 0 <= i < |slice| - 1 ==> slice[..|slice| - 1][i] == slice[i];
      if last.FactCell? then init + [last.fact] else init
  }

  /** Filtering keeps the slice's order: the facts of a concatenation are the
      facts of the first part followed by those of the second. */
  lemma {:induction false} FactsInSliceAppend<V>(a: seq<Cell<V>>, b: seq<Cell<V>>)
    ensures FactsInSlice(a + b) == FactsInSlice(a) + FactsInSlice(b)
  {
    if |b| == 0 {
      assert a + b == a;
    } else {
      assert (a + b)[..|a + b| - 1] == a + b[..|b| - 1];
      FactsInSliceAppend(a, b[..|b| - 1]);
    }
  }

  /** A single cell contributes its fact, if it is a fact cell, and nothing else. */
  lemma FactsInSliceSingle<V>(c: Cell<V>)
    ensures FactsInSlice([c]) == if c.FactCell? then [c.fact] else []
  {
    assert [c][..0] == [];
  }

  /** `allAspectNamesSet`: every aspect name of every fact, in first-seen order. */
  function AllAspectNames<V>(facts: seq<Fact<V>>): (r: seq<string>)
    ensures Distinct(r)
    ensures forall a :: a in r <==> exists i :: 0 <= i < |facts| && a in NamesOf(facts[i].aspects)
  {
    if |facts| == 0 then []
    else
      var init := facts[..|facts| - 1];
      assert forall i :: 0 <= i < |facts| - 1 ==> init[i] == facts[i];
      AddAll(AllAspectNames(init), NamesOf(facts[|facts| - 1].aspects))
  }

  /** Every fact carries aspect `a`, and every fact's aspect `a` equals the first one's. */
  ghost predicate IsConstant<V>(facts: seq<Fact<V>>, a: string)
    requires |facts| > 0
  {
    FactAspect(facts[0], a).Some?
    && forall i :: 0 <= i < |facts| ==> FactAspect(facts[i], a) == FactAspect(facts[0], a)
  }

  /** The names of `names` that are constant over `facts`, in order. */
  ghost function ConstantNames<V>(facts: seq<Fact<V>>, names: seq<string>): (r: seq<string>)
    requires |facts| > 0
    ensures forall a :: a in r <==> a in names && IsConstant(facts, a)
    ensures Distinct(names) ==> Distinct(r)
  {
    if |names| == 0 then []
    else
      var init := names[..|names| - 1];
      var last := names[|names| - 1];
      assert names == init + [last];
      var r0 := ConstantNames(facts, init);
      if IsConstant(facts, last) then r0 + [last] else r0
  }

  /** The Map built from the constant names, each with the first fact's aspect. */
  ghost function ConstantMap<V>(facts: seq<Fact<V>>, names: seq<string>): AspectMap<V>
    requires |facts| > 0
  {
    var ns := ConstantNames(facts, names);
    JsMap(ns, map a | a in ns :: FactAspect(facts[0], a))
  }

  /** The result of `_getConstantAspectsForSlice` for a slice with these facts. */
  ghost function ConstantAspects<V>(facts: seq<Fact<V>>): Option<AspectMap<V>> {
    if |facts| == 0 then None else Some(ConstantMap(facts, AllAspectNames(facts)))
  }

  /** The constant aspects of a row or column of the grid. */
  ghost function SliceConstants<V>(slice: seq<Cell<V>>): Option<AspectMap<V>> {
    ConstantAspects(FactsInSlice(slice))
  }

  /** `null` exactly for a slice without facts. */
  lemma SliceConstantsNull<V>(slice: seq<Cell<V>>)
    ensures SliceConstants(slice).None? <==> forall i :: 0 <= i < |slice| ==> !slice[i].FactCell?
  {
    var facts := FactsInSlice(slice);
    if |facts| > 0 {
      assert facts[0] in facts;
    } else {
      forall i | 0 <= i < |slice| ensures !slice[i].FactCell? {
      }
    }
  }

  /**
   * What the returned Map holds: a name is a key exactly when every fact of
   * the slice carries that aspect and all of them equal the first fact's; its
   * value is then the first fact's aspect, never `undefined`. Keys come only
   * from the facts' aspect names; their order is fixed by ConstantNamesStep.
   */
  lemma ConstantAspectsMeaning<V>(facts: seq<Fact<V>>, a: string)
    requires |facts| > 0
    ensures var m := ConstantAspects(facts).value;
      && m.Valid()
      && (m.Get(a).Some? <==> forall i :: 0 <= i < |facts| ==> FactAspect(facts[i], a).Some? && FactAspect(facts[i], a) == FactAspect(facts[0], a))
      && (m.Get(a).Some? ==> m.Get(a) == FactAspect(facts[0], a) && m.Get(a).value.name == a)
      && (a in m.keys ==> m.Get(a).Some?)
      && (a in m.keys ==> a in AllAspectNames(facts))
  {
  }

  /** Two facts that agree on aspect `A` and differ on `B`: the Map keeps `A`
      and drops `B`. */
  lemma AgreeingAndDifferingAspects<V>(fa: Aspect<V>, fb: Aspect<V>, gb: Aspect<V>)
    requires fa.name != fb.name && fb.name == gb.name && fb != gb
    ensures var m := ConstantAspects([Fact([fa, fb], 0), Fact([fa, gb], 0)]).value;
      m.Get(fa.name) == Some(fa) && m.Get(fb.name) == None
  {
    var facts := [Fact([fa, fb], 0), Fact([fa, gb], 0)];
    assert NamesOf([fa, fb]) == [fa.name, fb.name];
    assert NamesOf([fa, gb]) == [fa.name, gb.name];
    assert FactAspect(facts[1], fb.name) == Some(gb);
    assert !IsConstant(facts, fb.name);
    assert IsConstant(facts, fa.name);
    assert fa.name in AllAspectNames(facts);
  }

  /** The facts of a slice and the names they carry (tableExport.js:113-122). */
  method CollectAspectNames<V>(facts: seq<Fact<V>>) returns (names: seq<string>)
    ensures names == AllAspectNames(facts)
  {
    names := [];
    for i := 0 to |facts|
      invariant names == AllAspectNames(facts[..i])
    {
      assert facts[..i + 1][..i] == facts[..i];
      ghost var before := names;
      var aspects := facts[i].aspects;
      for k := 0 to |aspects|
        invariant names == AddAll(before, NamesOf(aspects[..k]))
      {
        assert NamesOf(aspects[..k + 1])[..k] == NamesOf(aspects[..k]);
        names := Add(names, aspects[k].name);
      }
      assert aspects[..|aspects|] == aspects;
    }
    assert facts[..|facts|] == facts;
  }

  /** The Map of constant names is a well-formed Map. */
  lemma ConstantMapValid<V>(facts: seq<Fact<V>>, names: seq<string>)
    requires |facts| > 0 && Distinct(names)
    ensures ConstantMap(facts, names).Valid()
    ensures forall a :: a in ConstantMap(facts, names).entries <==> a in names && IsConstant(facts, a)
  {
  }

  /** One more name: the constant names grow by that name exactly when it is constant. */
  lemma ConstantNamesStep<V>(facts: seq<Fact<V>>, names: seq<string>, i: nat)
    requires |facts| > 0 && i < |names|
    ensures ConstantNames(facts, names[..i + 1])
         == ConstantNames(facts, names[..i]) + (if IsConstant(facts, names[i]) then [names[i]] else [])
  {
    assert names[..i + 1][..i] == names[..i];
  }

  /** One more name: the Map grows by that name exactly when it is constant. */
  lemma ConstantMapStep<V>(facts: seq<Fact<V>>, names: seq<string>, i: nat)
    requires |facts| > 0 && i < |names| && names[i] !in names[..i]
    ensures ConstantMap(facts, names[..i + 1])
         == if IsConstant(facts, names[i])
            then ConstantMap(facts, names[..i]).Set(names[i], FactAspect(facts[0], names[i]))
            else ConstantMap(facts, names[..i])
  {
    var a := names[i];
    var ns := ConstantNames(facts, names[..i]);
    var m0 := ConstantMap(facts, names[..i]);
    ConstantNamesStep(facts, names, i);
    if IsConstant(facts, a) {
      assert a !in ns;
      var e1 := map b | b in ns + [a] :: FactAspect(facts[0], b);
      var e2 := m0.entries[a := FactAspect(facts[0], a)];
      assert e1.Keys == e2.Keys;
      forall b | b in e1 ensures e1[b] == e2[b] {
      }
      assert e1 == e2;
      assert ConstantMap(facts, names[..i + 1]) == JsMap(ns + [a], e1);
      assert m0.Set(a, FactAspect(facts[0], a)) == JsMap(ns + [a], e2);
    } else {
      assert ConstantNames(facts, names[..i + 1]) == ns;
    }
  }

  /** Facts 1 to `j - 1` carry the first fact's aspect `a` (which must be
      present once a second fact has been compared). */
  ghost predicate AgreeUpTo<V>(facts: seq<Fact<V>>, a: string, j: nat)
    requires 0 < j <= |facts|
  {
    (j <= 1 || FactAspect(facts[0], a).Some?)
    && forall k :: 1 <= k < j ==> FactAspect(facts[k], a) == FactAspect(facts[0], a)
  }

  /** One more fact compared: it must carry the first fact's aspect `a`. */
  lemma AgreeUpToStep<V>(facts: seq<Fact<V>>, a: string, j: nat)
    requires 1 <= j < |facts|
    ensures AgreeUpTo(facts, a, j + 1)
        <==> AgreeUpTo(facts, a, j) && FactAspect(facts[0], a).Some? && FactAspect(facts[j], a) == FactAspect(facts[0], a)
  {
  }

  /** A name taken from the facts is carried by the first fact, unless there
      are later facts to compare it with. */
  lemma NamedAspectPresent<V>(facts: seq<Fact<V>>, a: string)
    requires |facts| > 0 && a in AllAspectNames(facts)
    ensures |facts| > 1 || FactAspect(facts[0], a).Some?
  {
    if |facts| == 1 {
      var i :| 0 <= i < |facts| && a in NamesOf(facts[i].aspects);
      assert i == 0;
    }
  }

  lemma AgreeUpToAll<V>(facts: seq<Fact<V>>, a: string)
    requires |facts| > 0 && (|facts| > 1 || FactAspect(facts[0], a).Some?)
    ensures AgreeUpTo(facts, a, |facts|) <==> IsConstant(facts, a)
  {
    var first := FactAspect(facts[0], a);
    if AgreeUpTo(facts, a, |facts|) {
      assert first.Some?;
      forall k | 0 <= k < |facts| ensures FactAspect(facts[k], a) == first {
        if k > 0 {
          assert 1 <= k < |facts|;
        }
      }
    }
    if IsConstant(facts, a) {
      forall k | 1 <= k < |facts| ensures FactAspect(facts[k], a) == first {
        assert 0 <= k < |facts|;
      }
    }
  }

  /** One name of `allAspectNamesSet` (tableExport.js:126-131): set it to the
      first fact's aspect, then delete it at the first fact that lacks it or
      disagrees. */
  method KeepIfConstant<V(==)>(m: AspectMap<V>, facts: seq<Fact<V>>, a: string) returns (r: AspectMap<V>)
    requires |facts| > 0 && m.Valid() && a !in m.entries && a in AllAspectNames(facts)
    ensures r == if IsConstant(facts, a) then m.Set(a, FactAspect(facts[0], a)) else m
  {
    var first := FactAspect(facts[0], a);
    m.SetThenDeleteFresh(a, first);
    m.DeleteMissing(a);
    var kept := m.Set(a, first);
    assert kept.Get(a) == first;
    r := kept;
    for j := 1 to |facts|
      invariant r == if AgreeUpTo(facts, a, j) then kept else m
    {
      AgreeUpToStep(facts, a, j);
      var current := r.Get(a);
      if current.None? || Some(current.value) != FactAspect(facts[j], a) {
        r := r.Delete(a);
      }
    }
    NamedAspectPresent(facts, a);
    AgreeUpToAll(facts, a);
  }

  /** `_getConstantAspectsForSlice` (tableExport.js:112-134). */
  method GetConstantAspectsForSlice<V(==)>(slice: seq<Cell<V>>) returns (r: Option<AspectMap<V>>)
    ensures r == SliceConstants(slice)
  {
    var facts := FactsInSlice(slice);
    if |facts| == 0 {
      return None;
    }
    var names := CollectAspectNames(facts);
    var constantAspects: AspectMap<V> := JsMap([], map[]);
    for i := 0 to |names|
      invariant constantAspects == ConstantMap(facts, names[..i])
    {
      var a := names[i];
      assert Distinct(names[..i]) && a !in names[..i] by {
        assert forall k :: 0 <= k < i ==> names[..i][k] == names[k];
      }
      ConstantMapValid(facts, names[..i]);
      assert a !in constantAspects.entries;
      ConstantMapStep(facts, names, i);
      constantAspects := KeepIfConstant(constantAspects, facts, a);
    }
    assert names[..|names|] == names;
    return Some(constantAspects);
  }
}
