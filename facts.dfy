/**
 * The facts of the report, as the table exporter sees them. The report's fact
 * store is not part of this model: a fact is given by the aspects its
 * `aspects()` lists, in that order, and by its value read as an integer.
 */
module Facts {
  import opened Wrappers

  /** An aspect of a fact (concept, period, unit, a dimension...): a name and an opaque value. */
  datatype Aspect<V> = Aspect(name: string, value: V)

  datatype Fact<V> = Fact(aspects: seq<Aspect<V>>, value: int)

  function NamesOf<V>(aspects: seq<Aspect<V>>): seq<string> {
    seq(|aspects|, i requires 0 <= i < |aspects| => aspects[i].name)
  }

  /** The first aspect of the given name, if any. */
  function Lookup<V>(aspects: seq<Aspect<V>>, name: string): (r: Option<Aspect<V>>)
    ensures r.Some? <==> name in NamesOf(aspects)
    ensures r.Some? ==> r.value in aspects && r.value.name == name
  {
    if |aspects| == 0 then None
    else
      assert NamesOf(aspects) == [aspects[0].name] + NamesOf(aspects[1..]);
      if aspects[0].name == name then Some(aspects[0]) else Lookup(aspects[1..], name)
  }

  /** `fact.aspect(name)`: the fact's aspect of that name, or `undefined`. */
  function FactAspect<V>(f: Fact<V>, name: string): Option<Aspect<V>> {
    Lookup(f.aspects, name)
  }
}
