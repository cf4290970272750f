/**
 * The Jinja filters (records/filters.py): the registry that filter functions
 * enter under a name, the copying of every registered filter into an
 * environment, and the `split_to_list` filter.
 */
module Filters {
  import opened Text

  /** A filter function, known by the name of the Python function it is. */
  datatype Filter = Filter(qualname: string)

  /** The registry of filters, by name in insertion order. */
  class FilterRegistry {
    var filters: map<string, Filter>
    var order: seq<string>

    /** The order lists every name once. */
    ghost predicate Valid()
      reads this
    {
      && (forall k :: k in filters <==> k in order)
      && (forall i, j | 0 <= i < j < |order| :: order[i] != order[j])
    }

    constructor ()
      ensures Valid() && filters == map[] && order == []
    {
      filters := map[];
      order := [];
    }

    /**
     * `register(name)(func)`: the function is stored under the name, replacing
     * an earlier one in its place, and returned unchanged.
     */
    method Register(name: string, f: Filter) returns (r: Filter)
      requires Valid()
      modifies this
      ensures Valid()
      ensures r == f
      ensures filters == old(filters)[name := f]
      ensures order == if name in old(filters) then old(order) else old(order) + [name]
    {
      if name !in filters {
        order := order + [name];
      }
      filters := filters[name := f];
      r := f;
    }

    /** `get_filters()`: every name with its filter, once each, in registration order. */
    function GetFilters(): (r: seq<(string, Filter)>)
      reads this
      requires Valid()
      ensures |r| == |order| && forall i | 0 <= i < |r| :: r[i].0 == order[i]
      ensures forall k :: k in filters <==> exists i | 0 <= i < |r| :: r[i].0 == k
      ensures forall i | 0 <= i < |r| :: r[i].0 in filters && r[i].1 == filters[r[i].0]
      ensures forall i, j | 0 <= i < j < |r| :: r[i].0 != r[j].0
    {
      var r := seq(|order|, i requires 0 <= i < |order| && order[i] in filters reads this => (order[i], filters[order[i]]));
      assert forall k | k in filters :: exists i | 0 <= i < |r| :: r[i].0 == k by {
        forall k | k in filters
          ensures exists i | 0 <= i < |r| :: r[i].0 == k
        {
          var i :| 0 <= i < |order| && order[i] == k;
          assert r[i].0 == k;
        }
      }
      r
    }
  }

  /** A Jinja environment, as far as its filters go. */
  class Environment {
    var filters: map<string, Filter>

    constructor (initial: map<string, Filter>)
      ensures filters == initial
    {
      filters := initial;
    }
  }

  /** The part of `m` under the keys listed in `keys`. */
  function Restrict(m: map<string, Filter>, keys: seq<string>): (r: map<string, Filter>)
    ensures forall k :: k in r <==> k in m && k in keys
    ensures forall k | k in r :: r[k] == m[k]
  {
    map k | k in m && k in keys :: m[k]
  }

  /** Putting the entry of the next listed key adds one more key to the restriction. */
  lemma AddStep(base: map<string, Filter>, m: map<string, Filter>, keys: seq<string>, idx: nat)
    requires idx < |keys| && keys[idx] in m
    ensures (base + Restrict(m, keys[..idx]))[keys[idx] := m[keys[idx]]] == base + Restrict(m, keys[..idx + 1])
  {
    assert keys[..idx + 1] == keys[..idx] + [keys[idx]];
  }

  /** Once every key is listed, the restriction is the whole map. */
  lemma AddDone(m: map<string, Filter>, keys: seq<string>)
    requires forall k :: k in m <==> k in keys
    ensures Restrict(m, keys[..|keys|]) == m
  {
    assert keys[..|keys|] == keys;
  }

  /**
   * `add_filters(environment)`: every registered filter is put into the
   * environment under its name, overriding a filter the environment already had
   * under that name; the environment itself is returned.
   */
  method AddFilters(environment: Environment, registry: FilterRegistry) returns (r: Environment)
    requires registry.Valid()
    modifies environment
    ensures r == environment
    ensures environment.filters == old(environment.filters) + registry.filters
  {
    var items := registry.GetFilters();
    for idx := 0 to |items|
      invariant environment.filters == old(environment.filters) + Restrict(registry.filters, registry.order[..idx])
    {
      var (key, func) := items[idx];
      AddStep(old(environment.filters), registry.filters, registry.order, idx);
      environment.filters := environment.filters[key := func];
    }
    AddDone(registry.filters, registry.order);
    r := environment;
  }

  /**
   * `split_to_list`: the lines of a string, split at every newline; there is at
   * least one, none holds a newline, and joining them back gives the string.
   */
  function SplitToList(s: string): (r: seq<string>)
    ensures |r| >= 1
    ensures Join(r, "\n") == s
    ensures forall i | 0 <= i < |r| :: !Contains(r[i], "\n")
  {
    SplitJoin(s, "\n");
    SplitPartsFree(s, "\n");
    Split(s, "\n")
  }
}
