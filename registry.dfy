/**
 * The decorator registry (core/src/components/registry.ts): a map from a
 * category name to a JavaScript `Map`, each created on first access. The
 * process-wide default instance becomes an explicit `Registry` object that the
 * decorators and the injector receive.
 */
module Registries {
  import opened Common
  import opened Js

  const CONTROLLER: string := "Controller"
  const WEBSOCKET: string := "WebSocket"
  const INJECT: string := "Inject"
  const INJECTABLE: string := "Injectable"

  /** A key of a category map: a path or component name, or a prototype (for the INJECT category). */
  datatype Key = Name(s: string) | Proto(p: ProtoId)

  type Entries = seq<(Key, Value)>

  /** `m.get(k)` on a map whose entries, in insertion order, are `es`. */
  function Get(es: Entries, k: Key): (r: Option<Value>)
    ensures r.Some? ==> (k, r.value) in es
    decreases |es|
  {
    if es == [] then None
    else if es[0].0 == k then Some(es[0].1)
    else Get(es[1..], k)
  }

  /** `m.has(k)`: the map gives a value for `k` exactly when some entry has key `k`. */
  lemma {:induction false} GetFound(es: Entries, k: Key)
    ensures Get(es, k).Some? <==> exists i | 0 <= i < |es| :: es[i].0 == k
    decreases |es|
  {
    if es != [] && es[0].0 != k {
      GetFound(es[1..], k);
      if exists i | 0 <= i < |es| :: es[i].0 == k {
        var i :| 0 <= i < |es| && es[i].0 == k;
        assert es[1..][i - 1].0 == k;
      }
    }
  }

  /** No key occurs twice. */
  predicate DistinctKeys(es: Entries)
  {
    forall i, j | 0 <= i < j < |es| :: es[i].0 != es[j].0
  }

  /**
   * `m.set(k, v)`: an existing key keeps its position and takes the new value;
   * a new key is appended.
   */
  function Put(es: Entries, k: Key, v: Value): (r: Entries)
    ensures Get(r, k) == Some(v)
    ensures forall k' | k' != k :: Get(r, k') == Get(es, k')
    ensures |r| == if Get(es, k).Some? then |es| else |es| + 1
    decreases |es|
  {
    if es == [] then [(k, v)]
    else if es[0].0 == k then [(k, v)] + es[1..]
    else [es[0]] + Put(es[1..], k, v)
  }

  /** Setting a key the map does not have appends one entry at the end. */
  lemma {:induction false} PutAppends(es: Entries, k: Key, v: Value)
    requires Get(es, k).None?
    ensures Put(es, k, v) == es + [(k, v)]
    decreases |es|
  {
    if es != [] {
      PutAppends(es[1..], k, v);
      assert es == [es[0]] + es[1..];
    }
  }

  /** Setting a key the map has keeps every entry's key in place. */
  lemma {:induction false} PutKeepsKeys(es: Entries, k: Key, v: Value)
    requires Get(es, k).Some?
    ensures |Put(es, k, v)| == |es|
    ensures forall i | 0 <= i < |es| :: Put(es, k, v)[i].0 == es[i].0
    decreases |es|
  {
    if es[0].0 != k {
      PutKeepsKeys(es[1..], k, v);
    }
  }

  /** Setting a key keeps the keys of the map distinct. */
  lemma PutKeepsDistinct(es: Entries, k: Key, v: Value)
    requires DistinctKeys(es)
    ensures DistinctKeys(Put(es, k, v))
  {
    var r := Put(es, k, v);
    if Get(es, k).Some? {
      PutKeepsKeys(es, k, v);
      forall i, j | 0 <= i < j < |r| ensures r[i].0 != r[j].0 {
        assert r[i].0 == es[i].0 && r[j].0 == es[j].0;
      }
    } else {
      PutAppends(es, k, v);
      GetFound(es, k);
      var appended := es + [(k, v)];
      forall i, j | 0 <= i < j < |appended| ensures appended[i].0 != appended[j].0 {
        assert appended[i] == es[i];
        if j < |es| {
          assert appended[j] == es[j];
        }
      }
    }
  }

  /** The entries of category `name` in `maps`; a category not created yet has none. */
  function Category(maps: map<string, Entries>, name: string): Entries
  {
    if name in maps then maps[name] else []
  }

  /** Creating a missing category empty, as `getMap` does, changes no category's entries. */
  lemma CreationKeepsCategories(maps: map<string, Entries>, name: string)
    ensures forall n :: Category(maps[name := Category(maps, name)], n) == Category(maps, n)
  {
  }

  class Registry {
    /** `this.map`: each category's map, by category name. */
    var maps: map<string, Entries>

    /** No category map holds a key twice. */
    ghost predicate Valid()
      reads this
    {
      forall n | n in maps :: DistinctKeys(maps[n])
    }

    /** The entries of category `name`; a category not created yet has none. */
    function Of(name: string): Entries
      reads this
    {
      Category(maps, name)
    }

    constructor ()
      ensures Valid() && maps == map[]
    {
      maps := map[];
    }

    /**
     * `getMap(name)`: the category's map; the first call creates it empty,
     * and no call changes any other category.
     */
    method GetMap(name: string) returns (m: Entries)
      requires Valid()
      modifies this
      ensures Valid()
      ensures m == old(Of(name))
      ensures maps == old(maps)[name := m]
    {
      if name !in maps {
        maps := maps[name := []];
      }
      m := maps[name];
    }

    /** `m.set(key, value)` on the map `getMap(name)` returned. */
    method SetIn(name: string, key: Key, value: Value)
      requires Valid() && name in maps
      modifies this
      ensures Valid()
      ensures maps == old(maps)[name := Put(old(maps[name]), key, value)]
    {
      PutKeepsDistinct(maps[name], key, value);
      maps := maps[name := Put(maps[name], key, value)];
    }

    /**
     * `set(name, key, value)`: the category's map now gives `value` for `key`,
     * every other key of it keeps its value, and every other category is unchanged.
     */
    method Set(name: string, key: Key, value: Value)
      requires Valid()
      modifies this
      ensures Valid()
      ensures maps == old(maps)[name := Put(old(Of(name)), key, value)]
    {
      var _ := GetMap(name);
      SetIn(name, key, value);
    }
  }
}
