/**
 * The class and property decorators of core/src/components: `Controller` and
 * `WebSocket` register a class under request paths, `Inject` records a field
 * name for a prototype and `Injectable` instantiates a class under component
 * names. Each one writes into the registry it is given.
 */
module Decorators {
  import opened Common
  import opened Js
  import opened Registries

  /** The entries after setting every path of `paths`, left to right, to `v`. */
  function PutAll(es: Entries, paths: seq<string>, v: Value): (r: Entries)
    ensures forall p | p in paths :: Get(r, Name(p)) == Some(v)
    ensures forall k: Key | !(k.Name? && k.s in paths) :: Get(r, k) == Get(es, k)
    decreases |paths|
  {
    if paths == [] then es
    else Put(PutAll(es, paths[..|paths| - 1], v), Name(paths[|paths| - 1]), v)
  }

  /** Setting paths keeps the keys distinct. */
  lemma {:induction false} PutAllKeepsDistinct(es: Entries, paths: seq<string>, v: Value)
    requires DistinctKeys(es)
    ensures DistinctKeys(PutAll(es, paths, v))
    decreases |paths|
  {
    if paths != [] {
      PutAllKeepsDistinct(es, paths[..|paths| - 1], v);
      PutKeepsDistinct(PutAll(es, paths[..|paths| - 1], v), Name(paths[|paths| - 1]), v);
    }
  }

  /** The map grows by one entry for each path it did not have, and by no more. */
  lemma {:induction false} PutAllSize(es: Entries, paths: seq<string>, v: Value)
    ensures |es| <= |PutAll(es, paths, v)| <= |es| + |paths|
    decreases |paths|
  {
    if paths != [] {
      PutAllSize(es, paths[..|paths| - 1], v);
    }
  }

  /** The category maps after `Controller` or `WebSocket` set `paths` to `v` in `category`. */
  function Registered(maps: map<string, Entries>, category: string, paths: seq<string>, v: Value): (r: map<string, Entries>)
    ensures r.Keys == if paths == [] then maps.Keys else maps.Keys + {category}
    ensures forall n | n in maps && n != category :: r[n] == maps[n]
  {
    if paths == [] then maps
    else maps[category := PutAll(if category in maps then maps[category] else [], paths, v)]
  }

  /** The loop shared by `Controller` and `WebSocket`: `registry.set(category, path, target)` for each path. */
  method RegisterPaths(reg: Registry, category: string, paths: seq<string>, target: ClassDesc)
    requires reg.Valid()
    modifies reg
    ensures reg.Valid()
    ensures reg.maps == Registered(old(reg.maps), category, paths, ClassRef(target))
  {
    for i := 0 to |paths|
      invariant reg.Valid()
      invariant reg.maps == Registered(old(reg.maps), category, paths[..i], ClassRef(target))
    {
      RegisteredStep(old(reg.maps), category, paths, i, ClassRef(target));
      reg.Set(category, Name(paths[i]), ClassRef(target));
    }
    assert paths[..|paths|] == paths;
  }

  /** One more path is one more `set`. */
  lemma RegisteredStep(maps: map<string, Entries>, category: string, paths: seq<string>, i: nat, v: Value)
    requires i < |paths|
    ensures var before := Registered(maps, category, paths[..i], v);
      Registered(maps, category, paths[..i + 1], v) ==
        before[category := Put(if category in before then before[category] else [], Name(paths[i]), v)]
  {
    assert paths[..i + 1][..i] == paths[..i];
  }

  /**
   * After `Controller` or `WebSocket`, every path gives the target class, every
   * other key of the category keeps its value, and no other category changes.
   */
  lemma RegisteredMeaning(maps: map<string, Entries>, category: string, paths: seq<string>, v: Value)
    ensures var after := Registered(maps, category, paths, v);
      && (forall n | n != category :: (n in after <==> n in maps) && (n in maps ==> after[n] == maps[n]))
      && (category in after <==> category in maps || paths != [])
      && (category in after ==>
            && (forall p | p in paths :: Get(after[category], Name(p)) == Some(v))
            && (forall k: Key | !(k.Name? && k.s in paths) :: category in maps ==> Get(after[category], k) == Get(maps[category], k)))
  {
  }

  /** `Controller(...paths)(target)`: every path maps to `target` in the CONTROLLER category. */
  method Controller(reg: Registry, paths: seq<string>, target: ClassDesc)
    requires reg.Valid()
    modifies reg
    ensures reg.Valid()
    ensures reg.maps == Registered(old(reg.maps), CONTROLLER, paths, ClassRef(target))
  {
    RegisterPaths(reg, CONTROLLER, paths, target);
  }

  /** `WebSocket(...paths)(target)`: every path maps to `target` in the WEBSOCKET category. */
  method WebSocket(reg: Registry, paths: seq<string>, target: ClassDesc)
    requires reg.Valid()
    modifies reg
    ensures reg.Valid()
    ensures reg.maps == Registered(old(reg.maps), WEBSOCKET, paths, ClassRef(target))
  {
    RegisterPaths(reg, WEBSOCKET, paths, target);
  }

  /** The field names recorded for prototype `p`: none when it has no list yet. */
  function FieldsOf(es: Entries, p: ProtoId): (r: seq<string>)
    ensures Get(es, Proto(p)).None? ==> r == []
    ensures r != [] ==> (Proto(p), FieldNames(r)) in es
  {
    match Get(es, Proto(p))
    case Some(FieldNames(names)) => names
    case _ => []
  }

  /**
   * The INJECT entries after `Inject(p, field)`: a prototype without an entry
   * first gets an empty list, then `field` is pushed onto its list. `None`
   * when the entry holds something that is not a list, where `push` throws.
   */
  function AddField(es: Entries, p: ProtoId, field: string): (r: Option<Entries>)
    ensures r.None? <==> Get(es, Proto(p)).Some? && !Get(es, Proto(p)).value.FieldNames?
    ensures r.Some? ==> Get(r.value, Proto(p)) == Some(FieldNames(FieldsOf(es, p) + [field]))
    ensures r.Some? ==> forall k | k != Proto(p) :: Get(r.value, k) == Get(es, k)
    ensures r.Some? ==> |r.value| == |es| + (if Get(es, Proto(p)).None? then 1 else 0)
  {
    var listed := if Get(es, Proto(p)).None? then Put(es, Proto(p), FieldNames([])) else es;
    match Get(listed, Proto(p))
    case Some(FieldNames(names)) => Some(Put(listed, Proto(p), FieldNames(names + [field])))
    case _ => None
  }

  /** A prototype seen for the first time is appended to the map with a one-field list. */
  lemma AddFieldFirst(es: Entries, p: ProtoId, field: string)
    requires Get(es, Proto(p)).None?
    ensures AddField(es, p, field) == Some(es + [(Proto(p), FieldNames([field]))])
  {
    PutAppends(es, Proto(p), FieldNames([]));
    var listed := es + [(Proto(p), FieldNames([]))];
    assert Get(listed, Proto(p)) == Some(FieldNames([]));
    assert [] + [field] == [field];
    PutLast(es, Proto(p), FieldNames([]), FieldNames([field]));
  }

  /** Setting the key of the last entry replaces that entry in place. */
  lemma {:induction false} PutLast(es: Entries, k: Key, v: Value, w: Value)
    requires Get(es, k).None?
    ensures Put(es + [(k, v)], k, w) == es + [(k, w)]
    decreases |es|
  {
    if es != [] {
      var tail := es[1..] + [(k, v)];
      assert (es + [(k, v)])[0] == es[0] && (es + [(k, v)])[1..] == tail;
      assert es[0].0 != k;
      PutLast(es[1..], k, v, w);
      assert Put(es + [(k, v)], k, w) == [es[0]] + Put(tail, k, w);
      assert es == [es[0]] + es[1..];
    }
  }

  /** Pushing twice records both fields in call order, duplicates included. */
  lemma InjectTwice(es: Entries, p: ProtoId, f: string, g: string)
    requires AddField(es, p, f).Some?
    ensures AddField(AddField(es, p, f).value, p, g).Some?
    ensures FieldsOf(AddField(AddField(es, p, f).value, p, g).value, p) == FieldsOf(es, p) + [f, g]
  {
  }

  /**
   * `Inject(prototype, field)`: the prototype's list in the INJECT category
   * gets `field` at its end; `thrown` when the entry is not a list.
   */
  method Inject(reg: Registry, p: ProtoId, field: string) returns (thrown: bool)
    requires reg.Valid()
    modifies reg
    ensures reg.Valid()
    ensures thrown <==> AddField(old(reg.Of(INJECT)), p, field).None?
    ensures reg.maps == old(reg.maps)[INJECT := if thrown then old(reg.Of(INJECT)) else AddField(old(reg.Of(INJECT)), p, field).value]
  {
    var m := reg.GetMap(INJECT);
    ghost var listed := if Get(m, Proto(p)).None? then Put(m, Proto(p), FieldNames([])) else m;
    ghost var created := reg.maps;
    if Get(m, Proto(p)).None? {
      reg.SetIn(INJECT, Proto(p), FieldNames([]));
    }
    assert reg.maps == created[INJECT := listed];
    var current := Get(reg.maps[INJECT], Proto(p));
    if current.Some? && current.value.FieldNames? {
      assert AddField(m, p, field) == Some(Put(listed, Proto(p), FieldNames(current.value.names + [field])));
      reg.SetIn(INJECT, Proto(p), FieldNames(current.value.names + [field]));
      thrown := false;
    } else {
      assert AddField(m, p, field).None?;
      thrown := true;
    }
  }

  /** Why `Injectable(...names)(target)` throws. */
  datatype InjectableError = Duplicate(name: string) | ConstructorThrew

  /**
   * Where `Injectable(...names)(target)` stops, scanning from index `i` over a
   * map that held `es` before the call: the index of the first name already in
   * use (in `es` or earlier in `names`), or whose instance cannot be made, and
   * why; `|names|` and no error when every name is registered.
   */
  function Stop(es: Entries, names: seq<string>, ctorThrows: bool, i: nat): (r: (nat, Option<InjectableError>))
    requires i <= |names|
    ensures i <= r.0 <= |names|
    decreases |names| - i
  {
    if i == |names| then (i, None)
    else if Get(es, Name(names[i])).Some? || names[i] in names[..i] then (i, Some(Duplicate(names[i])))
    else if ctorThrows then (i, Some(ConstructorThrew))
    else Stop(es, names, ctorThrows, i + 1)
  }

  /**
   * The names before the stop are new and pairwise different; the stop comes
   * with an error exactly when names remain, and the error says why: the name
   * at the stop is in use, or the constructor throws (then nothing is
   * registered).
   */
  lemma {:induction false} StopMeaning(es: Entries, names: seq<string>, ctorThrows: bool, i: nat)
    requires i <= |names|
    ensures var r := Stop(es, names, ctorThrows, i);
      && (r.1.None? <==> r.0 == |names|)
      && (forall j | i <= j < r.0 :: Get(es, Name(names[j])).None? && names[j] !in names[..j])
      && (r.1.Some? && r.1.value.Duplicate? ==>
            r.1.value.name == names[r.0] && (Get(es, Name(names[r.0])).Some? || names[r.0] in names[..r.0]))
      && (r.1 == Some(ConstructorThrew) ==>
            ctorThrows && Get(es, Name(names[r.0])).None? && names[r.0] !in names[..r.0])
      && (ctorThrows ==> r.0 == i)
    decreases |names| - i
  {
    if i < |names| && !(Get(es, Name(names[i])).Some? || names[i] in names[..i]) && !ctorThrows {
      StopMeaning(es, names, ctorThrows, i + 1);
    }
  }

  /** A name already in the map makes `Injectable` throw before it registers anything. */
  lemma DuplicateFirst(es: Entries, names: seq<string>, ctorThrows: bool)
    requires |names| > 0 && Get(es, Name(names[0])).Some?
    ensures Stop(es, names, ctorThrows, 0) == (0, Some(Duplicate(names[0])))
  {
  }

  /** The entries `Injectable` adds: each name with its own instance, in order. */
  function Registrations(names: seq<string>, insts: seq<Instance>): (r: Entries)
    requires |names| == |insts|
    ensures |r| == |names|
    decreases |names|
  {
    if names == [] then [] else Registrations(names[..|names| - 1], insts[..|insts| - 1]) + [(Name(names[|names| - 1]), Component(insts[|insts| - 1]))]
  }

  /** The `j`-th registration is the `j`-th name with the `j`-th instance. */
  lemma {:induction false} RegistrationsAt(names: seq<string>, insts: seq<Instance>)
    requires |names| == |insts|
    ensures forall j | 0 <= j < |names| :: Registrations(names, insts)[j] == (Name(names[j]), Component(insts[j]))
    decreases |names|
  {
    if names != [] {
      RegistrationsAt(names[..|names| - 1], insts[..|insts| - 1]);
    }
  }

  /** After the registrations, a name is in use when it was before or it was registered. */
  lemma InUse(es: Entries, names: seq<string>, insts: seq<Instance>, n: string)
    requires |names| == |insts|
    ensures Get(es + Registrations(names, insts), Name(n)).Some? <==> Get(es, Name(n)).Some? || n in names
  {
    var all := es + Registrations(names, insts);
    GetFound(es, Name(n));
    GetFound(all, Name(n));
    RegistrationsAt(names, insts);
    if n in names {
      var j :| 0 <= j < |names| && names[j] == n;
      assert all[|es| + j].0 == Name(n);
    }
    if Get(es, Name(n)).Some? {
      var j :| 0 <= j < |es| && es[j].0 == Name(n);
      assert all[j].0 == Name(n);
    }
    if Get(all, Name(n)).Some? {
      var j :| 0 <= j < |all| && all[j].0 == Name(n);
      if j >= |es| {
        assert names[j - |es|] == n;
      } else {
        assert es[j].0 == Name(n);
      }
    }
  }

  /** One more name that is not in use appends one registration. */
  lemma RegisterStep(es: Entries, names: seq<string>, insts: seq<Instance>, i: nat, c: Instance)
    requires i < |names| && |insts| == i
    ensures es + Registrations(names[..i + 1], insts + [c]) == es + Registrations(names[..i], insts) + [(Name(names[i]), Component(c))]
  {
    assert names[..i + 1][..i] == names[..i];
    assert (insts + [c])[..i] == insts;
  }

  /** No instance occurs twice. */
  predicate Distinct(insts: seq<Instance>)
  {
    forall j, k | 0 <= j < k < |insts| :: insts[j] != insts[k]
  }

  /**
   * `Injectable(...names)(target)`: for each name in turn, throw if the name is
   * in use, otherwise store a new instance of `target` under it. The names
   * before the one that throws stay registered, each with its own instance.
   */
  method Injectable(reg: Registry, names: seq<string>, target: ClassDesc) returns (err: Option<InjectableError>, ghost insts: seq<Instance>)
    requires reg.Valid()
    modifies reg
    ensures reg.Valid()
    ensures err == Stop(old(reg.Of(INJECTABLE)), names, target.ctorThrows, 0).1
    ensures |insts| == Stop(old(reg.Of(INJECTABLE)), names, target.ctorThrows, 0).0
    ensures reg.maps == old(reg.maps)[INJECTABLE := old(reg.Of(INJECTABLE)) + Registrations(names[..|insts|], insts)]
    ensures fresh(insts) && forall x | x in insts :: x.cls == target
    ensures Distinct(insts)
  {
    var m := reg.GetMap(INJECTABLE);
    ghost var es := m;
    ghost var created := reg.maps;
    insts := [];
    assert es + Registrations(names[..0], insts) == es;
    err := None;
    var i := 0;
    while i < |names| && err.None?
      invariant 0 <= i <= |names| && |insts| == i
      invariant reg.Valid()
      invariant err.None? ==> Stop(es, names, target.ctorThrows, 0) == Stop(es, names, target.ctorThrows, i)
      invariant err.Some? ==> Stop(es, names, target.ctorThrows, 0) == (i, err)
      invariant reg.maps == created[INJECTABLE := es + Registrations(names[..i], insts)]
      invariant forall x | x in insts :: x.cls == target
      invariant fresh(insts)
      invariant Distinct(insts)
      decreases |names| - i, if err.None? then 1 else 0
    {
      InUse(es, names[..i], insts, names[i]);
      if Get(reg.maps[INJECTABLE], Name(names[i])).Some? {
        err := Some(Duplicate(names[i]));
      } else if target.ctorThrows {
        err := Some(ConstructorThrew);
      } else {
        var c := AddInstance(reg, created, es + Registrations(names[..i], insts), names[i], target);
        RegisterStep(es, names, insts, i, c);
        FreshAppended(insts, c);
        insts := insts + [c];
        i := i + 1;
      }
    }
  }

  /** One successful step of `Injectable`: `map.set(name, new target())`. */
  method AddInstance(reg: Registry, ghost created: map<string, Entries>, ghost cur: Entries, name: string, target: ClassDesc)
    returns (c: Instance)
    requires reg.Valid() && reg.maps == created[INJECTABLE := cur] && Get(cur, Name(name)).None?
    modifies reg
    ensures fresh(c) && c.cls == target
    ensures reg.Valid() && reg.maps == created[INJECTABLE := cur + [(Name(name), Component(c))]]
  {
    c := new Instance(target);
    PutAppends(cur, Name(name), Component(c));
    reg.SetIn(INJECTABLE, Name(name), Component(c));
  }

  /** Appending an instance that is not in the list yet keeps the list free of repeats. */
  lemma FreshAppended(insts: seq<Instance>, c: Instance)
    requires Distinct(insts) && c !in insts
    ensures Distinct(insts + [c])
  {
    var all := insts + [c];
    forall j, k | 0 <= j < k < |all|
      ensures all[j] != all[k]
    {
      assert all[j] == insts[j];
      if k < |insts| {
        assert all[k] == insts[k];
      }
    }
  }
}
