/**
 * The dependency injector of core/src/components/injector.ts. At
 * construction it copies the INJECTABLE category, checking the reserved
 * `authentication` and `logger` components for the methods their interfaces
 * demand, assigns every `@Inject` field of every component, and starts each
 * component's `init`. The promise that settles when every thenable `init`
 * result has settled is modelled by explicit transitions (`Settle`,
 * `FinishInit`); `done` gates `inject`.
 */
module Injection {
  import opened Common
  import opened Js
  import opened Registries

  const AUTHENTICATION: string := "authentication"
  const LOGGER: string := "logger"

  /**
   * Why the constructor throws: the component under `name` does not implement
   * `iface`, or the `init` of component `inst` threw.
   */
  datatype InjectorError = MissingInterface(name: string, iface: string) | InitThrew(inst: Instance)

  /** The methods the logger interface demands. */
  predicate IsLogger(v: Value)
  {
    HasMethod(v, "info") && HasMethod(v, "warn") && HasMethod(v, "error") && HasMethod(v, "exception")
  }

  /** The check of `registerComponent`: only the two reserved names are checked. */
  function Admission(k: Key, v: Value): (r: Option<InjectorError>)
    ensures r.Some? ==> r.value.MissingInterface?
    ensures r.Some? <==> (k == Name(AUTHENTICATION) && !HasMethod(v, "hasAccess")) || (k == Name(LOGGER) && !IsLogger(v))
    ensures r.Some? ==> r.value.name == k.s
    ensures r.Some? ==> (r.value.iface == "AuthenticationInterface" <==> k == Name(AUTHENTICATION))
  {
    if k == Name(AUTHENTICATION) && !HasMethod(v, "hasAccess") then
      Some(MissingInterface(AUTHENTICATION, "AuthenticationInterface"))
    else if k == Name(LOGGER) && !IsLogger(v) then
      Some(MissingInterface(LOGGER, "LoggerInterface"))
    else
      None
  }

  /** The error of the first entry, in map order, that `registerComponent` rejects. */
  function Rejection(es: Entries): (r: Option<InjectorError>)
    ensures r.Some? ==> r.value.MissingInterface?
    ensures r.None? <==> forall i | 0 <= i < |es| :: Admission(es[i].0, es[i].1).None?
    decreases |es|
  {
    if es == [] then None
    else
      var front := Rejection(es[..|es| - 1]);
      if front.Some? then front else Admission(es[|es| - 1].0, es[|es| - 1].1)
  }

  /** The rejection is the error of an entry that every entry before it passes. */
  lemma {:induction false} RejectionFirst(es: Entries)
    requires Rejection(es).Some?
    ensures exists i | 0 <= i < |es| ::
      && Admission(es[i].0, es[i].1) == Rejection(es)
      && forall j | 0 <= j < i :: Admission(es[j].0, es[j].1).None?
    decreases |es|
  {
    var front := es[..|es| - 1];
    if Rejection(front).Some? {
      RejectionFirst(front);
      var i :| 0 <= i < |front| && Admission(front[i].0, front[i].1) == Rejection(front)
        && forall j | 0 <= j < i :: Admission(front[j].0, front[j].1).None?;
      assert es[i] == front[i];
      assert forall j | 0 <= j < i :: es[j] == front[j];
    } else {
      assert forall j | 0 <= j < |front| :: es[j] == front[j];
    }
  }

  /** A rejection among the first `k` entries is the rejection of the whole map. */
  lemma {:induction false} RejectionPrefix(es: Entries, k: nat)
    requires k <= |es| && Rejection(es[..k]).Some?
    ensures Rejection(es) == Rejection(es[..k])
    decreases |es| - k
  {
    if k < |es| {
      assert es[..k + 1][..k] == es[..k];
      RejectionPrefix(es, k + 1);
    } else {
      assert es[..k] == es;
    }
  }

  /** The component instances a map holds. */
  function Instances(es: Entries): set<Instance>
  {
    set i | 0 <= i < |es| && es[i].1.Component? :: es[i].1.inst
  }

  /** The instances of a map one entry longer. */
  lemma InstancesSnoc(es: Entries, j: nat)
    requires j < |es|
    ensures Instances(es[..j + 1]) == Instances(es[..j]) + (if es[j].1.Component? then {es[j].1.inst} else {})
  {
    var a, b := es[..j + 1], es[..j];
    forall c | c in Instances(a) ensures c in Instances(b) + (if es[j].1.Component? then {es[j].1.inst} else {}) {
      var i :| 0 <= i < |a| && a[i].1.Component? && a[i].1.inst == c;
      if i < j {
        assert b[i] == a[i];
      }
    }
    forall c | c in Instances(b) ensures c in Instances(a) {
      var i :| 0 <= i < |b| && b[i].1.Component? && b[i].1.inst == c;
      assert a[i] == b[i];
    }
  }

  /** Whether the INJECT entry `e` applies to an instance with prototype chain `chain`. */
  predicate Applies(e: (Key, Value), chain: seq<ProtoId>)
  {
    e.0.Proto? && e.0.p in chain
  }

  /** The field names an INJECT entry lists. */
  function Listed(v: Value): seq<string>
  {
    if v.FieldNames? then v.names else []
  }

  /** The index of the last entry, in map order, that applies to the chain. */
  function LastMatch(es: Entries, chain: seq<ProtoId>): (r: Option<nat>)
    ensures r.None? <==> forall i | 0 <= i < |es| :: !Applies(es[i], chain)
    ensures r.Some? ==> r.value < |es| && Applies(es[r.value], chain)
    ensures r.Some? ==> forall j | r.value < j < |es| :: !Applies(es[j], chain)
    decreases |es|
  {
    if es == [] then None
    else if Applies(es[|es| - 1], chain) then Some(|es| - 1)
    else LastMatch(es[..|es| - 1], chain)
  }

  /**
   * `getInstanceProperties`: the list of the LAST entry, in map order, whose
   * prototype is on the instance's chain, not a union of the lists of all of
   * them; none when no entry applies.
   */
  function InstanceProperties(es: Entries, chain: seq<ProtoId>): (r: seq<string>)
    ensures (forall i | 0 <= i < |es| :: !Applies(es[i], chain)) ==> r == []
    ensures forall i | 0 <= i < |es| && Applies(es[i], chain) && (forall j | i < j < |es| :: !Applies(es[j], chain)) ::
      r == Listed(es[i].1)
  {
    match LastMatch(es, chain)
    case None => []
    case Some(i) => Listed(es[i].1)
  }

  /**
   * The fields of an instance after `names.forEach(name => instance[name] = getComponent(name))`:
   * each listed field holds the component of that name, or `undefined`.
   */
  function Wired(f: map<string, Option<Value>>, names: seq<string>, store: Entries): (r: map<string, Option<Value>>)
    ensures forall n | n in names :: n in r && r[n] == Get(store, Name(n))
    ensures forall n | n !in names :: (n in r <==> n in f) && (n in f ==> r[n] == f[n])
    decreases |names|
  {
    if names == [] then f
    else Wired(f, names[..|names| - 1], store)[names[|names| - 1] := Get(store, Name(names[|names| - 1]))]
  }

  /** Assigning the same fields twice gives what assigning them once gives. */
  lemma WiredTwice(f: map<string, Option<Value>>, names: seq<string>, store: Entries)
    ensures Wired(Wired(f, names, store), names, store) == Wired(f, names, store)
  {
    var once := Wired(f, names, store);
    var twice := Wired(once, names, store);
    assert forall n :: n in twice <==> n in once;
    assert forall n | n in twice :: twice[n] == once[n];
  }

  /** The promise the `init` of entry `e` returns, if it returns a thenable. */
  function InitPromise(e: (Key, Value)): seq<Instance>
  {
    if e.1.Component? && e.1.inst.cls.init == ThenableInit then [e.1.inst] else []
  }

  /** The `promises` array: one per component entry, in map order, whose `init` yields a thenable. */
  function Thenables(es: Entries): (r: seq<Instance>)
    ensures |r| <= |es|
    ensures forall c | c in r :: c.cls.init == ThenableInit
    decreases |es|
  {
    if es == [] then [] else Thenables(es[..|es| - 1]) + InitPromise(es[|es| - 1])
  }

  /** The promises of a map one entry longer. */
  lemma ThenablesSnoc(es: Entries, j: nat)
    requires j < |es|
    ensures Thenables(es[..j + 1]) == Thenables(es[..j]) + InitPromise(es[j])
  {
    assert es[..j + 1][..j] == es[..j];
  }

  /** Every promise waited for comes from a component entry whose `init` returns a thenable. */
  lemma {:induction false} ThenablesFromComponents(es: Entries)
    ensures forall c | c in Thenables(es) :: exists i | 0 <= i < |es| :: es[i].1 == Component(c) && c.cls.init == ThenableInit
    decreases |es|
  {
    if es != [] {
      var front := es[..|es| - 1];
      ThenablesFromComponents(front);
      forall c | c in Thenables(es)
        ensures exists i | 0 <= i < |es| :: es[i].1 == Component(c) && c.cls.init == ThenableInit
      {
        if c in Thenables(front) {
          var i :| 0 <= i < |front| && front[i].1 == Component(c) && c.cls.init == ThenableInit;
          assert es[i] == front[i];
        } else {
          assert es[|es| - 1].1 == Component(c);
        }
      }
    }
  }

  /** A component whose `init` is absent or returns a non-thenable adds no promise. */
  lemma {:induction false} PlainInitIgnored(es: Entries)
    requires forall i | 0 <= i < |es| :: !(es[i].1.Component? && es[i].1.inst.cls.init == ThenableInit)
    ensures Thenables(es) == []
    decreases |es|
  {
    if es != [] {
      PlainInitIgnored(es[..|es| - 1]);
    }
  }

  /** Whether calling the `init` of entry `e` throws. */
  predicate InitThrows(e: (Key, Value))
  {
    e.1.Component? && e.1.inst.cls.init == ThrowingInit
  }

  /** The index of the first entry, in map order, whose `init` throws. */
  function FirstThrow(es: Entries): (r: Option<nat>)
    ensures r.None? <==> forall i | 0 <= i < |es| :: !InitThrows(es[i])
    ensures r.Some? ==> r.value < |es| && InitThrows(es[r.value])
    ensures r.Some? ==> forall j | 0 <= j < r.value :: !InitThrows(es[j])
    decreases |es|
  {
    if es == [] then None
    else
      var front := FirstThrow(es[..|es| - 1]);
      if front.Some? then front
      else if InitThrows(es[|es| - 1]) then Some(|es| - 1)
      else None
  }

  /** A throwing `init` among the first `k` entries is the first of the whole map. */
  lemma {:induction false} FirstThrowPrefix(es: Entries, k: nat)
    requires k <= |es| && FirstThrow(es[..k]).Some?
    ensures FirstThrow(es) == FirstThrow(es[..k])
    decreases |es| - k
  {
    if k < |es| {
      assert es[..k + 1][..k] == es[..k];
      FirstThrowPrefix(es, k + 1);
    } else {
      assert es[..k] == es;
    }
  }

  /** The component whose `init` throws first, in map order, if any. */
  function Thrower(es: Entries): (r: Option<Instance>)
    ensures r.Some? <==> exists i | 0 <= i < |es| :: InitThrows(es[i])
    ensures r.Some? ==> r.value.cls.init == ThrowingInit
  {
    match FirstThrow(es)
    case None => None
    case Some(i) => Some(es[i].1.inst)
  }

  /** `new Map(registry.getMap(INJECT))`: a snapshot of the INJECT category. */
  class InjectRegistry {
    const entries: Entries

    constructor (reg: Registry)
      requires reg.Valid()
      modifies reg
      ensures reg.Valid()
      ensures entries == old(reg.Of(INJECT))
      ensures reg.maps == old(reg.maps)[INJECT := entries]
    {
      var m := reg.GetMap(INJECT);
      entries := m;
    }

    /** `getInstanceProperties(instance)`, scanning the snapshot in map order. */
    method GetInstanceProperties(instance: Instance) returns (r: seq<string>)
      ensures r == InstanceProperties(entries, instance.cls.chain)
    {
      r := [];
      for i := 0 to |entries|
        invariant r == InstanceProperties(entries[..i], instance.cls.chain)
      {
        assert entries[..i + 1][..i] == entries[..i];
        assert LastMatch(entries[..i + 1], instance.cls.chain) ==
          if Applies(entries[i], instance.cls.chain) then Some(i) else LastMatch(entries[..i], instance.cls.chain);
        if entries[i].0.Proto? && instance.HasPrototype(entries[i].0.p) {
          r := Listed(entries[i].1);
        }
      }
      assert entries[..|entries|] == entries;
    }
  }

  class Injector {
    /** `this.registry`: the accepted components, by name. */
    var store: Entries
    var injectRegistry: InjectRegistry?
    var done: bool
    /** The thenables `init` returned that have not settled yet. */
    var pending: multiset<Instance>
    /** Whether one of them was rejected, so that `Promise.all` rejects. */
    var rejected: bool

    /** `done` is set only once every `init` promise has been fulfilled. */
    ghost predicate Valid()
      reads this
    {
      injectRegistry != null && (done ==> pending == multiset{} && !rejected)
    }

    /** The fields `@Inject` declares for `instance`. */
    function Props(instance: Instance): seq<string>
      requires injectRegistry != null
      reads this
    {
      InstanceProperties(injectRegistry.entries, instance.cls.chain)
    }

    constructor Empty()
      ensures store == [] && injectRegistry == null && !done && pending == multiset{} && !rejected
    {
      store := [];
      injectRegistry := null;
      done := false;
      pending := multiset{};
      rejected := false;
    }

    /** `getComponent(name)`: the component stored under `name`, `None` (`undefined`) when there is none. */
    function GetComponent(name: string): (r: Option<Value>)
      reads this
      ensures r.Some? ==> (Name(name), r.value) in store
      ensures r.None? <==> forall i | 0 <= i < |store| :: store[i].0 != Name(name)
    {
      GetFound(store, Name(name));
      Get(store, Name(name))
    }

    /** `hasComponent(name)`. */
    function HasComponent(name: string): (r: bool)
      reads this
      ensures r <==> GetComponent(name).Some?
    {
      Get(store, Name(name)).Some?
    }

    /** `registerComponent(name, component)`: reject a reserved name whose component lacks its interface, else store it. */
    method RegisterComponent(k: Key, v: Value) returns (err: Option<InjectorError>)
      modifies this
      ensures err == Admission(k, v)
      ensures store == if err.None? then Put(old(store), k, v) else old(store)
      ensures injectRegistry == old(injectRegistry) && done == old(done)
      ensures pending == old(pending) && rejected == old(rejected)
    {
      if k == Name(AUTHENTICATION) && !HasMethod(v, "hasAccess") {
        return Some(MissingInterface(AUTHENTICATION, "AuthenticationInterface"));
      }
      if k == Name(LOGGER) && !(HasMethod(v, "info") && HasMethod(v, "warn") && HasMethod(v, "error") && HasMethod(v, "exception")) {
        return Some(MissingInterface(LOGGER, "LoggerInterface"));
      }
      store := Put(store, k, v);
      err := None;
    }

    /** `names.forEach((name) => instance[name] = this.getComponent(name))`. */
    method Assign(instance: Instance, names: seq<string>)
      modifies instance
      ensures instance.fields == Wired(old(instance.fields), names, store)
    {
      for i := 0 to |names|
        invariant instance.fields == Wired(old(instance.fields), names[..i], store)
      {
        assert names[..i + 1][..i] == names[..i];
        instance.fields := instance.fields[names[i] := GetComponent(names[i])];
      }
      assert names[..|names|] == names;
    }

    /** `inject(instance)`: once `done`, assign the instance's declared fields; before that, nothing. */
    method Inject(instance: Instance)
      requires Valid()
      modifies instance
      ensures old(done) ==> instance.fields == Wired(old(instance.fields), Props(instance), store)
      ensures !old(done) ==> instance.fields == old(instance.fields)
    {
      if done {
        var names := injectRegistry.GetInstanceProperties(instance);
        Assign(instance, names);
      }
    }

    /** The promise of one `init` call settles: fulfilled, or rejected. */
    method Settle(c: Instance, fulfilled: bool)
      requires Valid() && c in pending
      modifies this
      ensures Valid()
      ensures pending == old(pending) - multiset{c}
      ensures rejected == (old(rejected) || !fulfilled)
      ensures store == old(store) && injectRegistry == old(injectRegistry) && done == old(done)
    {
      pending := pending - multiset{c};
      rejected := rejected || !fulfilled;
    }

    /** `Promise.all(promises).then(() => this.done = true)`: runs once every promise is fulfilled. */
    method FinishInit()
      requires Valid()
      modifies this
      ensures Valid()
      ensures done == (old(done) || (pending == multiset{} && !rejected))
      ensures store == old(store) && injectRegistry == old(injectRegistry)
      ensures pending == old(pending) && rejected == old(rejected)
    {
      if pending == multiset{} && !rejected {
        done := true;
      }
    }

    /** The wiring loop of the constructor, over `this.registry` in map order. */
    method WireAll()
      requires injectRegistry != null
      modifies Instances(store)
      ensures forall c | c in Instances(store) :: c.fields == Wired(old(c.fields), Props(c), store)
    {
      for j := 0 to |store|
        invariant forall c | c in Instances(store) ::
          c.fields == if c in Instances(store[..j]) then Wired(old(c.fields), Props(c), store) else old(c.fields)
      {
        InstancesSnoc(store, j);
        if store[j].1.Component? {
          var c := store[j].1.inst;
          ghost var before := c.fields;
          var names := injectRegistry.GetInstanceProperties(c);
          Assign(c, names);
          if c in Instances(store[..j]) {
            WiredTwice(old(c.fields), Props(c), store);
          }
        }
      }
      assert store[..|store|] == store;
    }

    /**
     * The `init` loop of the constructor: call every component's `init` and
     * wait, through `Promise.all`, for the thenables it returns. An `init`
     * that throws ends the loop, and the constructor, with that component.
     */
    method StartInit() returns (thrown: Option<Instance>)
      modifies this
      ensures thrown == Thrower(store)
      ensures pending == if thrown.None? then multiset(Thenables(store)) else old(pending)
      ensures store == old(store) && injectRegistry == old(injectRegistry)
      ensures done == old(done) && rejected == old(rejected)
    {
      var promises;
      promises, thrown := CollectThenables(store);
      if thrown.None? {
        pending := multiset(promises);
      }
    }

    /**
     * The `promises` array the `init` loop fills: `init` is called on every
     * component in map order until one throws.
     */
    static method CollectThenables(es: Entries) returns (promises: seq<Instance>, thrown: Option<Instance>)
      ensures thrown == Thrower(es)
      ensures thrown.None? ==> promises == Thenables(es)
      ensures thrown.Some? ==> promises == Thenables(es[..FirstThrow(es).value])
    {
      promises := [];
      for j := 0 to |es|
        invariant promises == Thenables(es[..j])
        invariant FirstThrow(es[..j]).None?
      {
        ThenablesSnoc(es, j);
        assert es[..j + 1][..j] == es[..j];
        var e := es[j];
        if e.1.Component? && e.1.inst.cls.init != NoInit {
          if e.1.inst.cls.init == ThrowingInit {
            FirstThrowPrefix(es, j + 1);
            return promises, Some(e.1.inst);
          }
          if e.1.inst.cls.init == ThenableInit {
            promises := promises + [e.1.inst];
          }
        }
      }
      assert es[..|es|] == es;
      thrown := None;
    }

    /**
     * `new Injector()`: copy and check the INJECTABLE category, snapshot the
     * INJECT category, assign every component's declared fields, and start
     * every `init`. The first component that fails its check makes it throw
     * before any field is assigned; an `init` that throws makes it throw after
     * the fields are assigned.
     */
    static method Construct(reg: Registry) returns (r: Result<Injector, InjectorError>)
      requires reg.Valid()
      modifies reg, Instances(reg.Of(INJECTABLE))
      ensures reg.Valid()
      ensures forall n :: reg.Of(n) == old(reg.Of(n))
      ensures reg.maps == if Rejection(old(reg.Of(INJECTABLE))).Some?
        then old(reg.maps)[INJECTABLE := old(reg.Of(INJECTABLE))]
        else old(reg.maps)[INJECTABLE := old(reg.Of(INJECTABLE))][INJECT := old(reg.Of(INJECT))]
      ensures r.Err? <==> Rejection(old(reg.Of(INJECTABLE))).Some? || Thrower(old(reg.Of(INJECTABLE))).Some?
      ensures Rejection(old(reg.Of(INJECTABLE))).Some? ==> r.Err? && r.error == Rejection(old(reg.Of(INJECTABLE))).value
      ensures Rejection(old(reg.Of(INJECTABLE))).None? && Thrower(old(reg.Of(INJECTABLE))).Some? ==>
        r.Err? && r.error == InitThrew(Thrower(old(reg.Of(INJECTABLE))).value)
      ensures Rejection(old(reg.Of(INJECTABLE))).Some? ==>
        forall c | c in Instances(old(reg.Of(INJECTABLE))) :: c.fields == old(c.fields)
      ensures Rejection(old(reg.Of(INJECTABLE))).None? ==>
        forall c | c in Instances(old(reg.Of(INJECTABLE))) ::
          c.fields == Wired(old(c.fields), InstanceProperties(old(reg.Of(INJECT)), c.cls.chain), old(reg.Of(INJECTABLE)))
      ensures r.Ok? ==> fresh(r.value) && r.value.Valid()
      ensures r.Ok? ==> r.value.store == old(reg.Of(INJECTABLE))
      ensures r.Ok? ==> r.value.injectRegistry.entries == old(reg.Of(INJECT))
      ensures r.Ok? ==> !r.value.done && !r.value.rejected && r.value.pending == multiset(Thenables(r.value.store))
    {
      assert |INJECT| != |INJECTABLE|;
      var m := reg.GetMap(INJECTABLE);
      var registered := Register(m);
      if registered.Err? {
        CreationKeepsCategories(old(reg.maps), INJECTABLE);
        return Err(registered.error);
      }
      var inj := registered.value;
      var thrown := inj.Start(reg, old(reg.Of(INJECT)));
      CreationKeepsCategories(old(reg.maps), INJECTABLE);
      CreationKeepsCategories(old(reg.maps)[INJECTABLE := old(reg.Of(INJECTABLE))], INJECT);
      if thrown.Some? {
        return Err(InitThrew(thrown.value));
      }
      r := Ok(inj);
    }

    /**
     * The constructor after registration: snapshot INJECT, assign the declared
     * fields, start every `init`; `thrown` is the component whose `init` threw.
     * `inject` names the INJECT entries at the call.
     */
    method Start(reg: Registry, ghost inject: Entries) returns (thrown: Option<Instance>)
      requires reg.Valid() && injectRegistry == null && !done && !rejected
      requires inject == reg.Of(INJECT)
      modifies this, reg, Instances(store)
      ensures reg.Valid()
      ensures reg.maps == old(reg.maps)[INJECT := old(reg.Of(INJECT))]
      ensures Valid() && fresh(injectRegistry) && injectRegistry.entries == old(reg.Of(INJECT))
      ensures thrown == Thrower(store)
      ensures store == old(store) && !done && !rejected
      ensures thrown.None? ==> pending == multiset(Thenables(store))
      ensures forall c | c in Instances(store) ::
        c.fields == Wired(old(c.fields), InstanceProperties(inject, c.cls.chain), store)
    {
      var ir := new InjectRegistry(reg);
      injectRegistry := ir;
      WireAll();
      thrown := StartInit();
    }

    /** The registration loop of the constructor: `registerComponent` for each entry, in map order. */
    static method Register(es: Entries) returns (r: Result<Injector, InjectorError>)
      requires DistinctKeys(es)
      ensures r.Err? <==> Rejection(es).Some?
      ensures r.Err? ==> r.error == Rejection(es).value
      ensures r.Ok? ==> fresh(r.value) && r.value.store == es && r.value.injectRegistry == null
      ensures r.Ok? ==> !r.value.done && r.value.pending == multiset{} && !r.value.rejected
    {
      var inj := new Injector.Empty();
      for i := 0 to |es|
        modifies inj
        invariant inj.store == es[..i] && Rejection(es[..i]).None?
        invariant inj.injectRegistry == null && !inj.done && inj.pending == multiset{} && !inj.rejected
      {
        assert es[..i + 1][..i] == es[..i];
        var err := inj.RegisterComponent(es[i].0, es[i].1);
        if err.Some? {
          RejectionPrefix(es, i + 1);
          return Err(err.value);
        }
        assert Get(es[..i], es[i].0).None? by {
          forall j | 0 <= j < i
            ensures es[..i][j].0 != es[i].0
          {
            assert es[..i][j] == es[j];
          }
        }
        PutAppends(es[..i], es[i].0, es[i].1);
        assert es[..i] + [es[i]] == es[..i + 1];
      }
      assert es[..|es|] == es;
      r := Ok(inj);
    }
  }
}
