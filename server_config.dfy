/**
 * `ServerConfig.initConfig` of the express package
 * (express/src/server/server.config.ts): fill the falsy fields of a
 * configuration with defaults, and register the default logger and
 * authentication components unless components already hold those names.
 */
module ServerConfigs {
  import opened Common
  import opened Js
  import opened Registries
  import opened Decorators
  import opened Injection

  const DEFAULT_PORT: real := 3000.0

  /** The four fields `initConfig` fills in; `Undefined` is a missing field. */
  datatype Settings = Settings(port: JsValue, default401: JsValue, default404: JsValue, default500: JsValue)

  class ServerConfig {
    var port: JsValue
    var default401: JsValue
    var default404: JsValue
    var default500: JsValue

    /** `{}`: every field missing. */
    constructor ()
      ensures Current() == Settings(Undefined, Undefined, Undefined, Undefined)
    {
      port := Undefined;
      default401 := Undefined;
      default404 := Undefined;
      default500 := Undefined;
    }

    function Current(): Settings
      reads this
    {
      Settings(port, default401, default404, default500)
    }

    /** The four `config.x = config.x ? config.x : d` assignments of `initConfig`. */
    method FillDefaults()
      modifies this
      ensures Current() == Defaults(old(Current()))
    {
      port := if Truthy(port) then port else Num(DEFAULT_PORT);
      default401 := if Truthy(default401) then default401 else Str("");
      default404 := if Truthy(default404) then default404 else Str("");
      default500 := if Truthy(default500) then default500 else Str("");
    }
  }

  /** `v ? v : d`. */
  function OrElse(v: JsValue, d: JsValue): (r: JsValue)
    ensures Truthy(v) ==> r == v
    ensures !Truthy(v) ==> r == d
  {
    if Truthy(v) then v else d
  }

  /**
   * The fields after defaulting: a falsy port (missing, 0, `''`, ...) becomes
   * 3000 and a falsy default body becomes `''`; truthy values are kept.
   */
  function Defaults(s: Settings): (r: Settings)
    ensures Truthy(r.port)
    ensures Truthy(s.port) <==> r.port == s.port
    ensures !Truthy(s.port) ==> r.port == Num(DEFAULT_PORT)
    ensures Truthy(s.default401) ==> r.default401 == s.default401
    ensures Truthy(s.default404) ==> r.default404 == s.default404
    ensures Truthy(s.default500) ==> r.default500 == s.default500
    ensures !Truthy(s.default401) ==> r.default401 == Str("")
    ensures !Truthy(s.default404) ==> r.default404 == Str("")
    ensures !Truthy(s.default500) ==> r.default500 == Str("")
  {
    Settings(OrElse(s.port, Num(DEFAULT_PORT)), OrElse(s.default401, Str("")),
      OrElse(s.default404, Str("")), OrElse(s.default500, Str("")))
  }

  /** Defaulting twice is defaulting once: the `''` a falsy body became is falsy, and is replaced by `''` again. */
  lemma DefaultsIdempotent(s: Settings)
    ensures Defaults(Defaults(s)) == Defaults(s)
  {
  }

  /**
   * The INJECTABLE entries after the default registrations, given those
   * before them and the instances made for the names that were missing.
   */
  function WithDefaults(es: Entries, logger: Option<Instance>, auth: Option<Instance>): (r: Entries)
    ensures es <= r && |r| <= |es| + 2
    ensures logger.None? && auth.None? ==> r == es
  {
    Appended(Appended(es, Name(LOGGER), logger), Name(AUTHENTICATION), auth)
  }

  /**
   * After the default registrations both reserved names are in use: by the
   * component registered before, or else by the new instance; every other
   * name keeps its component.
   */
  lemma WithDefaultsMeaning(es: Entries, logger: Option<Instance>, auth: Option<Instance>)
    requires logger.Some? <==> Get(es, Name(LOGGER)).None?
    requires auth.Some? <==> Get(es, Name(AUTHENTICATION)).None?
    ensures var r := WithDefaults(es, logger, auth);
      && Get(r, Name(LOGGER)).Some? && Get(r, Name(AUTHENTICATION)).Some?
      && Get(r, Name(LOGGER)) == (if logger.Some? then Some(Component(logger.value)) else Get(es, Name(LOGGER)))
      && Get(r, Name(AUTHENTICATION)) == (if auth.Some? then Some(Component(auth.value)) else Get(es, Name(AUTHENTICATION)))
      && forall k | k != Name(LOGGER) && k != Name(AUTHENTICATION) :: Get(r, k) == Get(es, k)
  {
    var withLogger := Appended(es, Name(LOGGER), logger);
    AppendedGet(es, Name(LOGGER), logger);
    AppendedGet(withLogger, Name(AUTHENTICATION), auth);
  }

  /** `Injectable(name)(cls)` for a missing name: the new instance, if one was made, is appended under `k`. */
  function Appended(es: Entries, k: Key, inst: Option<Instance>): Entries
  {
    if inst.Some? then es + [(k, Component(inst.value))] else es
  }

  /** Registering the logger does not make the authentication name used. */
  lemma AppendedAuth(es: Entries, logger: Option<Instance>)
    requires logger.Some? ==> Get(es, Name(LOGGER)).None?
    ensures Get(Appended(es, Name(LOGGER), logger), Name(AUTHENTICATION)) == Get(es, Name(AUTHENTICATION))
  {
    AppendedGet(es, Name(LOGGER), logger);
  }

  /** Appending an entry for a key the map lacks adds that key and keeps every other answer. */
  lemma AppendedGet(es: Entries, k: Key, inst: Option<Instance>)
    requires inst.Some? ==> Get(es, k).None?
    ensures Get(Appended(es, k, inst), k) == if inst.Some? then Some(Component(inst.value)) else Get(es, k)
    ensures forall q | q != k :: Get(Appended(es, k, inst), q) == Get(es, q)
  {
    if inst.Some? {
      PutAppends(es, k, Component(inst.value));
    }
  }

  /**
   * `ServerConfig.initConfig(config)`: a missing configuration (`null`) is
   * replaced by a new empty object, the given one is updated in place and
   * returned. `logger` and `authentication` then name components: the ones
   * registered before, or new instances of `consoleLogger` and
   * `noAuthentication`. No other category of the registry changes.
   */
  method InitConfig(config: ServerConfig?, reg: Registry, consoleLogger: ClassDesc, noAuthentication: ClassDesc)
    returns (r: ServerConfig, ghost logger: Option<Instance>, ghost auth: Option<Instance>)
    requires reg.Valid()
    requires !consoleLogger.ctorThrows && !noAuthentication.ctorThrows
    modifies config, reg
    ensures config != null ==> r == config
    ensures config == null ==> fresh(r)
    ensures r.Current() == Defaults(if config == null then Settings(Undefined, Undefined, Undefined, Undefined) else old(config.Current()))
    ensures reg.Valid()
    ensures logger.Some? <==> Get(old(reg.Of(INJECTABLE)), Name(LOGGER)).None?
    ensures auth.Some? <==> Get(old(reg.Of(INJECTABLE)), Name(AUTHENTICATION)).None?
    ensures reg.maps == old(reg.maps)[INJECTABLE := WithDefaults(old(reg.Of(INJECTABLE)), logger, auth)]
    ensures logger.Some? ==> fresh(logger.value) && logger.value.cls == consoleLogger
    ensures auth.Some? ==> fresh(auth.value) && auth.value.cls == noAuthentication
    ensures Get(old(reg.Of(INJECTABLE)), Name(LOGGER)).Some? && Get(old(reg.Of(INJECTABLE)), Name(AUTHENTICATION)).Some? ==>
      reg.maps == old(reg.maps)
  {
    if config == null {
      r := new ServerConfig();
    } else {
      r := config;
    }
    r.FillDefaults();
    logger, auth := RegisterDefaults(reg, consoleLogger, noAuthentication);
  }

  /** The registrations of `initConfig`, on the INJECTABLE map it fetches once. */
  method RegisterDefaults(reg: Registry, consoleLogger: ClassDesc, noAuthentication: ClassDesc)
    returns (ghost logger: Option<Instance>, ghost auth: Option<Instance>)
    requires reg.Valid()
    requires !consoleLogger.ctorThrows && !noAuthentication.ctorThrows
    modifies reg
    ensures reg.Valid()
    ensures logger.Some? <==> Get(old(reg.Of(INJECTABLE)), Name(LOGGER)).None?
    ensures auth.Some? <==> Get(old(reg.Of(INJECTABLE)), Name(AUTHENTICATION)).None?
    ensures reg.maps == old(reg.maps)[INJECTABLE := WithDefaults(old(reg.Of(INJECTABLE)), logger, auth)]
    ensures logger.Some? ==> fresh(logger.value) && logger.value.cls == consoleLogger
    ensures auth.Some? ==> fresh(auth.value) && auth.value.cls == noAuthentication
  {
    var m := reg.GetMap(INJECTABLE);
    logger := RegisterIfAbsent(reg, LOGGER, consoleLogger);
    AppendedAuth(m, logger);
    auth := RegisterIfAbsent(reg, AUTHENTICATION, noAuthentication);
    assert old(reg.maps)[INJECTABLE := m][INJECTABLE := Appended(m, Name(LOGGER), logger)][INJECTABLE := WithDefaults(m, logger, auth)]
      == old(reg.maps)[INJECTABLE := WithDefaults(m, logger, auth)];
  }

  /**
   * `if (map.has(name) === false) Injectable(name)(cls)` on the INJECTABLE
   * map: a name in use is left alone, a missing one gets a new instance.
   */
  method RegisterIfAbsent(reg: Registry, name: string, cls: ClassDesc) returns (ghost inst: Option<Instance>)
    requires reg.Valid() && INJECTABLE in reg.maps && !cls.ctorThrows
    modifies reg
    ensures reg.Valid()
    ensures inst.Some? <==> Get(old(reg.Of(INJECTABLE)), Name(name)).None?
    ensures inst.Some? ==> fresh(inst.value) && inst.value.cls == cls
    ensures reg.maps == old(reg.maps)[INJECTABLE := Appended(old(reg.Of(INJECTABLE)), Name(name), inst)]
  {
    inst := None;
    if Get(reg.Of(INJECTABLE), Name(name)).None? {
      var err, insts := Injectable(reg, [name], cls);
      assert |insts| == 1 && [name][..1] == [name];
      inst := Some(insts[0]);
      assert Registrations([name], insts) == [(Name(name), Component(insts[0]))];
    }
  }
}
