/**
 * The slice of JavaScript's value and object model the framework relies on:
 * primitive results and their truthiness, the outcome of a call that may throw,
 * classes (a prototype chain and the function-valued properties an instance
 * sees) and the instances `new` creates.
 */
module Js {
  import opened Common

  /**
   * A value a handler or a configuration field can hold. `Num` is a finite
   * number, `NaN` the one number that is not; `Obj` is any non-null object (an
   * array included) and `Fn` a function, which `typeof` does not call an object.
   */
  datatype JsValue = Undefined | Null | Bool(b: bool) | Num(n: real) | NaN | Str(s: string) | Obj(id: nat) | Fn(id: nat)

  /** JavaScript's truthiness: `undefined`, `null`, `false`, `0`, `NaN` and `''` are falsy. */
  predicate Truthy(v: JsValue)
  {
    match v
    case Undefined => false
    case Null => false
    case Bool(b) => b
    case Num(n) => n != 0.0
    case NaN => false
    case Str(s) => s != ""
    case Obj(_) => true
    case Fn(_) => true
  }

  /** The outcome of calling user code: it throws (or its promise rejects), or it yields a value. */
  datatype Outcome<+T> = Throws | Value(v: T)

  /** A prototype object, named by an id; `p.isPrototypeOf(x)` holds when `p` is on `x`'s chain. */
  type ProtoId = nat

  /** What `init()` does, if the class has one: nothing callable; it returns a plain value or a thenable; it throws. */
  datatype InitKind = NoInit | PlainInit | ThenableInit | ThrowingInit

  /**
   * A class as the framework sees it: an identity, the prototype chain of its
   * instances (its own prototype first), the names of the methods its
   * instances expose (inherited ones included), what `init` returns, and
   * whether its zero-argument constructor throws.
   */
  datatype ClassDesc = ClassDesc(id: nat, chain: seq<ProtoId>, methods: set<string>, init: InitKind, ctorThrows: bool)

  /**
   * What the decorator registry stores: a class, an instance made by `new`,
   * or a list of field names. The fields the injector assigns hold these too.
   */
  datatype Value = ClassRef(cls: ClassDesc) | Component(inst: Instance) | FieldNames(names: seq<string>)

  /** `typeof v[name] === 'function'`: only instances expose methods. */
  predicate HasMethod(v: Value, name: string)
  {
    v.Component? && name in v.inst.cls.methods
  }

  /** An object made by `new cls()`. Only the fields the injector assigns are modelled; `None` is `undefined`. */
  class Instance {
    const cls: ClassDesc
    var fields: map<string, Option<Value>>

    constructor (cls: ClassDesc)
      ensures this.cls == cls && fields == map[]
    {
      this.cls := cls;
      fields := map[];
    }

    /** `proto.isPrototypeOf(this)`. */
    predicate HasPrototype(proto: ProtoId)
    {
      proto in cls.chain
    }
  }
}
