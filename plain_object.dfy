/**
 * The registry as the JavaScript code actually stores it: an object literal
 * `{}`, read with `this.listeners[eventName]` and tested for truthiness.
 * Such an object also answers, through its prototype, to the names of the
 * members of `Object.prototype`, whose values are truthy but are not arrays.
 * For those names `subscribe`, `unsubscribe` and `publish` throw a
 * `TypeError`, where a registry that knows only its own entries (module
 * Registry) treats them like any other event name.
 */
module PlainObject {
  import opened Registry

  /**
   * Members every object literal inherits from `Object.prototype`
   * (ECMAScript 2024, sections 20.1.3 and B.2.2).
   */
  const PrototypeMembers: set<string> := {
    "constructor", "hasOwnProperty", "isPrototypeOf", "propertyIsEnumerable",
    "toLocaleString", "toString", "valueOf",
    "__proto__", "__defineGetter__", "__defineSetter__", "__lookupGetter__", "__lookupSetter__"
  }

  /** What the property read `this.listeners[eventName]` finds. */
  datatype Property<L> = OwnArray(listeners: seq<L>) | Inherited | Undefined

  /** Whether the code's `if (this.listeners[eventName])` test passes: an array or an inherited member is truthy. */
  predicate Truthy<L>(p: Property<L>)
  {
    !p.Undefined?
  }

  /** Property lookup on the registry object: own entries first, then `Object.prototype`. */
  function Get<L>(m: Listeners<L>, e: string): (p: Property<L>)
    ensures p.OwnArray? <==> e in m
    ensures p.OwnArray? ==> p.listeners == m[e]
    ensures p.Inherited? <==> e !in m && e in PrototypeMembers
    ensures Truthy(p) <==> e in m || e in PrototypeMembers
  {
    if e in m then OwnArray(m[e])
    else if e in PrototypeMembers then Inherited
    else Undefined
  }

  /** The result of a call that either completes or throws a `TypeError`. */
  datatype Completion<T> = Normal(value: T) | TypeError

  /** `subscribe` as written: an inherited member skips the initialisation and has no `push`. */
  function SubscribeAsWritten<L>(m: Listeners<L>, e: string, c: L): (r: Completion<Listeners<L>>)
    ensures r.TypeError? <==> e !in m && e in PrototypeMembers
    ensures r.Normal? ==> r.value == Subscribed(m, e, c)
  {
    match Get(m, e)
    case Undefined => Normal(m[e := [] + [c]])
    case OwnArray(s) => Normal(m[e := s + [c]])
    case Inherited => TypeError
  }

  /** `unsubscribe` as written: an inherited member passes the test and has no `filter`. */
  function UnsubscribeAsWritten<L(==)>(m: Listeners<L>, e: string, c: L): (r: Completion<Listeners<L>>)
    ensures r.TypeError? <==> e !in m && e in PrototypeMembers
    ensures r.Normal? ==> r.value == Unsubscribed(m, e, c)
  {
    match Get(m, e)
    case Undefined => Normal(m)
    case OwnArray(s) => Normal(m[e := Without(s, c)])
    case Inherited => TypeError
  }

  /**
   * `publish` as written: an inherited member passes the test and has no
   * `map`. (`publishAsync` fails at the same names, but its promise rejects
   * instead: `for ... of` cannot iterate the inherited member.)
   */
  function PublishAsWritten<L, A, V>(m: Listeners<L>, e: string, args: A, invoke: (L, A) -> Outcome<V>): (r: Completion<seq<JsValue<V>>>)
    ensures r.TypeError? <==> e !in m && e in PrototypeMembers
    ensures r.Normal? ==> r.value == Published(m, e, args, invoke)
  {
    match Get(m, e)
    case Undefined => Normal([])
    case OwnArray(s) => Normal(Collect(s, args, invoke))
    case Inherited => TypeError
  }

  /** `subscribe` is the only operation that adds keys, so the code as written never stores an entry under a prototype member's name. */
  lemma AsWrittenNeverStoresPrototypeNames<L>(m: Listeners<L>, e: string, c: L)
    requires m.Keys !! PrototypeMembers
    ensures SubscribeAsWritten(m, e, c).Normal? ==> SubscribeAsWritten(m, e, c).value.Keys !! PrototypeMembers
  {
  }

  /**
   * The discrepancy, on the input `subscribe("toString", c)` against a new
   * emitter: the code throws, while the intended registry records `c` and a
   * later `publish("toString")` runs it.
   */
  lemma ToStringCounterexample<L, A, V>(c: L, args: A, invoke: (L, A) -> Outcome<V>)
    ensures SubscribeAsWritten(map[], "toString", c) == TypeError
    ensures PublishAsWritten(map[], "constructor", args, invoke) == TypeError
    ensures Published(Subscribed(map[], "toString", c), "toString", args, invoke) == [Guarded(invoke(c, args))]
  {
    PublishAfterSubscribe(map[], "toString", c, args, invoke);
  }
}
