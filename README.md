# Event emitter: a verified Dafny model

This project models the publish/subscribe utility `EventEmitter` of a small
3D-tile viewer (`src/utils/EventEmitter.js`). An emitter owns one piece of
state: a registry mapping event names to the ordered list of callbacks
subscribed to each. It offers six operations on that registry:

- `subscribe` appends a callback and returns a closure that unsubscribes it.
- `unsubscribe` filters out every entry equal to the callback.
- `publish` calls the listeners in order and collects their return values. A listener that throws contributes `null`.
- `publishAsync` does the same, awaiting each listener in turn.
- `clear` deletes one event's entry.
- `clearAll` deletes every entry.

A factory, `createEventEmitter`, builds independent instances.

The model has three modules:

- `Registry` (registry.dfy) describes the registry as a value, `map<string, seq<L>>`, where listeners are opaque identifiers of a type `L` compared by identity. It gives the new registry after each operation as a function of the old one, defines the array `publish` returns, and proves how the operations interact: subscribe then publish, subscribe then unsubscribe, unsubscribe twice, and duplicate subscriptions.
- `Emitter` (emitter.dfy) holds the class `EventEmitter`, whose field `listeners` the methods update in place. Each mutating method's postcondition states the new registry through the matching `Registry` function. `PublishAsync` is a loop that appends one result per listener; it is proved to return exactly what `Publish` returns. The class `Unsubscriber` is the closure returned by `Subscribe`: it captures the emitter, the event name and the callback.
- `PlainObject` (plain_object.dfy) models how the JavaScript code really stores the registry: in an object literal `{}` whose property lookup also finds the members of `Object.prototype`. This module supports the finding below.

Running a listener is a parameter `invoke: (L, A) -> Outcome<V>`. Here `A` stands for the published arguments, and `Outcome<V>` is either `Returned(value)` or `Threw`. Result entries are `JsValue<V>`, which is `Null` or `Value(v)`. So, as in the code, a caller cannot tell a listener that returned `null` from one that threw.

One might expect one `unsubscribe` to remove a single copy of a callback subscribed twice. The code filters out every entry equal to it (src/utils/EventEmitter.js:31-33), and so does the closure `subscribe` returns. The model follows the code (`Registry.UnsubscribeRemovesEveryCopy`).

## Model

| member | source | states |
|---|---|---|
| `Emitter.EventEmitter.constructor` | src/utils/EventEmitter.js:5-8 | A new emitter has an empty registry. |
| `Emitter.CreateEventEmitter` | src/utils/EventEmitter.js:109 | Each call returns a freshly allocated emitter with an empty registry. It shares no state with any other emitter, because every method modifies only its own object. |
| `Registry.Subscribed` | src/utils/EventEmitter.js:16-20 | After subscribing `c` to `e`, `e` maps to its old listeners, or none when `e` was absent, followed by `c`. The key set gains `e` and every other key keeps its listeners. |
| `Emitter.EventEmitter.Subscribe` | src/utils/EventEmitter.js:16-22 | The registry becomes `Subscribed(old registry, e, c)`. The returned closure is new and is bound to this emitter, `e` and `c`. |
| `Emitter.Unsubscriber.Invoke` | src/utils/EventEmitter.js:21 | Calling the closure changes the captured emitter's registry exactly as `unsubscribe(e, c)` does. |
| `Registry.Without` | src/utils/EventEmitter.js:31-33 | The filter leaves no entry equal to the callback. Every other listener keeps its multiplicity, and the length drops by the number of removed copies. |
| `Registry.WithoutDistributes` | src/utils/EventEmitter.js:31-33 | Filtering distributes over concatenation, so the kept listeners stay in their original relative order. |
| `Registry.WithoutAbsent` | src/utils/EventEmitter.js:29-35 | Unsubscribing a callback that is not registered leaves the list unchanged. |
| `Registry.Unsubscribed` | src/utils/EventEmitter.js:29-35 | The key set is unchanged. When `e` is present, its list is filtered. When `e` is absent, nothing changes. Other keys are never touched. |
| `Emitter.EventEmitter.Unsubscribe` | src/utils/EventEmitter.js:29-35 | The registry becomes `Unsubscribed(old registry, e, c)`. |
| `Registry.UnsubscribeRemovesEveryCopy` | src/utils/EventEmitter.js:16-35 | After two subscriptions of `c`, the list holds `c` at least twice, and one unsubscribe removes every copy. |
| `Registry.UnsubscribeIdempotent` | src/utils/EventEmitter.js:21-35 | A second unsubscribe, or a second call of the closure, has no further effect. |
| `Registry.UnsubscribeAfterSubscribe` | src/utils/EventEmitter.js:16-35 | Subscribe then unsubscribe of `c` equals unsubscribe alone when `e` had an entry. Otherwise it leaves `e` mapped to an empty list. |
| `Registry.Collect` | src/utils/EventEmitter.js:49-56 | The result has one entry per listener. Entry `i` is listener `i`'s return value, or `null` if it threw. A throwing listener does not affect the other entries. |
| `Registry.Published` | src/utils/EventEmitter.js:43-57 | `publish` returns `[]` for an absent name. Otherwise it returns one entry per registered listener, in order, each the listener's value or `null`. |
| `Emitter.EventEmitter.Publish` | src/utils/EventEmitter.js:43-57 | Reads the registry only and returns `Registry.Published(listeners, eventName, args, invoke)`: `[]` for an absent name, otherwise one entry per registered listener, in order, each the listener's value or `null` if it threw. |
| `Registry.PublishAfterSubscribe` | src/utils/EventEmitter.js:16-57 | Publishing after `subscribe(e, c)` returns the earlier results followed by `c`'s result. |
| `Registry.TwoListenerExample` | src/utils/EventEmitter.js:16-57 | With listeners returning 1 and 2, publish returns `[1, 2]`. After the first is unsubscribed, it returns `[2]`. |
| `Emitter.EventEmitter.PublishAsync` | src/utils/EventEmitter.js:65-82 | Visiting the listeners in order and appending one result each (`null` on failure) returns exactly `Publish`'s array for the same outcomes. For an absent name that array is `[]`. The registry is not modified. |
| `Registry.Cleared` | src/utils/EventEmitter.js:88-92 | `clear(e)` removes key `e` and keeps every other key and its listeners. It is a no-op when `e` is absent. |
| `Emitter.EventEmitter.Clear` | src/utils/EventEmitter.js:88-92 | The registry becomes `Cleared(old registry, e)`. |
| `Emitter.EventEmitter.ClearAll` | src/utils/EventEmitter.js:97-101 | Deleting the keys one at a time leaves the registry empty, whatever it held before, so a second call changes nothing. |
| `PlainObject.Get` | src/utils/EventEmitter.js:17 | A read of `this.listeners[eventName]` finds an own array when the name has an entry. Otherwise it finds an inherited `Object.prototype` member when the name is one. Otherwise it finds `undefined`. The `if` test is truthy exactly for own entries and prototype member names. |
| `PlainObject.SubscribeAsWritten` | src/utils/EventEmitter.js:16-20 | As written, `subscribe` throws `TypeError` exactly when the name has no entry and is an `Object.prototype` member. Otherwise it yields the registry `Registry.Subscribed` gives. |
| `PlainObject.UnsubscribeAsWritten` | src/utils/EventEmitter.js:29-35 | As written, `unsubscribe` throws `TypeError` exactly for a prototype member name without an entry. Otherwise it yields `Registry.Unsubscribed`. |
| `PlainObject.PublishAsWritten` | src/utils/EventEmitter.js:43-57 | As written, `publish` throws `TypeError` exactly for a prototype member name without an entry. Otherwise it returns `Registry.Published`'s array. |
| `PlainObject.AsWrittenNeverStoresPrototypeNames` | src/utils/EventEmitter.js:16-20 | Starting from a registry without prototype-member keys, a `subscribe` that completes as written never adds one. |
| `PlainObject.ToStringCounterexample` | src/utils/EventEmitter.js:16-20 | As written, `subscribe("toString", c)` and `publish("constructor")` on a new emitter throw a `TypeError`. The intended registry records `c` and publishes its result. |

## Findings

| source | as written | input that shows it | evidently intended | confidence | as-written member | corrected member |
|---|---|---|---|---|---|---|
| src/utils/EventEmitter.js:17-20 | The registry is a plain `{}`, and absence is tested with `!this.listeners[eventName]`. For names of `Object.prototype` members the lookup finds an inherited, truthy value, so no array is created, and `push`, `filter` and `map` are called on something that is not an array. | `subscribe("toString", f)` on a new emitter throws `TypeError`. So do `publish("constructor")` and `unsubscribe("valueOf", f)`. | Every string is an event name whose listener list starts empty. | high; not executed | `PlainObject.ToStringCounterexample` | `Registry.PublishAfterSubscribe` |

The class `Emitter.EventEmitter` follows the corrected behaviour: its registry knows only its own entries.

## Left out

- `console.error` logging in `publish` and `publishAsync` is I/O and is not modelled; only the `null` entry that goes with it is.
- Promise scheduling is not modelled. `PublishAsync` receives, for each listener, the outcome its awaited call settles to, and runs with no interleaving. Other code that changes the registry while `publishAsync` is suspended at an `await` is therefore not modelled. The method iterates over a value copy of the list taken at its start (`snapshot`). That matches the source only when nothing subscribes to the same event during the loop: the array iterator of `for ... of` re-reads the array's length at each step, so a callback that `subscribe` pushes onto that array (src/utils/EventEmitter.js:20) is visited too. `unsubscribe` and `clear` replace or detach the array and do not affect the running loop. `publish`'s `map` fixes its range at the start and never visits appended listeners.
- Listener side effects are not modelled. A listener that subscribes, unsubscribes or clears during `publish` or `publishAsync` falls outside the model, because a listener is an opaque identifier whose call only yields an outcome.
- `Registry.Collect`: a listener's outcome depends only on the listener and the arguments. A callback registered twice therefore yields the same outcome at both positions, whereas a stateful JavaScript function may return different values on its two calls.
- Variadic `...args` is modelled as one argument value of type `A`. JavaScript function identity is modelled by equality on the listener type `L`.
- A synchronous listener that returns a promise puts the promise object itself into `publish`'s result. The model treats that object as just another returned value.
- `Emitter.EventEmitter.ClearAll` deletes keys in an arbitrary order rather than the order of `Object.keys`. The final state is the same.
- The module-level default instance (src/utils/EventEmitter.js:105-108) is one emitter built by the constructor and is not modelled separately.
- `PublishAsync`'s rejected promise for prototype-member names, as written, is described in `PlainObject.PublishAsWritten`'s comment but has no function of its own. It fails at the same names as `publish`, but differently: `publish` throws a `TypeError` at once (`map` is not a function), while `publishAsync` returns a promise rejected with a `TypeError` saying the value is not iterable.
- loadTilesback.js (tileset loading through the 3D engine, floating-point height arithmetic, a constant lookup table) and vite.config.js (build configuration) are not part of this model.
