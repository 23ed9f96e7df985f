/**
 * The publish/subscribe emitter: an object whose one field, `listeners`,
 * the operations update in place. Each mutating method states the new
 * registry as a function of the old one (module Registry); the properties
 * of those functions are proved there.
 */
module Emitter {
  import opened Registry

  class EventEmitter<L(==)> {
    /** Event name to its listeners, in subscription order. */
    var listeners: Listeners<L>

    /** A new emitter starts with an empty registry. */
    constructor ()
      ensures listeners == map[]
    {
      listeners := map[];
    }

    /**
     * Appends `callback` to the listeners of `eventName`, creating the entry
     * when absent, and returns the closure that undoes it.
     */
    method Subscribe(eventName: string, callback: L) returns (unsubscribe: Unsubscriber<L>)
      modifies this
      ensures listeners == Subscribed(old(listeners), eventName, callback)
      ensures fresh(unsubscribe)
      ensures unsubscribe.emitter == this
      ensures unsubscribe.eventName == eventName && unsubscribe.callback == callback
    {
      if eventName !in listeners {
        listeners := listeners[eventName := []];
      }
      listeners := listeners[eventName := listeners[eventName] + [callback]];
      unsubscribe := new Unsubscriber(this, eventName, callback);
    }

    /** Removes every entry equal to `callback` from `eventName`'s listeners; nothing happens for an unknown name. */
    method Unsubscribe(eventName: string, callback: L)
      modifies this
      ensures listeners == Unsubscribed(old(listeners), eventName, callback)
    {
      if eventName in listeners {
        listeners := listeners[eventName := Without(listeners[eventName], callback)];
      }
    }

    /**
     * The array `publish` returns: one entry per listener of `eventName`, in
     * order, each the listener's return value or `null` when it threw. Being
     * a function, it leaves the registry as it was.
     */
    function Publish<A, V>(eventName: string, args: A, invoke: (L, A) -> Outcome<V>): (r: seq<JsValue<V>>)
      reads this
      ensures eventName !in listeners ==> r == []
      ensures |r| == |ListenersFor(listeners, eventName)|
      ensures forall i :: 0 <= i < |r| ==> r[i] == Guarded(invoke(ListenersFor(listeners, eventName)[i], args))
    {
      Published(listeners, eventName, args, invoke)
    }

    /**
     * `publishAsync`: runs the listeners one after another, `settle` giving
     * the outcome each one's awaited call settles to, and appends one entry
     * per listener. It yields exactly what `Publish` yields for those outcomes.
     */
    method PublishAsync<A, V>(eventName: string, args: A, settle: (L, A) -> Outcome<V>) returns (results: seq<JsValue<V>>)
      ensures results == Publish(eventName, args, settle)
    {
      if eventName !in listeners {
        return [];
      }
      // A value copy: the source's array iterator would also visit listeners pushed during the loop.
      var snapshot := listeners[eventName];
      results := [];
      var i := 0;
      while i < |snapshot|
        invariant 0 <= i <= |snapshot|
        invariant |results| == i
        invariant forall j :: 0 <= j < i ==> results[j] == Guarded(settle(snapshot[j], args))
      {
        var outcome := settle(snapshot[i], args);
        match outcome {
          case Returned(v) => results := results + [v];
          case Threw => results := results + [Null];
        }
        i := i + 1;
      }
    }

    /** Deletes the entry for `eventName`; nothing happens when there is none. */
    method Clear(eventName: string)
      modifies this
      ensures listeners == Cleared(old(listeners), eventName)
    {
      if eventName in listeners {
        listeners := listeners - {eventName};
      }
    }

    /** Deletes every entry, one key at a time, leaving the registry empty. */
    method ClearAll()
      modifies this
      ensures listeners == map[]
    {
      var names := listeners.Keys;
      while names != {}
        invariant listeners.Keys == names
        decreases names
      {
        var name :| name in names;
        listeners := listeners - {name};
        names := names - {name};
      }
      assert listeners.Keys == {};
    }
  }

  /** The closure `subscribe` returns: it captures the emitter, the event name and the callback. */
  class Unsubscriber<L(==)> {
    const emitter: EventEmitter<L>
    const eventName: string
    const callback: L

    constructor (emitter: EventEmitter<L>, eventName: string, callback: L)
      ensures this.emitter == emitter && this.eventName == eventName && this.callback == callback
    {
      this.emitter := emitter;
      this.eventName := eventName;
      this.callback := callback;
    }

    /** Calling the closure: exactly `unsubscribe(eventName, callback)` on the captured emitter. */
    method Invoke()
      modifies emitter
      ensures emitter.listeners == Unsubscribed(old(emitter.listeners), eventName, callback)
    {
      emitter.Unsubscribe(eventName, callback);
    }
  }

  /** `createEventEmitter`: a new emitter, shared with no one, with an empty registry. */
  method CreateEventEmitter<L(==)>() returns (emitter: EventEmitter<L>)
    ensures fresh(emitter)
    ensures emitter.listeners == map[]
  {
    emitter := new EventEmitter();
  }

  /**
   * A client: two emitters from the factory share no state, and the closure
   * from `Subscribe` removes the callback just as `Unsubscribe` would.
   */
  method IndependentEmitters()
  {
    var first := CreateEventEmitter<nat>();
    var second := CreateEventEmitter<nat>();
    var unsubscribeOne := first.Subscribe("x", 1);
    var _ := first.Subscribe("x", 2);
    assert first.listeners["x"] == [1, 2];
    assert second.listeners == map[];

    unsubscribeOne.Invoke();
    assert [1, 2][1..] == [2];
    assert first.listeners["x"] == [2];
    assert second.listeners == map[];
  }
}
