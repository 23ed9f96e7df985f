/**
 * The listener registry of the event emitter, as values: a map from event
 * names to the ordered sequence of listeners subscribed to each, and the
 * functions that the emitter's operations apply to it. Listeners are opaque
 * identifiers compared by identity; running a listener is a function
 * `invoke` from a listener and the published arguments to its outcome.
 */
module Registry {

  /** A JavaScript value as it appears in a result array: `null`, or any other value. */
  datatype JsValue<V> = Null | Value(v: V)

  /** What calling a listener does: it returns a value or it throws. */
  datatype Outcome<V> = Returned(result: JsValue<V>) | Threw

  /** The registry: event name to listeners in subscription order. */
  type Listeners<L> = map<string, seq<L>>

  /** The value the `try`/`catch` around one listener call yields: a thrown error becomes `null`. */
  function Guarded<V>(o: Outcome<V>): JsValue<V>
  {
    match o
    case Returned(v) => v
    case Threw => Null
  }

  /** The listeners registered for `e`, where a missing entry has none. */
  function ListenersFor<L>(m: Listeners<L>, e: string): seq<L>
  {
    if e in m then m[e] else []
  }

  /** The registry after `subscribe(e, c)`: `c` joins the end of `e`'s listeners. */
  function Subscribed<L>(m: Listeners<L>, e: string, c: L): (r: Listeners<L>)
    ensures e in r && r[e] == ListenersFor(m, e) + [c]
    ensures r.Keys == m.Keys + {e}
    ensures forall k :: k in m && k != e ==> r[k] == m[k]
  {
    m[e := ListenersFor(m, e) + [c]]
  }

  /** `s` with every listener equal to `c` removed, the rest in their order (`Array.prototype.filter`). */
  function Without<L(==)>(s: seq<L>, c: L): (r: seq<L>)
    ensures c !in r
    ensures multiset(r) == multiset(s)[c := 0]
    ensures |r| == |s| - multiset(s)[c]
  {
    if s == [] then []
    else
      assert s == [s[0]] + s[1..];
      (if s[0] == c then [] else [s[0]]) + Without(s[1..], c)
  }

  /** The registry after `unsubscribe(e, c)`: no-op for an absent `e`, otherwise `e`'s entry filtered. */
  function Unsubscribed<L(==)>(m: Listeners<L>, e: string, c: L): (r: Listeners<L>)
    ensures r.Keys == m.Keys
    ensures e in m ==> r[e] == Without(m[e], c)
    ensures forall k :: k in m && k != e ==> r[k] == m[k]
  {
    if e in m then m[e := Without(m[e], c)] else m
  }

  /** The registry after `clear(e)`: the entry for `e` is gone, the others are untouched. */
  function Cleared<L>(m: Listeners<L>, e: string): (r: Listeners<L>)
    ensures r.Keys == m.Keys - {e}
    ensures forall k :: k in r ==> r[k] == m[k]
    ensures e !in m ==> r == m
  {
    if e in m then m - {e} else m
  }

  /** The results of calling every listener of `ls` in order, each guarded by `try`/`catch`. */
  function Collect<L, A, V>(ls: seq<L>, args: A, invoke: (L, A) -> Outcome<V>): (r: seq<JsValue<V>>)
    ensures |r| == |ls|
    ensures forall i :: 0 <= i < |ls| ==> r[i] == Guarded(invoke(ls[i], args))
  {
    if ls == [] then []
    else [Guarded(invoke(ls[0], args))] + Collect(ls[1..], args, invoke)
  }

  /** The array `publish(e, ...args)` returns for the registry `m`. */
  function Published<L, A, V>(m: Listeners<L>, e: string, args: A, invoke: (L, A) -> Outcome<V>): (r: seq<JsValue<V>>)
    ensures e !in m ==> r == []
    ensures |r| == |ListenersFor(m, e)|
    ensures forall i :: 0 <= i < |r| ==> r[i] == Guarded(invoke(ListenersFor(m, e)[i], args))
  {
    if e !in m then [] else Collect(m[e], args, invoke)
  }

  /** Filtering is a homomorphism over concatenation, so the listeners it keeps stay in their order. */
  lemma {:induction false} WithoutDistributes<L>(a: seq<L>, b: seq<L>, c: L)
    ensures Without(a + b, c) == Without(a, c) + Without(b, c)
  {
    if a == [] {
      assert a + b == b;
    } else {
      assert (a + b)[0] == a[0];
      assert (a + b)[1..] == a[1..] + b;
      WithoutDistributes(a[1..], b, c);
    }
  }

  /** Filtering out a listener that is not there changes nothing. */
  lemma {:induction false} WithoutAbsent<L>(s: seq<L>, c: L)
    requires c !in s
    ensures Without(s, c) == s
  {
    if s != [] {
      assert c !in s[1..];
      WithoutAbsent(s[1..], c);
      assert s == [s[0]] + s[1..];
    }
  }

  /** Publishing after `subscribe(e, c)` yields the earlier results followed by `c`'s. */
  lemma PublishAfterSubscribe<L, A, V>(m: Listeners<L>, e: string, c: L, args: A, invoke: (L, A) -> Outcome<V>)
    ensures Published(Subscribed(m, e, c), e, args, invoke)
            == Published(m, e, args, invoke) + [Guarded(invoke(c, args))]
  {
    var before := Published(m, e, args, invoke);
    var after := Published(Subscribed(m, e, c), e, args, invoke);
    assert |after| == |before| + 1;
    forall i | 0 <= i < |after|
      ensures after[i] == (before + [Guarded(invoke(c, args))])[i]
    {
      if i < |before| {
        assert ListenersFor(Subscribed(m, e, c), e)[i] == ListenersFor(m, e)[i];
      }
    }
  }

  /**
   * Unsubscribing right after subscribing undoes the subscription and also
   * removes any earlier copies of `c`; when `e` had no entry, an empty one is
   * left behind.
   */
  lemma UnsubscribeAfterSubscribe<L>(m: Listeners<L>, e: string, c: L)
    ensures e in m ==> Unsubscribed(Subscribed(m, e, c), e, c) == Unsubscribed(m, e, c)
    ensures e !in m ==> Unsubscribed(Subscribed(m, e, c), e, c) == m[e := []]
  {
    var s := Subscribed(m, e, c);
    var r := Unsubscribed(s, e, c);
    assert r[e] == Without(ListenersFor(m, e), c) by {
      WithoutDistributes(ListenersFor(m, e), [c], c);
      assert Without([c], c) == [];
    }
    if e in m {
      var u := Unsubscribed(m, e, c);
      assert r.Keys == u.Keys;
      assert forall k :: k in r ==> r[k] == u[k];
    } else {
      assert r.Keys == m[e := []].Keys;
      assert forall k :: k in r ==> r[k] == m[e := []][k];
    }
  }

  /** A callback subscribed twice is removed completely by one `unsubscribe`. */
  lemma UnsubscribeRemovesEveryCopy<L>(m: Listeners<L>, e: string, c: L)
    ensures var twice := Subscribed(Subscribed(m, e, c), e, c);
            multiset(twice[e])[c] >= 2 && c !in Unsubscribed(twice, e, c)[e]
  {
    var twice := Subscribed(Subscribed(m, e, c), e, c);
    assert twice[e] == ListenersFor(m, e) + [c] + [c];
  }

  /** Calling `unsubscribe(e, c)` a second time (or the returned closure twice) has no further effect. */
  lemma UnsubscribeIdempotent<L>(m: Listeners<L>, e: string, c: L)
    ensures Unsubscribed(Unsubscribed(m, e, c), e, c) == Unsubscribed(m, e, c)
  {
    if e in m {
      WithoutAbsent(Without(m[e], c), c);
    }
  }

  /** The worked example: listeners returning 1 and 2 publish `[1, 2]`; after removing the first, `[2]`. */
  lemma TwoListenerExample<L, A>(a: L, b: L, args: A, invoke: (L, A) -> Outcome<int>)
    requires a != b
    requires invoke(a, args) == Returned(Value(1)) && invoke(b, args) == Returned(Value(2))
    ensures var m := Subscribed(Subscribed(map[], "x", a), "x", b);
            Published(m, "x", args, invoke) == [Value(1), Value(2)]
            && Published(Unsubscribed(m, "x", a), "x", args, invoke) == [Value(2)]
  {
    var m := Subscribed(Subscribed(map[], "x", a), "x", b);
    assert m["x"] == [a, b];
    assert Without([a, b], a) == [b] by {
      assert [a, b][1..] == [b];
      assert Without([b], a) == [b];
    }
  }
}
