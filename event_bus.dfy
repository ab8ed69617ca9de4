/**
 * An in-process publish/subscribe registry keyed by event type.
 *
 * The registry maps an event-type key to the ordered list of listeners
 * registered for it. Registration appends, unregistration removes the first
 * occurrence, and triggering an event calls, in list order, every listener
 * registered for the event's exact type, stopping at the first one that throws.
 *
 * The runtime class of a Java event is modelled by an explicit type tag carried
 * by the event, and a listener's `process` call by an outcome function passed to
 * the dispatch.
 */
module Event {

  /** An event: the tag of its exact runtime type and the value it carries. */
  datatype TypedEvent<K, P> = TypedEvent(cls: K, payload: P)

  /** What one call of a listener's `process` did: return normally or throw. */
  datatype Outcome = Completed | Threw

  // ---------------------------------------------------------------------------
  // The registry as a value
  // ---------------------------------------------------------------------------

  /** The listeners of a type, or none when the type has no entry (`getOrDefault`). */
  function ListenersOf<K, L>(m: map<K, seq<L>>, cls: K): seq<L>
  {
    if cls in m then m[cls] else []
  }

  /** Occurrences of `x` in `s`. */
  function Count<L(==)>(s: seq<L>, x: L): nat
  {
    multiset(s)[x]
  }

  /**
   * Removes the first occurrence of `x` from `s` and keeps the order of the
   * rest; `s` is returned as it is when `x` does not occur in it.
   */
  function RemoveFirst<L(==)>(s: seq<L>, x: L): (r: seq<L>)
    ensures x !in s ==> r == s
    ensures |r| == if x in s then |s| - 1 else |s|
    ensures multiset(r) == multiset(s) - multiset{x}
  {
    if s == [] then []
    else if s[0] == x then
      assert s == [s[0]] + s[1..];
      s[1..]
    else
      assert s == [s[0]] + s[1..];
      [s[0]] + RemoveFirst(s[1..], x)
  }

  /** The registry after `registerEventListener(cls, listener)`. */
  function Registered<K(==), L>(m: map<K, seq<L>>, cls: K, listener: L): (m': map<K, seq<L>>)
    ensures m'.Keys == m.Keys + {cls}
    ensures m'[cls] == ListenersOf(m, cls) + [listener]
    ensures forall k :: k in m && k != cls ==> m'[k] == m[k]
  {
    m[cls := ListenersOf(m, cls) + [listener]]
  }

  /** The registry after `unregisterEventListener(cls, listener)`. */
  function Unregistered<K(==), L(==)>(m: map<K, seq<L>>, cls: K, listener: L): (m': map<K, seq<L>>)
    ensures m'.Keys == m.Keys + {cls}
    ensures cls !in m ==> m'[cls] == []
    ensures listener !in ListenersOf(m, cls) ==> m'[cls] == ListenersOf(m, cls)
    ensures multiset(m'[cls]) == multiset(ListenersOf(m, cls)) - multiset{listener}
    ensures forall k :: k in m && k != cls ==> m'[k] == m[k]
  {
    var listeners := ListenersOf(m, cls);
    m[cls := if listener in listeners then RemoveFirst(listeners, listener) else listeners]
  }

  /**
   * `RemoveFirst` removes exactly the first occurrence: when `i` is the first
   * index holding `x`, the result is `s` without position `i`.
   */
  lemma {:induction false} RemoveFirstAt<L>(s: seq<L>, x: L, i: nat)
    requires i < |s| && s[i] == x && x !in s[..i]
    ensures RemoveFirst(s, x) == s[..i] + s[i + 1..]
  {
    if i > 0 {
      assert s[0] in s[..i];
      assert s[1..][..i - 1] == s[..i][1..];
      RemoveFirstAt(s[1..], x, i - 1);
      assert s[..i] == [s[0]] + s[1..][..i - 1];
    }
  }

  /**
   * Round trip: registering a listener its type does not list yet and then
   * unregistering it leaves that type's list as it was; an absent entry is
   * left behind as an empty one.
   */
  lemma RegisterThenUnregister<K, L>(m: map<K, seq<L>>, cls: K, listener: L)
    requires listener !in ListenersOf(m, cls)
    ensures Unregistered(Registered(m, cls, listener), cls, listener) == m[cls := ListenersOf(m, cls)]
  {
    var before := ListenersOf(m, cls);
    var registered := Registered(m, cls, listener);
    var after := registered[cls];
    assert after[..|before|] == before;
    RemoveFirstAt(after, listener, |before|);
    assert after[|before| + 1..] == [];
    var back := Unregistered(registered, cls, listener);
    assert back[cls] == before;
    assert back.Keys == m[cls := before].Keys;
  }

  /**
   * Unregistering removes one occurrence only: the listener is still listed
   * afterwards exactly when it was listed at least twice before.
   */
  lemma UnregisterKeepsOnlyDuplicates<K, L>(m: map<K, seq<L>>, cls: K, listener: L)
    ensures listener in Unregistered(m, cls, listener)[cls] <==> Count(ListenersOf(m, cls), listener) >= 2
  {
  }

  /** Registering and unregistering for one type never changes what another type lists. */
  lemma OtherTypesUntouched<K, L>(m: map<K, seq<L>>, cls: K, other: K, listener: L)
    requires other != cls
    ensures ListenersOf(Registered(m, cls, listener), other) == ListenersOf(m, other)
    ensures ListenersOf(Unregistered(m, cls, listener), other) == ListenersOf(m, other)
    ensures other in Registered(m, cls, listener) <==> other in m
    ensures other in Unregistered(m, cls, listener) <==> other in m
  {
  }

  /**
   * Unregistering removes the first occurrence from the type's list: when `i`
   * is the first index holding the listener, the new list is the old one
   * without position `i`, the others in their old order.
   */
  lemma UnregisterRemovesFirstOccurrence<K, L>(m: map<K, seq<L>>, cls: K, listener: L, i: nat)
    requires i < |ListenersOf(m, cls)| && ListenersOf(m, cls)[i] == listener
    requires listener !in ListenersOf(m, cls)[..i]
    ensures var s := ListenersOf(m, cls); Unregistered(m, cls, listener)[cls] == s[..i] + s[i + 1..]
  {
    RemoveFirstAt(ListenersOf(m, cls), listener, i);
  }

  // ---------------------------------------------------------------------------
  // Dispatch as a value
  // ---------------------------------------------------------------------------

  /** True when some listener of `listeners` throws on `event`. */
  predicate SomeThrows<K, L, P>(listeners: seq<L>, event: TypedEvent<K, P>,
                                process: (L, TypedEvent<K, P>) -> Outcome)
  {
    exists j :: 0 <= j < |listeners| && process(listeners[j], event) == Threw
  }

  /**
   * The listeners that a fail-fast loop over `listeners` calls: all of them in
   * order up to and including the first that throws.
   */
  function Delivered<K, L, P>(listeners: seq<L>, event: TypedEvent<K, P>,
                              process: (L, TypedEvent<K, P>) -> Outcome): (called: seq<L>)
    ensures |called| <= |listeners| && called == listeners[..|called|]
    ensures forall j :: 0 <= j < |called| - 1 ==> process(called[j], event) == Completed
    ensures |called| < |listeners| ==> |called| > 0 && process(called[|called| - 1], event) == Threw
  {
    if listeners == [] then []
    else if process(listeners[0], event) == Threw then [listeners[0]]
    else [listeners[0]] + Delivered(listeners[1..], event, process)
  }

  /** When no listener throws, every listener is called, in order, once per occurrence. */
  lemma DeliveredAllComplete<K, L, P>(listeners: seq<L>, event: TypedEvent<K, P>,
                                      process: (L, TypedEvent<K, P>) -> Outcome)
    requires forall j :: 0 <= j < |listeners| ==> process(listeners[j], event) == Completed
    ensures Delivered(listeners, event, process) == listeners
  {
  }

  /** When the listener at `i` is the first to throw, exactly those at `0..i` are called. */
  lemma DeliveredStopsAtFirstFailure<K, L, P>(listeners: seq<L>, event: TypedEvent<K, P>,
                                              process: (L, TypedEvent<K, P>) -> Outcome, i: nat)
    requires i < |listeners| && process(listeners[i], event) == Threw
    requires forall j :: 0 <= j < i ==> process(listeners[j], event) == Completed
    ensures Delivered(listeners, event, process) == listeners[..i + 1]
  {
  }

  /** An event whose type has no entry, or only an empty one, reaches no listener. */
  lemma UnknownTypeReachesNoOne<K, L, P>(m: map<K, seq<L>>, event: TypedEvent<K, P>,
                                                process: (L, TypedEvent<K, P>) -> Outcome, listener: L)
    requires event.cls !in m
    ensures Delivered(ListenersOf(m, event.cls), event, process) == []
    ensures Delivered(ListenersOf(Unregistered(m, event.cls, listener), event.cls), event, process) == []
  {
  }

  /**
   * No deduplication: registering the same listener twice makes a dispatch in
   * which no listener throws call it twice more than before.
   */
  lemma DuplicateRegistrationDeliversTwice<K, L, P>(m: map<K, seq<L>>, event: TypedEvent<K, P>,
                                                           process: (L, TypedEvent<K, P>) -> Outcome, listener: L)
    requires forall j :: 0 <= j < |ListenersOf(m, event.cls)| ==> process(ListenersOf(m, event.cls)[j], event) == Completed
    requires process(listener, event) == Completed
    ensures var twice := Registered(Registered(m, event.cls, listener), event.cls, listener);
            Count(Delivered(ListenersOf(twice, event.cls), event, process), listener)
              == Count(ListenersOf(m, event.cls), listener) + 2
  {
    var before := ListenersOf(m, event.cls);
    var after := before + [listener] + [listener];
    assert ListenersOf(Registered(Registered(m, event.cls, listener), event.cls, listener), event.cls) == after;
    DeliveredAllComplete(after, event, process);
  }

  // ---------------------------------------------------------------------------
  // The bus
  // ---------------------------------------------------------------------------

  class EventBus<K(==), L(==)> {
    /** Event-type key to the ordered listeners registered for it. */
    var allEventListeners: map<K, seq<L>>

    constructor ()
      ensures allEventListeners == map[]
    {
      allEventListeners := map[];
    }

    /** Appends `listener` to the list of `cls`, creating the entry if needed. */
    method RegisterEventListener(cls: K, listener: L)
      modifies this
      ensures allEventListeners == Registered(old(allEventListeners), cls, listener)
    {
      if cls !in allEventListeners {
        allEventListeners := allEventListeners[cls := []];
      }
      var eventListeners := allEventListeners[cls];
      allEventListeners := allEventListeners[cls := eventListeners + [listener]];
    }

    /**
     * Creates an empty entry for `cls` if there is none, then removes the first
     * occurrence of `listener` from its list when the list contains it.
     */
    method UnregisterEventListener(cls: K, listener: L)
      modifies this
      ensures allEventListeners == Unregistered(old(allEventListeners), cls, listener)
    {
      if cls !in allEventListeners {
        allEventListeners := allEventListeners[cls := []];
      }
      var eventListeners := allEventListeners[cls];
      if listener in eventListeners {
        allEventListeners := allEventListeners[cls := RemoveFirst(eventListeners, listener)];
      }
    }

    /**
     * Calls the listeners of the event's exact type in list order, one call per
     * occurrence, and stops at the first that throws. `called` lists the calls
     * made; `outcome` is `Threw` when a listener's failure propagates to the
     * caller. The registry is not changed.
     */
    method TriggerEvent<P>(event: TypedEvent<K, P>, process: (L, TypedEvent<K, P>) -> Outcome)
      returns (called: seq<L>, outcome: Outcome)
      ensures called == Delivered(ListenersOf(allEventListeners, event.cls), event, process)
      ensures outcome == Threw <==> SomeThrows(ListenersOf(allEventListeners, event.cls), event, process)
      ensures outcome == Threw ==> process(called[|called| - 1], event) == Threw
      ensures event.cls !in allEventListeners ==> called == [] && outcome == Completed
    {
      var eventListeners := if event.cls in allEventListeners then allEventListeners[event.cls] else [];
      called, outcome := [], Completed;
      for i := 0 to |eventListeners|
        invariant called == eventListeners[..i]
        invariant forall j :: 0 <= j < i ==> process(eventListeners[j], event) == Completed
      {
        called := called + [eventListeners[i]];
        if process(eventListeners[i], event) == Threw {
          DeliveredStopsAtFirstFailure(eventListeners, event, process, i);
          outcome := Threw;
          return;
        }
      }
      DeliveredAllComplete(eventListeners, event, process);
    }
  }

  /**
   * A client: listeners `a` then `b` registered for one type, `a` unregistered,
   * then an event of that type published. Only `b` is called (when `a` and
   * `b` are the same listener, its second registration is still listed).
   */
  method RegisterTwoUnregisterFirst<K(==), L(==), P>(cls: K, a: L, b: L, payload: P) returns (called: seq<L>)
    ensures called == [b]
  {
    var bus := new EventBus<K, L>();
    bus.RegisterEventListener(cls, a);
    bus.RegisterEventListener(cls, b);
    bus.UnregisterEventListener(cls, a);
    assert bus.allEventListeners[cls] == [b];
    var outcome;
    called, outcome := bus.TriggerEvent(TypedEvent(cls, payload), (l, e) => Completed);
  }
}
