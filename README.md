# EventBus: a type-keyed publish/subscribe registry

This project models `EventBus` from ServiceComb Java Chassis
(`foundations/foundation-common/.../common/event/EventBus.java`) in Dafny and
proves properties of the model.

The bus holds one field, `allEventListeners`. It maps an event class to the
ordered list of listeners registered for that class. It has three operations:

- `registerEventListener(cls, listener)` creates an empty entry for `cls` if
  there is none, then appends `listener` to it.
- `unregisterEventListener(cls, listener)` also creates an empty entry for an
  unseen `cls`. It then removes the first occurrence of `listener` if the list
  contains it.
- `triggerEvent(event)` looks up the list for the event's exact runtime class
  (an empty list when there is no entry). It calls `process(event)` on each
  listener in list order, one call per occurrence. An exception from a
  listener stops the loop and propagates to the caller.

Everything is in `event_bus.dfy`, module `Event`:

- `EventBus<K, L>` is a class whose field `allEventListeners: map<K, seq<L>>`
  is reassigned by the two registration methods (`modifies this`).
  `TriggerEvent` has no `modifies` clause, so the verifier checks that
  dispatch never changes the registry.
- The Java runtime class is replaced by an explicit tag: an event is a
  `TypedEvent(cls, payload)`.
- A listener's `process` body is outside the model. Its effect is given by a
  parameter `process: (L, TypedEvent) -> Outcome` that says, per listener and
  event, whether the call completes or throws. `TriggerEvent` returns the
  listeners it called and whether a failure propagated.
- The pure functions `Registered`, `Unregistered`, `RemoveFirst` and
  `Delivered` state what each operation does to the registry, or which calls
  it makes. The methods are proved equal to them, and the lemmas are proved
  about them.

Listener identity follows Java's `contains`/`remove`, which compare with
`equals`; the model compares with Dafny equality on `L`.

Unregistering removes one occurrence only (EventBus.java:40), so a listener
registered twice and unregistered once is still called;
`UnregisterKeepsOnlyDuplicates` states exactly when it stays listed.

## Model

| member | source | states |
|---|---|---|
| `Event.EventBus.constructor` | foundations/foundation-common/src/main/java/org/apache/servicecomb/foundation/common/event/EventBus.java:28 | A new bus has an empty registry. |
| `Event.EventBus.RegisterEventListener` | foundations/foundation-common/src/main/java/org/apache/servicecomb/foundation/common/event/EventBus.java:30-34 | The new registry is `Registered(old registry, cls, listener)`. |
| `Event.Registered` | foundations/foundation-common/src/main/java/org/apache/servicecomb/foundation/common/event/EventBus.java:31-33 | After registration, `cls`'s list is its old list (or the empty list if it had no entry) with the listener appended at the end. The key set gains `cls` and loses nothing. Every other key keeps its list. |
| `Event.EventBus.UnregisterEventListener` | foundations/foundation-common/src/main/java/org/apache/servicecomb/foundation/common/event/EventBus.java:36-42 | The new registry is `Unregistered(old registry, cls, listener)`. |
| `Event.Unregistered` | foundations/foundation-common/src/main/java/org/apache/servicecomb/foundation/common/event/EventBus.java:37-41 | The key set gains `cls` and loses nothing. A type with no entry gets an empty list. A listener that is not listed leaves the list unchanged. Otherwise the multiset of listeners loses exactly one occurrence of the listener. Every other key keeps its list. |
| `Event.RemoveFirst` | foundations/foundation-common/src/main/java/org/apache/servicecomb/foundation/common/event/EventBus.java:39-40 | Removing an absent listener changes nothing. Otherwise the length drops by one, and the multiset loses exactly one occurrence of that listener and nothing else. |
| `Event.RemoveFirstAt` | foundations/foundation-common/src/main/java/org/apache/servicecomb/foundation/common/event/EventBus.java:40 | The occurrence removed is the first one. The result is the list without that position, so the other listeners keep their order. |
| `Event.RegisterThenUnregister` | foundations/foundation-common/src/main/java/org/apache/servicecomb/foundation/common/event/EventBus.java:31-40 | Round trip: if a listener is not in its type's list, registering and then unregistering it restores that list exactly. A type that had no entry is left with an empty one. Nothing else changes. |
| `Event.UnregisterKeepsOnlyDuplicates` | foundations/foundation-common/src/main/java/org/apache/servicecomb/foundation/common/event/EventBus.java:39-40 | After unregistering, the listener is still listed if and only if it was listed at least twice before. |
| `Event.OtherTypesUntouched` | foundations/foundation-common/src/main/java/org/apache/servicecomb/foundation/common/event/EventBus.java:31-41 | Registering or unregistering for one type leaves the list of every other type unchanged, and a type that had no entry still has none. |
| `Event.UnregisterRemovesFirstOccurrence` | foundations/foundation-common/src/main/java/org/apache/servicecomb/foundation/common/event/EventBus.java:39-40 | Unregistering removes the first occurrence of the listener from its type's list: the new list is the old one without that position, the other listeners in their old order. |
| `Event.Delivered` | foundations/foundation-common/src/main/java/org/apache/servicecomb/foundation/common/event/EventBus.java:46-48 | The listeners called form a prefix of the list. Every call except the last completed. If the prefix is shorter than the list, its last call threw. |
| `Event.DeliveredAllComplete` | foundations/foundation-common/src/main/java/org/apache/servicecomb/foundation/common/event/EventBus.java:46-48 | When no listener throws, exactly the listed listeners are called, in list order, once per occurrence. |
| `Event.DeliveredStopsAtFirstFailure` | foundations/foundation-common/src/main/java/org/apache/servicecomb/foundation/common/event/EventBus.java:46-48 | When the listener at position `i` is the first to throw, exactly the listeners at positions `0..i` are called. |
| `Event.EventBus.TriggerEvent` | foundations/foundation-common/src/main/java/org/apache/servicecomb/foundation/common/event/EventBus.java:44-49 | The loop makes exactly the calls `Delivered` gives for the list of the event's own type. The failure propagates if and only if some listener of that type throws, and then it comes from the last listener called. An event whose type has no entry calls no one and completes. The registry is not changed. |
| `Event.UnknownTypeReachesNoOne` | foundations/foundation-common/src/main/java/org/apache/servicecomb/foundation/common/event/EventBus.java:37-45 | An event of a type with no entry reaches no listener. This still holds after an unregistration has created an empty entry for that type. |
| `Event.DuplicateRegistrationDeliversTwice` | foundations/foundation-common/src/main/java/org/apache/servicecomb/foundation/common/event/EventBus.java:31-48 | There is no deduplication. If no listener throws, registering the same listener twice makes a dispatch call it two more times than before. |
| `Event.RegisterTwoUnregisterFirst` | foundations/foundation-common/src/main/java/org/apache/servicecomb/foundation/common/event/EventBus.java:30-49 | Client scenario on a new bus: register `a` and then `b` for one type, unregister `a`, and publish an event of that type. Only `b` is called; this holds also when `a` and `b` are the same listener. |

## Left out

- Concurrency: `ConcurrentHashMapEx` and `CopyOnWriteArrayList` exist so that threads can register and dispatch at the same time. That includes dispatch iterating over a snapshot while another thread registers. The model is sequential: a map of sequences, changed one operation at a time.
- Re-entrancy: a listener that registers or unregisters during a dispatch is not modelled. `process` is a pure outcome function, so it cannot change the bus. The Java snapshot iteration would not see such a change either.
- Reflection and generics: `event.getClass()` and the `Class<T>` / `EventListener<T>` type parameters are replaced by the tag `TypedEvent.cls` and an opaque listener type `L`. No check ties a listener's declared event type to the class it is registered under.
- The body of `EventListener.process` is not part of this model. Its outcome per (listener, event) is a parameter. The exception object is not modelled, only the fact that one was thrown, which the `Threw` outcome records.
- `Event.EventBus.TriggerEvent`: does not model a listener whose outcome depends on earlier calls in the same dispatch, because `process` depends only on the listener and the event.
- Null events and null keys: `triggerEvent(null)` throws a `NullPointerException` at `event.getClass()` (EventBus.java:45) before any listener runs, and the concurrent map rejects a null class in `computeIfAbsent`/`getOrDefault`. `TypedEvent` and the key type have no null value, so these error paths are not modelled.
- `computeIfAbsent` and `getOrDefault` are modelled only by their map semantics: insert an empty list when the key is absent, or read the entry with the empty list as a default.
