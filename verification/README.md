# PaperVision engine message envelope, in Dafny

This project models the base class of the messages that the PaperVision
editor sends to its vision engine (`PaperVisionEngineMessageBase`):

- **Message ids.** A process-wide 32-bit counter starts at -1. `nextId`
  increments it and returns the new value, so the first id is 0. Every
  message takes one id when it is built, and that id never changes.
- **Response callbacks.** Every message owns an ordered list of callbacks.
  `onResponse` appends one and returns the same message, for chaining.
  `onResponseWith<T>` appends a wrapper that passes a response on only when
  it is of type `T`.
- **Dispatch.** `acceptResponse` walks the list in registration order and
  invokes every callback with the same response.
- **Diagnostic text.** `toString` gives `MessageBase(type="<type name>", id=<id>)`.

Layout:

- `message_ids.dfy` (module `MessageIds`): the counter as a class `IdCounter`
  over a Kotlin `Int` (`int32`), with its 32-bit wrap-around written out. The
  reference sequence `FirstIds(n)` lists the ids of the first `n` calls, and
  the lemmas state what those ids are.
- `response_dispatch.dfy` (module `ResponseDispatch`): callbacks, responses
  and the reference definition `Dispatch` of the invocations that accepting
  a response makes. The lemmas cover order, multiplicity and filtering.
- `message_text.dfy` (module `MessageText`): the diagnostic text and a reader
  `IdOfDescription` that recovers the id from it.
- `message_base.dfy` (module `MessageBase`): the class `Message` with its
  constructor, `OnResponse`, `OnResponseWith`, `AcceptResponse` and
  `ToString`, and a worked example with three messages.
- `wrappers.dfy`: the `Option` type.

How the model represents things the source does not express in data:

- Dafny has no static mutable state, so the shared counter is an object that
  is passed to the `Message` constructor.
- A callback is a value `Callback(handler, filter)`. `filter` is `None` for
  `onResponse` and `Some(T)` for `onResponseWith<T>`. A response carries
  the set `kinds` of type tags it is an instance of: its own class and every
  supertype. `Fires(c, r)` is the `it is T` test, read as `T in r.kinds`, so
  a response of a subclass of `T` passes a filter on `T`.
- `AcceptResponse` returns the invocations it made, as a trace of
  `Delivery(callback, response)`, so that order and multiplicity can be
  stated. `Handled(trace)` keeps the invocations whose handler actually runs.
- `AcceptResponse` has no `modifies` clause. It therefore cannot change the
  callback list, and the id is a `const`.
- The runtime type name is a constructor parameter, `typeName`.

The ids are pairwise distinct for the first 2^32 messages only. They are
strictly increasing (0, 1, 2, …) for the first 2^31 only. Ids are meant to
be unique, but Kotlin's `Int` increment wraps silently: the 2^31+1-th id is
-2147483648 (`FirstIdsWrapAround`), and the code hands out an id again after
2^32 messages. The model follows the code.

## Model

| member | source | states |
|---|---|---|
| MessageIds.Successor | Shared/src/main/kotlin/io/github/deltacv/papervision/engine/message/PaperVisionEngineMessageBase.kt:9 | `idCount++` on an `Int`: the new value is the old one plus one, modulo 2^32, in the 32-bit range |
| MessageIds.FirstIds | Shared/src/main/kotlin/io/github/deltacv/papervision/engine/message/PaperVisionEngineMessageBase.kt:6-11 | the ids returned by the first n `nextId` calls, built step by step from the initial -1: the k-th is k wrapped to 32 bits |
| MessageIds.FirstIdsCountFromZero | Shared/src/main/kotlin/io/github/deltacv/papervision/engine/message/PaperVisionEngineMessageBase.kt:6-11 | the first id is 0, and up to 2^31 calls the k-th id is exactly k |
| MessageIds.FirstIdsIncreasing | Shared/src/main/kotlin/io/github/deltacv/papervision/engine/message/PaperVisionEngineMessageBase.kt:8-11 | up to 2^31 calls, successive ids are strictly increasing |
| MessageIds.FirstIdsDistinct | Shared/src/main/kotlin/io/github/deltacv/papervision/engine/message/PaperVisionEngineMessageBase.kt:8-11 | up to 2^32 calls, no id is returned twice |
| MessageIds.FirstIdsWrapAround | Shared/src/main/kotlin/io/github/deltacv/papervision/engine/message/PaperVisionEngineMessageBase.kt:9-10 | the call after the 2^31-th one returns the smallest `Int`, below the first id |
| MessageIds.IdCounter.constructor | Shared/src/main/kotlin/io/github/deltacv/papervision/engine/message/PaperVisionEngineMessageBase.kt:6 | the counter starts at -1, with no id issued |
| MessageIds.IdCounter.NextId | Shared/src/main/kotlin/io/github/deltacv/papervision/engine/message/PaperVisionEngineMessageBase.kt:8-11 | increments the counter and returns its new value; the issued ids grow by exactly that id and stay equal to `FirstIds` |
| MessageBase.Message.constructor | Shared/src/main/kotlin/io/github/deltacv/papervision/engine/message/PaperVisionEngineMessageBase.kt:14-17 | a new message has an empty callback list and takes exactly one id, the counter's successor value |
| MessageBase.Message.OnResponse | Shared/src/main/kotlin/io/github/deltacv/papervision/engine/message/PaperVisionEngineMessageBase.kt:25-28 | the new list is the old list with the callback appended; the result is the same message |
| MessageBase.Message.OnResponseWith | Shared/src/main/kotlin/io/github/deltacv/papervision/engine/message/PaperVisionEngineMessageBase.kt:30-35 | appends exactly one entry, a wrapper filtering on the given kind, and returns the same message |
| MessageBase.Message.AcceptResponse | Shared/src/main/kotlin/io/github/deltacv/papervision/engine/message/PaperVisionEngineMessageBase.kt:19-23 | the loop invokes the registered callbacks with the response, one invocation per entry in list order (`Dispatch`), changing no state |
| MessageBase.Message.ToString | Shared/src/main/kotlin/io/github/deltacv/papervision/engine/message/PaperVisionEngineMessageBase.kt:37 | the text is `MessageBase(type="`, the type name, `", id=`, the id in Kotlin's decimal form and `)`; reading it back yields the message's own id |
| MessageBase.ThreeMessages | Shared/src/main/kotlin/io/github/deltacv/papervision/engine/message/PaperVisionEngineMessageBase.kt:6-28 | three messages built from a fresh counter get ids 0, 1, 2; a callback on the second receives a response exactly once; its text carries id 1 |
| ResponseDispatch.Dispatch | Shared/src/main/kotlin/io/github/deltacv/papervision/engine/message/PaperVisionEngineMessageBase.kt:19-23 | reference definition of dispatch: one invocation per callback, the i-th with the i-th callback and the same response |
| ResponseDispatch.Handled | Shared/src/main/kotlin/io/github/deltacv/papervision/engine/message/PaperVisionEngineMessageBase.kt:30-35 | the invocations whose handler runs: everything it keeps is in the trace and admitted by its callback's filter, and every admitted invocation of the trace is kept |
| ResponseDispatch.HandledMultiplicity | Shared/src/main/kotlin/io/github/deltacv/papervision/engine/message/PaperVisionEngineMessageBase.kt:30-35 | on any trace, each admitted invocation is kept as often as it occurs, and every other one is dropped |
| ResponseDispatch.Admitting | Shared/src/main/kotlin/io/github/deltacv/papervision/engine/message/PaperVisionEngineMessageBase.kt:32-34 | the registered callbacks whose filter admits the response, and no others |
| ResponseDispatch.DispatchAppend | Shared/src/main/kotlin/io/github/deltacv/papervision/engine/message/PaperVisionEngineMessageBase.kt:19-28 | after one more registration, dispatch makes the earlier invocations unchanged and then one invocation of the new callback |
| ResponseDispatch.DispatchCount | Shared/src/main/kotlin/io/github/deltacv/papervision/engine/message/PaperVisionEngineMessageBase.kt:19-23 | every registration receives the accepted response exactly once (twice if registered twice), and no other response is delivered |
| ResponseDispatch.HandledCount | Shared/src/main/kotlin/io/github/deltacv/papervision/engine/message/PaperVisionEngineMessageBase.kt:30-35 | a callback's handler runs once per registration when its filter admits the response, and not at all otherwise |
| ResponseDispatch.HandledInOrder | Shared/src/main/kotlin/io/github/deltacv/papervision/engine/message/PaperVisionEngineMessageBase.kt:19-35 | the handlers that run are exactly those of the admitting callbacks, in registration order |
| ResponseDispatch.FilteredAndUnfiltered | Shared/src/main/kotlin/io/github/deltacv/papervision/engine/message/PaperVisionEngineMessageBase.kt:30-35 | a callback filtered on kind k handles a response if and only if the response is an instance of k (its class or a supertype is k); an unfiltered callback on the same message handles every response |
| MessageText.Description | Shared/src/main/kotlin/io/github/deltacv/papervision/engine/message/PaperVisionEngineMessageBase.kt:37 | the text is the fixed head, the type name, the `", id=` label, the id's decimal text and `)`; `IdOfDescription` recovers the id from it, whatever the type name |
| MessageText.IntText | Shared/src/main/kotlin/io/github/deltacv/papervision/engine/message/PaperVisionEngineMessageBase.kt:37 | the rendered `$id` starts with `-` exactly when the id is negative, is otherwise all digits with no leading zero, and holds no `=` or `)` |
| MessageText.IntTextRoundTrip | Shared/src/main/kotlin/io/github/deltacv/papervision/engine/message/PaperVisionEngineMessageBase.kt:37 | reading back the decimal text of an id, negative ones included, gives the id |

## Left out

- The `@Synchronized` on `nextId`: the model is sequential. Concurrent construction of messages is not modelled.
- A callback that throws: in the source it aborts delivery to the callbacks after it. The model's callbacks always return.
- A callback that registers further callbacks while a response is being accepted. This is JVM iterator behaviour, and the model does not cover it.
- What a handler does with the response. Handlers are names, and the model records only which handler is invoked with which response.
- The Java reflection in `this::class.java.typeName` and the reified `is T` check. They are replaced by a `typeName` constructor parameter and by the set of kind tags a response carries. The model does not derive that set from a class hierarchy, and a caller must supply it complete.
- `PaperVisionEngineMessage`, `PaperVisionEngineMessageResponse` and `OnResponseCallback` are not part of this model. Only the members this class uses from them are represented.
- The application bootstrap, the node category table and the node style interface. These are GUI wiring and static tables, with no behaviour to verify.
