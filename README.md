# Snips intent bridge, modelled in Dafny

A model of the Snips component of Home Assistant
(`homeassistant/components/snips.py`). Snips publishes every recognised
voice intent as a JSON message on the MQTT topic `hermes/intent/#`. The
component's handler then does five things in order:

1. It checks the decoded request against `INTENT_SCHEMA`.
2. It derives the intent type from `intentName`:
   - for a `user_` name, the last part of a split on `__`;
   - for any other name, the last part of a split on `:`.
3. It builds the slot map `slotName -> {'value': resolve_slot_values(slot)}` in a loop.
4. It hands the intent to Home Assistant's intent dispatcher under the platform name `snips`.
5. It publishes exactly one `{sessionId, text}` notification on `hermes/dialogueManager/endSession`. The text comes from the dispatcher's outcome.

The model starts from the decoded JSON value. The five steps become:

| module | file | contents |
|---|---|---|
| `Wrappers` | `wrappers.dfy` | `Option` and `Result` |
| `JsonValues` | `json.dfy` | the JSON datatype and dictionary lookups |
| `IntentSchema` | `schema.dfy` | the schema as a predicate, and the validated request's fields |
| `PyStrings` | `pystrings.dfy` | `startswith`, `find` and `split`, as Python defines them |
| `IntentTypes` | `intent_type.dfy` | the intent-type derivation |
| `SnipsSlots` | `slots.dfy` | `resolve_slot_values`, a model of `timedelta`'s integer normalisation, and the slot map |
| `SnipsBridge` | `bridge.dfy` | the handler, as a method `MessageReceived` proved equal to the function `HandleMessage` |

The dispatcher is a function parameter, and the handler returns its actions as data: the dispatch and the publish.

The model keeps these details of the code:

- **Platform name.** The dispatcher receives the platform name `'snips'` (snips.py:15, 74-75).
- **`rawValue`.** The fallback is the slot's own top-level `rawValue` (snips.py:104).
- **Duration slots.** The generic `value`/`rawValue` extraction still runs first (snips.py:101-104). A duration slot with neither raises `KeyError` before the duration is read (`SnipsSlots.DurationWithoutValueRaises`).
- **Duration result.** The result is `timedelta(...).seconds`, the seconds within the last day (snips.py:112), so whole days and weeks are dropped. `SnipsSlots.DurationIsSecondsWithinDay` and `SnipsSlots.DurationDropsDays` state this as written.
- **Uncaught errors.** Errors raised while resolving a slot are not caught. A `KeyError`, a `TypeError` from `timedelta` or an `OverflowError` leaves the handler before the dispatch, so nothing is published. The model returns these as `Raised`.
- **`sessionId`.** The `sessionId` is copied as whatever JSON value the request holds. It is never checked to be a string.
- **`split('__')`.** It scans from the left, so `__` occurrences never overlap. For `user_a___b` the intent type is `_b`, not `b` (`IntentTypes.OverlappingSeparator`).

## Model

| member | source | states |
|---|---|---|
| IntentSchema.ValidRequest | homeassistant/components/snips.py:28-41 | `INTENT_SCHEMA`; `IntentSchema.RejectedRequests` and `IntentSchema.RejectedSlots` state the shapes it refuses, and `IntentSchema.Slots` what an accepted request holds |
| IntentSchema.Slots | homeassistant/components/snips.py:70 | `request.get('slots', [])` is a list of schema-valid slots, and empty when the key is absent |
| IntentSchema.RejectedRequests | homeassistant/components/snips.py:28-33 | a request without a string `input`, without an `intent` holding a string `intentName`, with a non-list `slots`, or with a bad slot, fails the schema |
| IntentSchema.RejectedSlots | homeassistant/components/snips.py:33-39 | a slot without a string `slotName`, without `value`, or whose `value` lacks a string `kind`, fails the schema |
| PyStrings.FindFrom | homeassistant/components/snips.py:65-67 | a found index is at or after the start and the separator occurs there |
| PyStrings.FindFromIsFirst | homeassistant/components/snips.py:65-67 | `find` returns the first occurrence, and nothing only when there is no occurrence from the start on |
| PyStrings.Split | homeassistant/components/snips.py:65-67 | `s.split(sep)` always has at least one part; `PyStrings.SplitPartsAreFree` and `PyStrings.JoinSplit` state its meaning |
| PyStrings.SplitFrom | homeassistant/components/snips.py:65-67 | the left-to-right scan behind `split`, from a start index, with at least one part |
| PyStrings.LastPart | homeassistant/components/snips.py:65-67 | `s.split(sep)[-1]`; `PyStrings.LastPartIsTail` and `PyStrings.LastPartIsLastSegment` state what it is |
| PyStrings.SplitPartsAreFree | homeassistant/components/snips.py:65-67 | no part of `split(sep)` contains `sep` |
| PyStrings.JoinSplit | homeassistant/components/snips.py:65-67 | `sep.join(s.split(sep)) == s` |
| PyStrings.LastPartIsTail | homeassistant/components/snips.py:65-67 | `split(sep)[-1]` is the suffix from the end of the last separator the scan finds, and holds no separator |
| PyStrings.LastPartAfterOnly | homeassistant/components/snips.py:65-67 | with the first separator at `p` and none starting after it, the last part is the text after it |
| PyStrings.LastPartIsLastSegment | homeassistant/components/snips.py:65-67 | `split(sep)[-1]` is a separator-free suffix that is the whole text when there is no separator and otherwise directly follows one |
| IntentTypes.SeparatorFor | homeassistant/components/snips.py:64-67 | the separator chosen is never empty, so `split` cannot raise |
| IntentTypes.IntentType | homeassistant/components/snips.py:64-67 | the intent type derived from `intentName`; `IntentTypes.IntentTypeIsLastSegment`, `IntentTypes.NamespacedIntentType` and `IntentTypes.UserIntentType` state what it is |
| IntentTypes.IntentTypeIsLastSegment | homeassistant/components/snips.py:64-67 | the intent type is a suffix of `intentName`, contains no separator it was split on, and is either the whole name or follows a separator |
| IntentTypes.AfterLastCharIsLastSegment | homeassistant/components/snips.py:66-67 | an independent definition, "the text after the last `c`", satisfies the same description |
| IntentTypes.LastSegmentOfCharIsUnique | homeassistant/components/snips.py:66-67 | for a one-character separator that description fixes the segment |
| IntentTypes.NamespacedIntentType | homeassistant/components/snips.py:66-67 | a name without the `user_` prefix gives exactly the text after its last `:`, and the whole name when it has no `:` |
| IntentTypes.PlainIntentType | homeassistant/components/snips.py:66-67 | a name without the `user_` prefix and without `:` is its own intent type |
| IntentTypes.NamespacedIntentTypeOf | homeassistant/components/snips.py:66-67 | `<prefix>:<last>`, where `last` has no `:`, gives `last` |
| IntentTypes.UserIntentType | homeassistant/components/snips.py:64-65 | `user_<id>__<name>`, where the id is non-empty without `_` and the name has no `__`, gives `name` |
| IntentTypes.UserIntentSeparatorAt | homeassistant/components/snips.py:64-65 | in such a name the first `__` is the one right after the id |
| IntentTypes.OverlappingSeparator | homeassistant/components/snips.py:64-65 | `user_<id>___<x>` gives `_<x>`: the first two underscores of three form the separator |
| IntentTypes.OverlappingSuffixIsLastSegment | homeassistant/components/snips.py:64-65 | yet `<x>` also fits the suffix description, so for `__` the description alone does not fix the result |
| IntentTypes.UserIntentExample | tests/components/test_snips.py:190-213 | `user_ABCDEF123__Lights` gives `Lights` |
| IntentTypes.NamespacedIntentExample | tests/components/test_snips.py:217-240 | `username:Lights` gives `Lights` |
| IntentTypes.PlainIntentExample | tests/components/test_snips.py:11-44 | `Lights` gives `Lights` |
| SnipsSlots.ReportedValue | homeassistant/components/snips.py:101-104 | `slot['value']['value']` when present, else the top-level `rawValue`, else `KeyError('rawValue')` |
| SnipsSlots.Lookup | homeassistant/components/snips.py:107-111 | every key is present exactly when the lookups succeed, and then the results are the fields in key order |
| SnipsSlots.LookupFirstMissing | homeassistant/components/snips.py:107-111 | a failed lookup raises `KeyError` for the first missing key |
| SnipsSlots.AsInteger | homeassistant/components/snips.py:107-111 | `timedelta` takes an int as itself and a bool as 0 or 1, and refuses every other JSON value |
| SnipsSlots.MakeTimedelta | homeassistant/components/snips.py:107-111 | the result has seconds in `[0, 86400)`, days within ±999999999, and days·86400 + seconds equal to the total length; otherwise `OverflowError` |
| SnipsSlots.TimedeltaIsUnique | homeassistant/components/snips.py:107-112 | the normalised days/seconds pair is the only one with seconds in `[0, 86400)` |
| SnipsSlots.DurationValue | homeassistant/components/snips.py:106-112 | `timedelta(...).seconds` of the value object; `SnipsSlots.DurationIsSecondsWithinDay` and `SnipsSlots.DurationInRange` state its result, `SnipsSlots.DurationFieldErrors` its `KeyError` and `TypeError`, and `SnipsSlots.DurationOverflowRaises` its `OverflowError` |
| SnipsSlots.ResolveSlotValue | homeassistant/components/snips.py:99-114 | `resolve_slot_values(slot)`; `SnipsSlots.NonDurationValue` states it for a non-duration slot; for a duration slot `SnipsSlots.DurationWithoutValueRaises`, `SnipsSlots.DurationIsSecondsWithinDay`, `SnipsSlots.DurationFieldErrors` and `SnipsSlots.DurationOverflowRaises` state each outcome |
| SnipsSlots.NonDurationValue | homeassistant/components/snips.py:99-104 | a non-duration slot resolves to `value.value`, else to the top-level `rawValue`, else raises `KeyError('rawValue')` |
| SnipsSlots.DurationIsSecondsWithinDay | homeassistant/components/snips.py:106-112 | a `snips/duration` slot resolves to its total length mod 86400, whatever `value.value` says |
| SnipsSlots.DurationFieldErrors | homeassistant/components/snips.py:107-111 | a missing duration field raises `KeyError` for the first missing one in keyword order; a non-integer field raises `TypeError` |
| SnipsSlots.DurationWithoutValueRaises | homeassistant/components/snips.py:101-106 | a duration slot with neither `value.value` nor `rawValue` raises `KeyError('rawValue')` before the duration is read |
| SnipsSlots.DurationOverflowRaises | homeassistant/components/snips.py:107-112 | a duration slot whose total exceeds ±999999999 whole days raises `OverflowError` |
| SnipsSlots.DurationInRange | homeassistant/components/snips.py:106-112 | a resolved duration is an integer in `[0, 86400)` |
| SnipsSlots.DurationDropsDays | homeassistant/components/snips.py:107-112 | adding whole days to a duration leaves its resolved value unchanged |
| SnipsSlots.SlotMap | homeassistant/components/snips.py:69-71 | the slot map the loop builds, or the error it raises; `SnipsSlots.SlotMapOkIff`, `SnipsSlots.SlotMapKeys` and `SnipsSlots.SlotMapLastWins` state what it is |
| SnipsSlots.SlotMapOkIff | homeassistant/components/snips.py:69-71 | the slot loop completes exactly when every slot resolves |
| SnipsSlots.SlotMapFirstError | homeassistant/components/snips.py:69-71 | a failed loop raises the error of the first slot that does not resolve |
| SnipsSlots.SlotMapKeys | homeassistant/components/snips.py:69-71 | the keys of the slot map are exactly the slot names |
| SnipsSlots.SlotMapLastWins | homeassistant/components/snips.py:69-71 | each name maps to `{'value': v}`, where `v` is the resolved value of the last slot with that name |
| SnipsSlots.SlotMapErrorPersists | homeassistant/components/snips.py:69-71 | once a prefix of the slots fails, the whole loop fails with the same error |
| SnipsBridge.ReplyText | homeassistant/components/snips.py:76-84 | the reply text for each dispatcher outcome, as `SnipsBridge.ReplyContents` states |
| SnipsBridge.Notification | homeassistant/components/snips.py:86-87 | the `{sessionId, text}` payload with `sessionId` defaulting to `default`, as `SnipsBridge.ReplyContents` states |
| SnipsBridge.HandleMessage | homeassistant/components/snips.py:58-91 | the handler's reaction to one request; `SnipsBridge.ExactlyOnePublish`, `SnipsBridge.ReplyContents`, `SnipsBridge.InvalidRequestIsDropped` and `SnipsBridge.SlotErrorRaises` state it |
| SnipsBridge.BuildSlotMap | homeassistant/components/snips.py:69-71 | the loop's result is the slot-map specification `SlotMap` |
| SnipsBridge.MessageReceived | homeassistant/components/snips.py:58-91 | the handler's reaction is `HandleMessage`: drop, raise, or dispatch and then publish |
| SnipsBridge.InvalidRequestIsDropped | homeassistant/components/snips.py:58-62 | a request that fails the schema is dropped without a dispatch and without a publish |
| SnipsBridge.NoSlotsGiveEmptyMap | homeassistant/components/snips.py:69-75 | a valid request without `slots` is dispatched with an empty slot map |
| SnipsBridge.SlotErrorRaises | homeassistant/components/snips.py:69-75 | a slot that does not resolve raises the first such slot's error, with no dispatch and no publish |
| SnipsBridge.ExactlyOnePublish | homeassistant/components/snips.py:58-91 | the handler replies exactly when the request is valid and all slots resolve; it then publishes once, last, on `hermes/dialogueManager/endSession`, after one dispatch, and otherwise publishes nothing |
| SnipsBridge.ReplyContents | homeassistant/components/snips.py:73-91 | a reply dispatches (`snips`, intent type, slot map, input), then publishes `{sessionId, text}`. `sessionId` defaults to `default`. `text` is: the plain speech; null when there is none; `Unknown Intent`; or `Error while handling intent` |
| SnipsBridge.SingleSlotDispatch | homeassistant/components/snips.py:64-75 | a one-slot request for a plain name is dispatched under that name with a one-entry slot map |
| SnipsBridge.SessionReply | homeassistant/components/snips.py:73-91 | a slot-free request for a plain name publishes its session id and the text chosen from the outcome |
| SnipsBridge.LightsExample | tests/components/test_snips.py:11-46 | the light test dispatches `Lights` of `snips` with `{'light_color': {'value': 'green'}}` |
| SnipsBridge.TimerSlotExample | tests/components/test_snips.py:50-96 | the five-minute duration slot resolves to 300 |
| SnipsBridge.SpeechResponseExample | tests/components/test_snips.py:100-147 | plain speech `I am speaking to you` is published with session id `abcdef0123456789` |
| SnipsBridge.DefaultSessionReply | homeassistant/components/snips.py:73-91 | a slot-free request without `sessionId` for a plain name publishes session id `default` and the text chosen from the outcome |
| SnipsBridge.UnknownIntentExample | tests/components/test_snips.py:151-186 | the test's request, which has no `sessionId`, publishes `{sessionId: default, text: Unknown Intent}` on endSession |

## Left out

- `json.loads` (snips.py:53) is left out. The model starts from the decoded value. The source catches only `TypeError` there, so a malformed JSON text raises instead of being dropped. The model claims nothing about that case.
- JSON floating-point numbers are left out: every JSON number is an integer. Float duration fields are therefore not modelled.
- The MQTT subscription and publish (snips.py:90-96) are left out. The publish is returned as a `Publish` action with the notification as a JSON value; `json.dumps` is not modelled.
- `intent.async_handle` (snips.py:74-75) is modelled only by its outcomes, as a function parameter:
  - handled, with or without plain speech;
  - `UnknownIntent`;
  - any other `IntentError`.
- The structure of the dispatcher's speech dictionary beyond `speech['plain']['speech']` is left out.
- Exceptions other than `IntentError` that `async_handle` might raise are left out.
- Logging, the asyncio coroutine machinery and `async_setup`'s return value are left out.
- `CONFIG_SCHEMA` (snips.py:24-26) validates the configuration file, not the messages, and is left out.
- Python dictionaries keep insertion order; the model's maps do not. The slot map's key order is not modelled.
- The error modelled for `timedelta`'s `TypeError` does not say which field was at fault.
- SnipsBridge.TimerSlotExample: the duration test's full request is not evaluated end to end. Its slot resolves to 300 by this lemma, and `SingleSlotDispatch` gives the dispatched slot map.
- homeassistant/components/cloud/__init__.py, homeassistant/components/light/iglo.py and homeassistant/components/sensor/alpha_vantage.py are not part of this model. They are adapters over file I/O, HTTP, JWT and vendor libraries.
