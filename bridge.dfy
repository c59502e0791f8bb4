/** The MQTT message handler of homeassistant/components/snips.py, from the
    decoded request on: validate it, derive the intent type, build the slot
    map, hand the intent to the dispatcher and publish one end-session
    notification with the reply. The dispatcher is a parameter, and the two
    outward actions (the dispatch and the publish) are returned as data. */
module SnipsBridge {
  import opened Wrappers
  import opened JsonValues
  import opened IntentSchema
  import opened PyStrings
  import opened IntentTypes
  import opened SnipsSlots

  /** The platform name the intents are handed over under. */
  const Domain: string := "snips"

  /** The topic the reply goes out on. */
  const EndSessionTopic: string := "hermes/dialogueManager/endSession"

  const UnknownIntentText: string := "Unknown Intent"
  const IntentErrorText: string := "Error while handling intent"
  const DefaultSessionId: string := "default"

  /** What the intent dispatcher can do with an intent: handle it, with or
      without a plain-text speech reply, or raise `UnknownIntent` or another
      `IntentError`. */
  datatype IntentOutcome =
    | Handled(plainSpeech: Option<string>)
    | UnknownIntent
    | IntentError

  /** `intent.async_handle(hass, domain, intent_type, slots, text_input)`. */
  type Dispatcher = (string, string, map<string, Json>, string) -> IntentOutcome

  /** An action the handler takes outside itself. */
  datatype Effect =
    | Dispatch(domain: string, intentType: string, slots: map<string, Json>, text: string)
    | Publish(topic: string, payload: Json)

  /** How the handler ends: it drops an invalid request after logging it, a
      slot that does not resolve raises out of it, or it replies. */
  datatype Status = Dropped | Raised(error: SlotError) | Replied

  datatype Reaction = Reaction(status: Status, effects: seq<Effect>)

  /** `snips_response` once the dispatch has returned or raised. */
  function ReplyText(outcome: IntentOutcome): Json
  {
    match outcome
    case Handled(plain) => if plain.Some? then JString(plain.value) else JNull
    case UnknownIntent => JString(UnknownIntentText)
    case IntentError => JString(IntentErrorText)
  }

  /** `{'sessionId': request.get('sessionId', 'default'), 'text': text}`. */
  function Notification(request: Json, text: Json): Json
  {
    JObject(map["sessionId" := GetOr(request, "sessionId", JString(DefaultSessionId)), "text" := text])
  }

  /** What one message does, start to end. */
  function HandleMessage(request: Json, dispatch: Dispatcher): Reaction
  {
    if !ValidRequest(request) then Reaction(Dropped, [])
    else match SlotMap(Slots(request))
      case Err(e) => Reaction(Raised(e), [])
      case Ok(slots) =>
        var intentType := IntentType(IntentName(request));
        var outcome := dispatch(Domain, intentType, slots, Input(request));
        Reaction(Replied, [Dispatch(Domain, intentType, slots, Input(request)),
                           Publish(EndSessionTopic, Notification(request, ReplyText(outcome)))])
  }

  /** The loop that fills the slot map: each slot in turn stores
      `{'value': resolve_slot_values(slot)}` under its name, and the first
      slot that fails to resolve raises out of the loop. */
  method BuildSlotMap(items: seq<Json>) returns (r: Result<map<string, Json>, SlotError>)
    requires forall i :: 0 <= i < |items| ==> ValidSlot(items[i])
    ensures r == SlotMap(items)
  {
    var slots: map<string, Json> := map[];
    var i := 0;
    while i < |items|
      invariant 0 <= i <= |items|
      invariant SlotMap(items[..i]) == Ok(slots)
    {
      var resolved := ResolveSlotValue(items[i]);
      assert items[..i + 1][..i] == items[..i];
      if resolved.Err? {
        SlotMapErrorPersists(items, i + 1);
        return Err(resolved.error);
      }
      slots := slots[SlotName(items[i]) := Entry(resolved.value)];
      i := i + 1;
    }
    assert items[..i] == items;
    return Ok(slots);
  }

  /** `message_received` after `json.loads`: the same steps, one after the
      other. */
  method MessageReceived(request: Json, dispatch: Dispatcher) returns (reaction: Reaction)
    ensures reaction == HandleMessage(request, dispatch)
  {
    if !ValidRequest(request) {
      return Reaction(Dropped, []);
    }
    var intentType := IntentType(IntentName(request));
    var built := BuildSlotMap(Slots(request));
    if built.Err? {
      return Reaction(Raised(built.error), []);
    }
    var slots := built.value;
    var outcome := dispatch(Domain, intentType, slots, Input(request));
    var response: Json := JNull;
    match outcome {
      case Handled(plain) =>
        if plain.Some? {
          response := JString(plain.value);
        }
      case UnknownIntent =>
        response := JString(UnknownIntentText);
      case IntentError =>
        response := JString(IntentErrorText);
    }
    assert response == ReplyText(outcome);
    var notification := Notification(request, response);
    reaction := Reaction(Replied, [Dispatch(Domain, intentType, slots, Input(request)),
                                   Publish(EndSessionTopic, notification)]);
  }

  /** The number of publishes among some effects. */
  function PublishCount(effects: seq<Effect>): nat
  {
    if |effects| == 0 then 0
    else PublishCount(effects[..|effects| - 1]) + (if effects[|effects| - 1].Publish? then 1 else 0)
  }

  /** The number of dispatches among some effects. */
  function DispatchCount(effects: seq<Effect>): nat
  {
    if |effects| == 0 then 0
    else DispatchCount(effects[..|effects| - 1]) + (if effects[|effects| - 1].Dispatch? then 1 else 0)
  }

  /** A request the schema refuses is dropped: nothing is dispatched and
      nothing is published. */
  lemma InvalidRequestIsDropped(request: Json, dispatch: Dispatcher)
    requires !ValidRequest(request)
    ensures HandleMessage(request, dispatch).status == Dropped
    ensures DispatchCount(HandleMessage(request, dispatch).effects) == 0
    ensures PublishCount(HandleMessage(request, dispatch).effects) == 0
  {
  }

  /** A valid request without `slots` is dispatched with an empty slot map. */
  lemma NoSlotsGiveEmptyMap(request: Json, dispatch: Dispatcher)
    requires ValidRequest(request) && !Has(request, "slots")
    ensures HandleMessage(request, dispatch).status == Replied
    ensures HandleMessage(request, dispatch).effects[0].slots == map[]
  {
  }

  /** A slot that does not resolve raises before the dispatch: nothing is
      dispatched or published, and the error is that of the first such slot. */
  lemma SlotErrorRaises(request: Json, dispatch: Dispatcher)
    requires ValidRequest(request) && !(forall i :: 0 <= i < |Slots(request)| ==> ResolveSlotValue(Slots(request)[i]).Ok?)
    ensures HandleMessage(request, dispatch).status.Raised?
    ensures HandleMessage(request, dispatch).effects == []
    ensures exists i :: && 0 <= i < |Slots(request)|
                        && ResolveSlotValue(Slots(request)[i]) == Err(HandleMessage(request, dispatch).status.error)
                        && forall j :: 0 <= j < i ==> ResolveSlotValue(Slots(request)[j]).Ok?
  {
    SlotMapOkIff(Slots(request));
    SlotMapFirstError(Slots(request));
  }

  /** The handler replies exactly when the request is valid and every slot
      resolves; it then publishes exactly once, after exactly one dispatch,
      and otherwise publishes nothing. */
  lemma ExactlyOnePublish(request: Json, dispatch: Dispatcher)
    ensures HandleMessage(request, dispatch).status == Replied <==>
              ValidRequest(request) && forall i :: 0 <= i < |Slots(request)| ==> ResolveSlotValue(Slots(request)[i]).Ok?
    ensures PublishCount(HandleMessage(request, dispatch).effects)
              == if HandleMessage(request, dispatch).status == Replied then 1 else 0
    ensures DispatchCount(HandleMessage(request, dispatch).effects)
              == PublishCount(HandleMessage(request, dispatch).effects)
    ensures var effects := HandleMessage(request, dispatch).effects;
            |effects| > 0 ==> effects[|effects| - 1].Publish? && effects[|effects| - 1].topic == EndSessionTopic
  {
    if ValidRequest(request) {
      SlotMapOkIff(Slots(request));
      var effects := HandleMessage(request, dispatch).effects;
      if |effects| > 0 {
        assert effects[..1][..0] == [];
        assert effects[..|effects| - 1] == effects[..1];
        assert PublishCount(effects[..1]) == 0 && DispatchCount(effects[..1]) == 1;
      }
    }
  }

  /** When the handler replies, it hands the dispatcher the `snips` domain,
      the derived intent type, the slot map and the input text, and publishes
      the request's session id (or `default`) with the reply chosen from the
      dispatcher's outcome. */
  lemma ReplyContents(request: Json, dispatch: Dispatcher)
    requires HandleMessage(request, dispatch).status == Replied
    ensures ValidRequest(request) && SlotMap(Slots(request)).Ok?
    ensures var slots := SlotMap(Slots(request)).value;
            var intentType := IntentType(IntentName(request));
            var outcome := dispatch(Domain, intentType, slots, Input(request));
            var effects := HandleMessage(request, dispatch).effects;
            && |effects| == 2
            && effects[0] == Dispatch(Domain, intentType, slots, Input(request))
            && effects[1].Publish? && effects[1].topic == EndSessionTopic
            && effects[1].payload.JObject?
            && effects[1].payload.fields.Keys == {"sessionId", "text"}
            && (Has(request, "sessionId") ==> effects[1].payload.fields["sessionId"] == Field(request, "sessionId"))
            && (!Has(request, "sessionId") ==> effects[1].payload.fields["sessionId"] == JString(DefaultSessionId))
            && (outcome.Handled? && outcome.plainSpeech.Some? ==>
                  effects[1].payload.fields["text"] == JString(outcome.plainSpeech.value))
            && (outcome.Handled? && outcome.plainSpeech.None? ==> effects[1].payload.fields["text"] == JNull)
            && (outcome.UnknownIntent? ==> effects[1].payload.fields["text"] == JString(UnknownIntentText))
            && (outcome.IntentError? ==> effects[1].payload.fields["text"] == JString(IntentErrorText))
  {
  }

  /** A request with one slot and no session id, for intent `name`; the
      tests' `probability` key, which the handler does not read, is omitted. */
  function SlotRequest(input: string, name: string, slot: Json): Json
  {
    JObject(map[
      "input" := JString(input),
      "intent" := JObject(map["intentName" := JString(name)]),
      "slots" := JArray([slot])])
  }

  /** A one-slot request for a plain intent name whose slot resolves is
      dispatched under that name with a one-entry slot map. */
  lemma SingleSlotDispatch(input: string, name: string, slot: Json, dispatch: Dispatcher)
    requires !StartsWith(name, UserPrefix) && ':' !in name
    requires ValidSlot(slot) && ResolveSlotValue(slot).Ok?
    ensures var reaction := HandleMessage(SlotRequest(input, name, slot), dispatch);
            && reaction.status == Replied
            && reaction.effects[0]
                 == Dispatch(Domain, name, map[SlotName(slot) := Entry(ResolveSlotValue(slot).value)], input)
  {
    var request := SlotRequest(input, name, slot);
    assert ValidRequest(request);
    assert Slots(request) == [slot];
    assert [slot][..0] == [];
    assert SlotMap([slot]) == Ok(map[SlotName(slot) := Entry(ResolveSlotValue(slot).value)]);
    PlainIntentType(name);
  }

  /** The slot of the Snips light test, without its `probability` key, which
      the handler does not read. */
  const LightColorSlot: Json := JObject(map[
    "slotName" := JString("light_color"),
    "value" := JObject(map["kind" := JString("Custom"), "value" := JString("green")])])

  /** The light test is dispatched as intent `Lights` of `snips` with slot
      map `{'light_color': {'value': 'green'}}`. */
  lemma LightsExample(dispatch: Dispatcher)
    ensures var reaction := HandleMessage(SlotRequest("turn the lights green", "Lights", LightColorSlot), dispatch);
            reaction.status == Replied &&
            reaction.effects[0]
              == Dispatch(Domain, "Lights", map["light_color" := Entry(JString("green"))], "turn the lights green")
  {
    assert ValidSlot(LightColorSlot) && SlotName(LightColorSlot) == "light_color";
    assert ResolveSlotValue(LightColorSlot) == Ok(JString("green"));
    DiffersFromUserPrefix("Lights", 0);
    SingleSlotDispatch("turn the lights green", "Lights", LightColorSlot, dispatch);
  }

  /** The slot of the Snips duration test: five minutes, with a top-level
      `rawValue` and no `value` entry in its value object. Its `range` key,
      which the handler does not read, is omitted. */
  const TimerSlot: Json := JObject(map[
    "rawValue" := JString("five minutes"),
    "value" := JObject(map[
      "kind" := JString("Duration"), "years" := JInt(0), "quarters" := JInt(0),
      "months" := JInt(0), "weeks" := JInt(0), "days" := JInt(0), "hours" := JInt(0),
      "minutes" := JInt(5), "seconds" := JInt(0), "precision" := JString("Exact")]),
    "entity" := JString(DurationEntity),
    "slotName" := JString("timer_duration")])

  /** Five minutes resolve to 300 seconds, so by `SingleSlotDispatch` the
      duration test's slot map is `{'timer_duration': {'value': 300}}`. */
  lemma TimerSlotExample()
    ensures ValidSlot(TimerSlot) && SlotName(TimerSlot) == "timer_duration"
    ensures ResolveSlotValue(TimerSlot) == Ok(JInt(300))
  {
    assert ValidSlot(TimerSlot) && IsDuration(TimerSlot);
    DurationIsSecondsWithinDay(TimerSlot, 0, 0, 0, 5, 0);
  }

  /** A request with a session id and no slots, for intent `name`. */
  function SessionRequest(input: string, name: string, sessionId: string): Json
  {
    JObject(map[
      "input" := JString(input),
      "sessionId" := JString(sessionId),
      "intent" := JObject(map["intentName" := JString(name)]),
      "slots" := JArray([])])
  }

  /** A slot-free request for a plain intent name is dispatched under that
      name, and its reply carries the session id and the text chosen from
      the dispatcher's outcome. */
  lemma SessionReply(input: string, name: string, sessionId: string, dispatch: Dispatcher)
    requires !StartsWith(name, UserPrefix) && ':' !in name
    ensures var effects := HandleMessage(SessionRequest(input, name, sessionId), dispatch).effects;
            && |effects| == 2
            && effects[0] == Dispatch(Domain, name, map[], input)
            && effects[1] == Publish(EndSessionTopic, JObject(map[
                 "sessionId" := JString(sessionId),
                 "text" := ReplyText(dispatch(Domain, name, map[], input))]))
  {
  }

  /** The speech test: the dispatcher answers with plain speech, and the
      notification carries the session id and that speech. */
  lemma SpeechResponseExample(dispatch: Dispatcher)
    requires dispatch(Domain, "spokenIntent", map[], "speak to me") == Handled(Some("I am speaking to you"))
    ensures var effects := HandleMessage(SessionRequest("speak to me", "spokenIntent", "abcdef0123456789"), dispatch).effects;
            effects[|effects| - 1]
              == Publish(EndSessionTopic, JObject(map["sessionId" := JString("abcdef0123456789"),
                                                      "text" := JString("I am speaking to you")]))
  {
    DiffersFromUserPrefix("spokenIntent", 0);
    SessionReply("speak to me", "spokenIntent", "abcdef0123456789", dispatch);
  }

  /** A request without a session id and with an empty slot list, for intent
      `name`. */
  function PlainRequest(input: string, name: string): Json
  {
    JObject(map[
      "input" := JString(input),
      "intent" := JObject(map["intentName" := JString(name)]),
      "slots" := JArray([])])
  }

  /** A slot-free request without a session id, for a plain intent name, is
      dispatched under that name, and its reply carries the session id
      `default` and the text chosen from the dispatcher's outcome. */
  lemma DefaultSessionReply(input: string, name: string, dispatch: Dispatcher)
    requires !StartsWith(name, UserPrefix) && ':' !in name
    ensures var effects := HandleMessage(PlainRequest(input, name), dispatch).effects;
            && |effects| == 2
            && effects[0] == Dispatch(Domain, name, map[], input)
            && effects[1] == Publish(EndSessionTopic, JObject(map[
                 "sessionId" := JString(DefaultSessionId),
                 "text" := ReplyText(dispatch(Domain, name, map[], input))]))
  {
  }

  /** The unknown-intent test: its request has no session id, so `Unknown
      Intent` is published on endSession with the session id `default`. */
  lemma UnknownIntentExample(dispatch: Dispatcher)
    requires dispatch(Domain, "unknownIntent", map[], "what to do") == UnknownIntent
    ensures var effects := HandleMessage(PlainRequest("what to do", "unknownIntent"), dispatch).effects;
            effects[|effects| - 1]
              == Publish(EndSessionTopic, JObject(map["sessionId" := JString(DefaultSessionId),
                                                      "text" := JString(UnknownIntentText)]))
  {
    DiffersFromUserPrefix("unknownIntent", 1);
    DefaultSessionReply("what to do", "unknownIntent", dispatch);
  }
}
