/** `INTENT_SCHEMA` of homeassistant/components/snips.py as a predicate on the
    decoded request. Every dictionary level allows extra keys, so only the
    listed keys are constrained. Validation returns the request unchanged
    (no defaults are filled in), so the handler goes on with the same value. */
module IntentSchema {
  import opened JsonValues

  /** The `value` object of one slot: a dictionary whose `kind` is a string.
      Its optional `value` and `rawValue` entries may hold anything. */
  predicate ValidSlotValue(v: Json)
  {
    v.JObject? && HasString(v, "kind")
  }

  /** One element of `slots`: `slotName` is a string, `value` a valid slot value. */
  predicate ValidSlot(slot: Json)
  {
    && slot.JObject?
    && HasString(slot, "slotName")
    && Has(slot, "value")
    && ValidSlotValue(Field(slot, "value"))
  }

  /** The `intent` object: `intentName` is a string. */
  predicate ValidIntent(intent: Json)
  {
    intent.JObject? && HasString(intent, "intentName")
  }

  /** The whole request: `input` a string, `intent` valid, and `slots`, when
      present, a list of valid slots. */
  predicate ValidRequest(request: Json)
  {
    && request.JObject?
    && HasString(request, "input")
    && Has(request, "intent")
    && ValidIntent(Field(request, "intent"))
    && (Has(request, "slots") ==>
          && Field(request, "slots").JArray?
          && forall i :: 0 <= i < |Field(request, "slots").items| ==>
               ValidSlot(Field(request, "slots").items[i]))
  }

  /** `request['intent']['intentName']`. */
  function IntentName(request: Json): string
    requires ValidRequest(request)
  {
    StringField(Field(request, "intent"), "intentName")
  }

  /** `request['input']`. */
  function Input(request: Json): string
    requires ValidRequest(request)
  {
    StringField(request, "input")
  }

  /** `request.get('slots', [])`. */
  function Slots(request: Json): (slots: seq<Json>)
    requires ValidRequest(request)
    ensures forall i :: 0 <= i < |slots| ==> ValidSlot(slots[i])
    ensures !Has(request, "slots") ==> slots == []
  {
    if Has(request, "slots") then Field(request, "slots").items else []
  }

  /** The `slotName` of a valid slot. */
  function SlotName(slot: Json): string
    requires ValidSlot(slot)
  {
    StringField(slot, "slotName")
  }

  /** Shapes the schema refuses: no string `input`, no `intent` object with a
      string `intentName`, or a `slots` list with a bad element. */
  lemma RejectedRequests(request: Json)
    ensures !HasString(request, "input") ==> !ValidRequest(request)
    ensures !Has(request, "intent") || !HasString(Field(request, "intent"), "intentName") ==> !ValidRequest(request)
    ensures Has(request, "slots") && !Field(request, "slots").JArray? ==> !ValidRequest(request)
    ensures (Has(request, "slots") && Field(request, "slots").JArray? &&
             exists i :: 0 <= i < |Field(request, "slots").items| && !ValidSlot(Field(request, "slots").items[i]))
            ==> !ValidRequest(request)
  {
  }

  /** Slots the schema refuses: no string `slotName`, no `value`, or a
      `value` without a string `kind`. */
  lemma RejectedSlots(slot: Json)
    ensures !HasString(slot, "slotName") ==> !ValidSlot(slot)
    ensures !Has(slot, "value") ==> !ValidSlot(slot)
    ensures Has(slot, "value") && !HasString(Field(slot, "value"), "kind") ==> !ValidSlot(slot)
  {
  }
}
