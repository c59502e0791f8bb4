/** `resolve_slot_values` of homeassistant/components/snips.py and the slot
    map the handler builds from it. A lookup that Python would answer with an
    exception (a missing key, a value `timedelta` refuses, a duration out of
    range) is an `Err` here; the handler does not catch any of them. */
module SnipsSlots {
  import opened Wrappers
  import opened JsonValues
  import opened IntentSchema

  const DurationEntity: string := "snips/duration"

  const SecondsPerMinute: int := 60
  const SecondsPerHour: int := 3600
  const SecondsPerDay: int := 86400
  const SecondsPerWeek: int := 604800

  /** `timedelta` refuses a normalised day count beyond this magnitude. */
  const MaxDays: int := 999999999

  /** The exceptions `resolve_slot_values` can raise. */
  datatype SlotError =
    | KeyMissing(key: string)   // KeyError
    | NotANumber                // TypeError from `timedelta`
    | DaysOverflow              // OverflowError from `timedelta`

  /** The keyword arguments of the duration's `timedelta`, in the order
      Python evaluates them. */
  const DurationFields: seq<string> := ["weeks", "days", "hours", "minutes", "seconds"]

  /** The first step of `resolve_slot_values`: `slot['value']['value']` when
      the value object has that key, else the slot's own `rawValue`. */
  function ReportedValue(slot: Json): (r: Result<Json, SlotError>)
    requires ValidSlot(slot)
    ensures Has(Field(slot, "value"), "value") ==> r == Ok(Field(Field(slot, "value"), "value"))
    ensures !Has(Field(slot, "value"), "value") && Has(slot, "rawValue") ==> r == Ok(Field(slot, "rawValue"))
    ensures r.Err? <==> !Has(Field(slot, "value"), "value") && !Has(slot, "rawValue")
    ensures r.Err? ==> r.error == KeyMissing("rawValue")
  {
    var v := Field(slot, "value");
    if Has(v, "value") then Ok(Field(v, "value"))
    else if Has(slot, "rawValue") then Ok(Field(slot, "rawValue"))
    else Err(KeyMissing("rawValue"))
  }

  /** `slot.get('entity') == "snips/duration"`. */
  predicate IsDuration(slot: Json)
  {
    Has(slot, "entity") && Field(slot, "entity") == JString(DurationEntity)
  }

  /** `obj[k]` for each key in turn; the first missing key raises. */
  function Lookup(obj: Json, keys: seq<string>): (r: Result<seq<Json>, SlotError>)
    ensures r.Ok? <==> forall i :: 0 <= i < |keys| ==> Has(obj, keys[i])
    ensures r.Ok? ==> |r.value| == |keys| && forall i :: 0 <= i < |keys| ==> Has(obj, keys[i]) && r.value[i] == Field(obj, keys[i])
  {
    if |keys| == 0 then Ok([])
    else if !Has(obj, keys[0]) then Err(KeyMissing(keys[0]))
    else match Lookup(obj, keys[1..])
      case Err(e) => Err(e)
      case Ok(rest) => Ok([Field(obj, keys[0])] + rest)
  }

  /** A failed lookup names the first missing key. */
  lemma {:induction false} LookupFirstMissing(obj: Json, keys: seq<string>)
    requires Lookup(obj, keys).Err?
    ensures exists i :: && 0 <= i < |keys| && Lookup(obj, keys).error == KeyMissing(keys[i])
                        && !Has(obj, keys[i]) && forall j :: 0 <= j < i ==> Has(obj, keys[j])
  {
    if !Has(obj, keys[0]) {
      assert Lookup(obj, keys).error == KeyMissing(keys[0]);
    } else {
      var rest := keys[1..];
      LookupFirstMissing(obj, rest);
      var i :| && 0 <= i < |rest| && Lookup(obj, rest).error == KeyMissing(rest[i])
               && !Has(obj, rest[i]) && forall j :: 0 <= j < i ==> Has(obj, rest[j]);
      assert Lookup(obj, keys).error == KeyMissing(keys[i + 1]);
      forall j | 0 <= j < i + 1 ensures Has(obj, keys[j]) {
        if j > 0 {
          assert keys[j] == rest[j - 1];
        }
      }
    }
  }

  /** The integer `timedelta` takes a JSON value as: an int as itself and a
      bool (an int subtype in Python) as 0 or 1; anything else is refused. */
  function AsInteger(v: Json): (r: Option<int>)
    ensures v.JInt? ==> r == Some(v.i)
    ensures v.JBool? ==> r == Some(if v.b then 1 else 0)
    ensures r.Some? <==> v.JInt? || v.JBool?
  {
    match v
    case JInt(i) => Some(i)
    case JBool(b) => Some(if b then 1 else 0)
    case _ => None
  }

  /** A normalised `timedelta` with whole seconds: `microseconds` is always 0
      for integer arguments and is not kept. */
  datatype Timedelta = Timedelta(days: int, seconds: int)

  /** The length of a duration in seconds. */
  function TotalSeconds(weeks: int, days: int, hours: int, minutes: int, seconds: int): int
  {
    weeks * SecondsPerWeek + days * SecondsPerDay + hours * SecondsPerHour
      + minutes * SecondsPerMinute + seconds
  }

  /** `timedelta(weeks=…, days=…, hours=…, minutes=…, seconds=…)` on
      integers: the total is split into whole days (rounded down) and the
      seconds within the last day, and a day count beyond `MaxDays` raises. */
  function MakeTimedelta(weeks: int, days: int, hours: int, minutes: int, seconds: int): (r: Result<Timedelta, SlotError>)
    ensures r.Ok? ==> && 0 <= r.value.seconds < SecondsPerDay
                      && -MaxDays <= r.value.days <= MaxDays
                      && r.value.days * SecondsPerDay + r.value.seconds
                           == TotalSeconds(weeks, days, hours, minutes, seconds)
    ensures r.Ok? <==> -MaxDays <= TotalSeconds(weeks, days, hours, minutes, seconds) / SecondsPerDay <= MaxDays
    ensures r.Err? ==> r.error == DaysOverflow
  {
    var total := TotalSeconds(weeks, days, hours, minutes, seconds);
    var d := total / SecondsPerDay;
    if d < -MaxDays || d > MaxDays then Err(DaysOverflow)
    else Ok(Timedelta(d, total % SecondsPerDay))
  }

  /** The normalised form is the only one with seconds in `[0, 86400)`. */
  lemma TimedeltaIsUnique(total: int, d1: int, s1: int, d2: int, s2: int)
    requires 0 <= s1 < SecondsPerDay && 0 <= s2 < SecondsPerDay
    requires d1 * SecondsPerDay + s1 == total && d2 * SecondsPerDay + s2 == total
    ensures d1 == d2 && s1 == s2
  {
  }

  /** `timedelta(...).seconds` for the duration fields of a slot's value
      object: the fields are looked up first, then converted, then
      normalised. */
  function DurationValue(v: Json): (r: Result<Json, SlotError>)
    requires v.JObject?
  {
    match Lookup(v, DurationFields)
    case Err(e) => Err(e)
    case Ok(args) =>
      var w, d, h, m, s := AsInteger(args[0]), AsInteger(args[1]), AsInteger(args[2]),
                           AsInteger(args[3]), AsInteger(args[4]);
      if w.None? || d.None? || h.None? || m.None? || s.None? then Err(NotANumber)
      else match MakeTimedelta(w.value, d.value, h.value, m.value, s.value)
        case Err(e) => Err(e)
        case Ok(delta) => Ok(JInt(delta.seconds))
  }

  /** `resolve_slot_values(slot)`. */
  function ResolveSlotValue(slot: Json): Result<Json, SlotError>
    requires ValidSlot(slot)
  {
    match ReportedValue(slot)
    case Err(e) => Err(e)
    case Ok(v) => if IsDuration(slot) then DurationValue(Field(slot, "value")) else Ok(v)
  }

  /** The integer an object holds at `key`, as `timedelta` would read it. */
  predicate HoldsInteger(v: Json, key: string, n: int)
  {
    Has(v, key) && AsInteger(Field(v, key)) == Some(n)
  }

  /** A duration slot resolves to the seconds within the day of its total,
      whatever its `value` entry says: whole days are dropped. */
  lemma DurationIsSecondsWithinDay(slot: Json, weeks: int, days: int, hours: int, minutes: int, seconds: int)
    requires ValidSlot(slot) && IsDuration(slot) && ReportedValue(slot).Ok?
    requires var v := Field(slot, "value");
             && HoldsInteger(v, "weeks", weeks) && HoldsInteger(v, "days", days)
             && HoldsInteger(v, "hours", hours) && HoldsInteger(v, "minutes", minutes)
             && HoldsInteger(v, "seconds", seconds)
    requires -MaxDays <= TotalSeconds(weeks, days, hours, minutes, seconds) / SecondsPerDay <= MaxDays
    ensures ResolveSlotValue(slot) == Ok(JInt(TotalSeconds(weeks, days, hours, minutes, seconds) % SecondsPerDay))
    ensures 0 <= TotalSeconds(weeks, days, hours, minutes, seconds) % SecondsPerDay < SecondsPerDay
  {
  }

  /** A duration slot whose value object lacks one of the five fields raises
      `KeyError` for the first missing one, in keyword order; one whose
      fields are all present but not all integers raises `TypeError`. */
  lemma DurationFieldErrors(slot: Json)
    requires ValidSlot(slot) && IsDuration(slot) && ReportedValue(slot).Ok?
    ensures var v := Field(slot, "value");
            (exists i :: 0 <= i < |DurationFields| && !Has(v, DurationFields[i])) ==>
              exists i :: && 0 <= i < |DurationFields|
                          && ResolveSlotValue(slot) == Err(KeyMissing(DurationFields[i]))
                          && !Has(v, DurationFields[i])
                          && forall j :: 0 <= j < i ==> Has(v, DurationFields[j])
    ensures var v := Field(slot, "value");
            (forall i :: 0 <= i < |DurationFields| ==> Has(v, DurationFields[i])) &&
            (exists i :: 0 <= i < |DurationFields| && AsInteger(Field(v, DurationFields[i])).None?) ==>
              ResolveSlotValue(slot) == Err(NotANumber)
  {
    var v := Field(slot, "value");
    if Lookup(v, DurationFields).Err? {
      LookupFirstMissing(v, DurationFields);
    }
  }

  /** A duration slot with neither `value.value` nor a top-level `rawValue`
      raises `KeyError` for `rawValue` before its duration is read. */
  lemma DurationWithoutValueRaises(slot: Json)
    requires ValidSlot(slot) && IsDuration(slot)
    requires !Has(Field(slot, "value"), "value") && !Has(slot, "rawValue")
    ensures ResolveSlotValue(slot) == Err(KeyMissing("rawValue"))
  {
  }

  /** A duration slot whose total is beyond `MaxDays` whole days raises
      `OverflowError`. */
  lemma DurationOverflowRaises(slot: Json, weeks: int, days: int, hours: int, minutes: int, seconds: int)
    requires ValidSlot(slot) && IsDuration(slot) && ReportedValue(slot).Ok?
    requires var v := Field(slot, "value");
             && HoldsInteger(v, "weeks", weeks) && HoldsInteger(v, "days", days)
             && HoldsInteger(v, "hours", hours) && HoldsInteger(v, "minutes", minutes)
             && HoldsInteger(v, "seconds", seconds)
    requires !(-MaxDays <= TotalSeconds(weeks, days, hours, minutes, seconds) / SecondsPerDay <= MaxDays)
    ensures ResolveSlotValue(slot) == Err(DaysOverflow)
  {
  }

  /** A slot that is not a duration resolves to `value.value` when present,
      else to its top-level `rawValue`, and raises `KeyError` for `rawValue`
      when it has neither. */
  lemma NonDurationValue(slot: Json)
    requires ValidSlot(slot) && !IsDuration(slot)
    ensures Has(Field(slot, "value"), "value") ==> ResolveSlotValue(slot) == Ok(Field(Field(slot, "value"), "value"))
    ensures !Has(Field(slot, "value"), "value") && Has(slot, "rawValue") ==> ResolveSlotValue(slot) == Ok(Field(slot, "rawValue"))
    ensures !Has(Field(slot, "value"), "value") && !Has(slot, "rawValue") ==> ResolveSlotValue(slot) == Err(KeyMissing("rawValue"))
  {
  }

  /** Whatever a duration slot resolves to, it is a number of seconds in `[0, 86400)`. */
  lemma DurationInRange(slot: Json)
    requires ValidSlot(slot) && IsDuration(slot) && ResolveSlotValue(slot).Ok?
    ensures ResolveSlotValue(slot).value.JInt?
    ensures 0 <= ResolveSlotValue(slot).value.i < SecondsPerDay
  {
  }

  /** Adding whole days to a duration does not change what it resolves to. */
  lemma DurationDropsDays(weeks: int, days: int, hours: int, minutes: int, seconds: int, k: int)
    requires MakeTimedelta(weeks, days, hours, minutes, seconds).Ok?
    requires MakeTimedelta(weeks, days + k, hours, minutes, seconds).Ok?
    ensures MakeTimedelta(weeks, days + k, hours, minutes, seconds).value.seconds
              == MakeTimedelta(weeks, days, hours, minutes, seconds).value.seconds
  {
  }

  /** `{'value': v}`, the entry the handler stores per slot name. */
  function Entry(v: Json): Json
  {
    JObject(map["value" := v])
  }

  /** The slot map after the loop over `slots`: each slot in turn sets
      `slots[slotName] = {'value': resolve_slot_values(slot)}`, and the first
      slot that fails to resolve ends the loop with its error. */
  function SlotMap(slots: seq<Json>): (r: Result<map<string, Json>, SlotError>)
    requires forall i :: 0 <= i < |slots| ==> ValidSlot(slots[i])
    decreases |slots|
  {
    if |slots| == 0 then Ok(map[])
    else
      var last := slots[|slots| - 1];
      match SlotMap(slots[..|slots| - 1])
      case Err(e) => Err(e)
      case Ok(m) =>
        match ResolveSlotValue(last)
        case Err(e) => Err(e)
        case Ok(v) => Ok(m[SlotName(last) := Entry(v)])
  }

  /** The loop completes exactly when every slot resolves. */
  lemma {:induction false} SlotMapOkIff(slots: seq<Json>)
    requires forall i :: 0 <= i < |slots| ==> ValidSlot(slots[i])
    ensures SlotMap(slots).Ok? <==> forall i :: 0 <= i < |slots| ==> ResolveSlotValue(slots[i]).Ok?
    decreases |slots|
  {
    if |slots| > 0 {
      var init := slots[..|slots| - 1];
      SlotMapOkIff(init);
      assert forall i :: 0 <= i < |init| ==> init[i] == slots[i];
    }
  }

  /** When the loop fails, it fails with the error of the first slot that
      does not resolve. */
  lemma {:induction false} SlotMapFirstError(slots: seq<Json>)
    requires forall i :: 0 <= i < |slots| ==> ValidSlot(slots[i])
    requires SlotMap(slots).Err?
    ensures exists i :: && 0 <= i < |slots|
                        && ResolveSlotValue(slots[i]) == Err(SlotMap(slots).error)
                        && forall j :: 0 <= j < i ==> ResolveSlotValue(slots[j]).Ok?
    decreases |slots|
  {
    var init := slots[..|slots| - 1];
    assert forall i :: 0 <= i < |init| ==> init[i] == slots[i];
    if SlotMap(init).Err? {
      SlotMapFirstError(init);
      var i :| && 0 <= i < |init|
               && ResolveSlotValue(init[i]) == Err(SlotMap(init).error)
               && forall j :: 0 <= j < i ==> ResolveSlotValue(init[j]).Ok?;
      assert ResolveSlotValue(slots[i]) == Err(SlotMap(slots).error);
    } else {
      SlotMapOkIff(init);
      assert ResolveSlotValue(slots[|slots| - 1]) == Err(SlotMap(slots).error);
    }
  }

  /** The names of a list of slots are those of all but the last, and the last one's. */
  lemma SlotNamesOfPrefix(slots: seq<Json>)
    requires |slots| > 0 && forall i :: 0 <= i < |slots| ==> ValidSlot(slots[i])
    ensures var init := slots[..|slots| - 1];
            (set i | 0 <= i < |slots| :: SlotName(slots[i]))
              == (set i | 0 <= i < |init| :: SlotName(init[i])) + {SlotName(slots[|slots| - 1])}
  {
  }

  /** The keys of the slot map are the names of the slots. */
  lemma {:induction false} SlotMapKeys(slots: seq<Json>)
    requires forall i :: 0 <= i < |slots| ==> ValidSlot(slots[i])
    requires SlotMap(slots).Ok?
    ensures SlotMap(slots).value.Keys == set i | 0 <= i < |slots| :: SlotName(slots[i])
    decreases |slots|
  {
    if |slots| > 0 {
      var init := slots[..|slots| - 1];
      assert forall i :: 0 <= i < |init| ==> init[i] == slots[i];
      SlotMapKeys(init);
      SlotNamesOfPrefix(slots);
    }
  }

  /** Each name maps to the entry of the last slot that carries it. */
  lemma {:induction false} SlotMapLastWins(slots: seq<Json>, i: int)
    requires forall k :: 0 <= k < |slots| ==> ValidSlot(slots[k])
    requires SlotMap(slots).Ok? && 0 <= i < |slots|
    requires forall j :: i < j < |slots| ==> SlotName(slots[j]) != SlotName(slots[i])
    ensures ResolveSlotValue(slots[i]).Ok? && SlotName(slots[i]) in SlotMap(slots).value
    ensures SlotMap(slots).value[SlotName(slots[i])] == Entry(ResolveSlotValue(slots[i]).value)
    decreases |slots|
  {
    SlotMapOkIff(slots);
    var init := slots[..|slots| - 1];
    assert forall k :: 0 <= k < |init| ==> init[k] == slots[k];
    if i < |slots| - 1 {
      SlotMapLastWins(init, i);
    }
  }

  /** Once a prefix of the slots fails to resolve, so does the whole loop,
      with the same error. */
  lemma {:induction false} SlotMapErrorPersists(slots: seq<Json>, k: nat)
    requires forall i :: 0 <= i < |slots| ==> ValidSlot(slots[i])
    requires k <= |slots| && SlotMap(slots[..k]).Err?
    ensures SlotMap(slots) == SlotMap(slots[..k])
    decreases |slots| - k
  {
    if k < |slots| {
      var next := slots[..k + 1];
      assert next[..k] == slots[..k];
      assert SlotMap(next) == SlotMap(slots[..k]);
      SlotMapErrorPersists(slots, k + 1);
    } else {
      assert slots[..k] == slots;
    }
  }
}
