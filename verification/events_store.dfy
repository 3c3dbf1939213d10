/**
 The Pinia store `events` of src/stores/events.ts: an ordered list of
 calendar events, five modal-visibility flags and the selected event, with
 every action written as a pure function from the old store to the new one.
 */
module EventsStore {
  import opened Wrappers
  import opened JsValues

  /** A calendar event as a plain JavaScript object: field name to value.
      Every field the store does not inspect is opaque to it. */
  datatype CalendarEvent = CalendarEvent(fields: map<string, Value>)
  {
    /** Property read `event.name`; a missing property reads as `undefined`. */
    function Get(name: string): Value {
      if name in fields then fields[name] else Undefined
    }

    /** `event.id === id` with a string `id`: strict equality, so a numeric
        or missing id never matches. */
    predicate HasId(id: string) {
      Get("id") == Str(id)
    }

    /** The shallow merge `{ ...this, ...patch }`. */
    function Merge(patch: map<string, Value>): (r: CalendarEvent)
      ensures r.fields.Keys == fields.Keys + patch.Keys
      ensures forall f :: f in patch ==> r.Get(f) == patch[f]
      ensures forall f :: f !in patch ==> r.Get(f) == Get(f)
    {
      CalendarEvent(fields + patch)
    }
  }

  /** What the id test means: a match holds an id field whose string form is
      the id, and an event whose id is missing, numeric or any other
      non-string value never matches. */
  lemma HasIdMeans(e: CalendarEvent, id: string)
    ensures e.HasId(id) ==> "id" in e.fields && JsString(e.fields["id"]) == id
    ensures "id" !in e.fields || !e.fields["id"].Str? ==> !e.HasId(id)
  {
  }

  datatype Store = Store(
    events: seq<CalendarEvent>,
    eventViewOpen: bool,
    eventAddOpen: bool,
    eventEditOpen: bool,
    eventDeleteOpen: bool,
    availabilityCheckerEventAddOpen: bool,
    selectedEvent: Option<CalendarEvent>)

  /** The five visibility flags, named so that a setter's frame can be stated
      once for all of them. */
  datatype Flag = EventView | EventAdd | EventEdit | EventDelete | AvailabilityCheckerEventAdd

  function FlagValue(s: Store, f: Flag): bool {
    match f
    case EventView => s.eventViewOpen
    case EventAdd => s.eventAddOpen
    case EventEdit => s.eventEditOpen
    case EventDelete => s.eventDeleteOpen
    case AvailabilityCheckerEventAdd => s.availabilityCheckerEventAddOpen
  }

  /** The setter for flag `f` stored `v` in `f` and touched nothing else. */
  predicate SetOnly(s: Store, r: Store, f: Flag, v: bool) {
    && FlagValue(r, f) == v
    && (forall g :: g != f ==> FlagValue(r, g) == FlagValue(s, g))
    && r.events == s.events
    && r.selectedEvent == s.selectedEvent
  }

  // ---------------------------------------------------------------------
  // Seeding

  /** One seeded event: `{ ...event, id: String(event.id), color: event.backgroundColor }`. */
  function SeedEvent(e: CalendarEvent): (r: CalendarEvent)
    ensures r.Get("id") == Str(JsString(e.Get("id")))
    ensures r.Get("color") == e.Get("backgroundColor")
    ensures forall f :: f != "id" && f != "color" ==> r.Get(f) == e.Get(f)
    ensures r.fields.Keys == e.fields.Keys + {"id", "color"}
  {
    CalendarEvent(e.fields["id" := Str(JsString(e.Get("id")))]["color" := e.Get("backgroundColor")])
  }

  /** `initialEvents.map(...)`: the seed list, converted element by element. */
  function Seed(initialEvents: seq<CalendarEvent>): (r: seq<CalendarEvent>)
    ensures |r| == |initialEvents|
    ensures forall k :: 0 <= k < |r| ==> r[k] == SeedEvent(initialEvents[k])
  {
    seq(|initialEvents|, k requires 0 <= k < |initialEvents| => SeedEvent(initialEvents[k]))
  }

  /** The store as created: seeded events, every flag closed, nothing selected. */
  function InitialStore(initialEvents: seq<CalendarEvent>): (r: Store)
    ensures r.events == Seed(initialEvents)
    ensures |r.events| == |initialEvents|
    ensures forall k :: 0 <= k < |r.events| ==>
      r.events[k].Get("id") == Str(JsString(initialEvents[k].Get("id")))
      && r.events[k].Get("color") == initialEvents[k].Get("backgroundColor")
    ensures forall f :: !FlagValue(r, f)
    ensures r.selectedEvent == None
  {
    Store(Seed(initialEvents), false, false, false, false, false, None)
  }

  // ---------------------------------------------------------------------
  // Lookup

  /** No event in the list has the id. */
  predicate NoMatch(events: seq<CalendarEvent>, id: string) {
    forall k :: 0 <= k < |events| ==> !events[k].HasId(id)
  }

  /** Index `i` holds the first event with the id. */
  predicate FirstMatch(events: seq<CalendarEvent>, id: string, i: int) {
    && 0 <= i < |events|
    && events[i].HasId(id)
    && forall k :: 0 <= k < i ==> !events[k].HasId(id)
  }

  /** `events.findIndex((event) => event.id === id)`: the first matching
      index, or -1 when no event matches. */
  function FindIndex(events: seq<CalendarEvent>, id: string): (r: int)
    ensures -1 <= r < |events|
    ensures r == -1 <==> NoMatch(events, id)
    ensures r >= 0 ==> FirstMatch(events, id, r)
  {
    if |events| == 0 then -1
    else if events[0].HasId(id) then 0
    else
      var i := FindIndex(events[1..], id);
      assert forall k :: 1 <= k < |events| ==> events[k] == events[1..][k - 1];
      if i == -1 then -1 else i + 1
  }

  /** There is at most one first match, so it is the one `FindIndex` finds. */
  lemma FirstMatchIsFound(events: seq<CalendarEvent>, id: string)
    ensures forall i :: FirstMatch(events, id, i) ==> i == FindIndex(events, id)
  {
  }

  // ---------------------------------------------------------------------
  // Actions

  /** `addEvent`: push at the end, without any check on the id. */
  function AddEvent(s: Store, e: CalendarEvent): (r: Store)
    ensures |r.events| == |s.events| + 1
    ensures r.events[|s.events|] == e
    ensures r.events[..|s.events|] == s.events
    ensures r.(events := s.events) == s
  {
    s.(events := s.events + [e])
  }

  /** `deleteEvent`: splice out the first event whose id matches, if any. */
  function DeleteEvent(s: Store, id: string): (r: Store)
    ensures r.(events := s.events) == s
    ensures NoMatch(s.events, id) ==> r.events == s.events
    ensures forall i :: FirstMatch(s.events, id, i) ==>
      && |r.events| == |s.events| - 1
      && r.events[..i] == s.events[..i]
      && r.events[i..] == s.events[i + 1..]
  {
    FirstMatchIsFound(s.events, id);
    var index := FindIndex(s.events, id);
    if index > -1 then s.(events := s.events[..index] + s.events[index + 1..])
    else s
  }

  /** `updateEvent`: replace the first event whose id matches by its shallow
      merge with `patch`, if any. */
  function UpdateEvent(s: Store, id: string, patch: map<string, Value>): (r: Store)
    ensures r.(events := s.events) == s
    ensures |r.events| == |s.events|
    ensures NoMatch(s.events, id) ==> r.events == s.events
    ensures forall i :: FirstMatch(s.events, id, i) ==>
      && r.events[i].fields.Keys == s.events[i].fields.Keys + patch.Keys
      && (forall f :: f in patch ==> r.events[i].Get(f) == patch[f])
      && (forall f :: f !in patch ==> r.events[i].Get(f) == s.events[i].Get(f))
      && (forall k :: 0 <= k < |s.events| && k != i ==> r.events[k] == s.events[k])
  {
    FirstMatchIsFound(s.events, id);
    var index := FindIndex(s.events, id);
    if index > -1 then s.(events := s.events[index := s.events[index].Merge(patch)])
    else s
  }

  function SetEventViewOpen(s: Store, value: bool): (r: Store)
    ensures SetOnly(s, r, EventView, value)
  {
    s.(eventViewOpen := value)
  }

  function SetEventAddOpen(s: Store, value: bool): (r: Store)
    ensures SetOnly(s, r, EventAdd, value)
  {
    s.(eventAddOpen := value)
  }

  function SetEventEditOpen(s: Store, value: bool): (r: Store)
    ensures SetOnly(s, r, EventEdit, value)
  {
    s.(eventEditOpen := value)
  }

  function SetEventDeleteOpen(s: Store, value: bool): (r: Store)
    ensures SetOnly(s, r, EventDelete, value)
  {
    s.(eventDeleteOpen := value)
  }

  function SetAvailabilityCheckerEventAddOpen(s: Store, value: bool): (r: Store)
    ensures SetOnly(s, r, AvailabilityCheckerEventAdd, value)
  {
    s.(availabilityCheckerEventAddOpen := value)
  }

  /** `setSelectedEvent`: no check that the event is in the list. */
  function SetSelectedEvent(s: Store, e: Option<CalendarEvent>): (r: Store)
    ensures r.selectedEvent == e
    ensures r.events == s.events
    ensures forall f :: FlagValue(r, f) == FlagValue(s, f)
  {
    s.(selectedEvent := e)
  }
}
