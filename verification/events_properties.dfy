/**
 Properties of the event store that relate several actions, or an action to
 an independent reference definition.
 */
module EventsProperties {
  import opened Wrappers
  import opened JsValues
  import opened EventsStore

  // ---------------------------------------------------------------------
  // Reference definitions: first-match removal and update, by recursion

  /** The list without its first event whose id is `id`. */
  function RemoveFirst(events: seq<CalendarEvent>, id: string): seq<CalendarEvent> {
    if |events| == 0 then []
    else if events[0].HasId(id) then events[1..]
    else [events[0]] + RemoveFirst(events[1..], id)
  }

  /** The list with its first event whose id is `id` merged with `patch`. */
  function UpdateFirst(events: seq<CalendarEvent>, id: string, patch: map<string, Value>): seq<CalendarEvent> {
    if |events| == 0 then []
    else if events[0].HasId(id) then [events[0].Merge(patch)] + events[1..]
    else [events[0]] + UpdateFirst(events[1..], id, patch)
  }

  lemma {:induction false} SpliceIsRemoveFirst(events: seq<CalendarEvent>, id: string)
    ensures var i := FindIndex(events, id);
      (if i > -1 then events[..i] + events[i + 1..] else events) == RemoveFirst(events, id)
  {
    if |events| > 0 && !events[0].HasId(id) {
      var tail := events[1..];
      SpliceIsRemoveFirst(tail, id);
      var j := FindIndex(tail, id);
      assert FindIndex(events, id) == if j == -1 then -1 else j + 1;
      assert events == [events[0]] + tail;
      if j > -1 {
        ConsSplice(events[0], tail, j);
      }
    }
  }

  lemma {:induction false} AssignIsUpdateFirst(events: seq<CalendarEvent>, id: string, patch: map<string, Value>)
    ensures var i := FindIndex(events, id);
      (if i > -1 then events[i := events[i].Merge(patch)] else events) == UpdateFirst(events, id, patch)
  {
    if |events| > 0 && !events[0].HasId(id) {
      var tail := events[1..];
      AssignIsUpdateFirst(tail, id, patch);
      var j := FindIndex(tail, id);
      assert FindIndex(events, id) == if j == -1 then -1 else j + 1;
      if j > -1 {
        assert events == [events[0]] + tail;
        ConsUpdate(events[0], tail, j, tail[j].Merge(patch));
      } else {
        assert events == [events[0]] + tail;
      }
    }
  }

  lemma ConsSplice<T>(x: T, tail: seq<T>, j: nat)
    requires j < |tail|
    ensures ([x] + tail)[..j + 1] + ([x] + tail)[j + 2..] == [x] + (tail[..j] + tail[j + 1..])
  {
  }

  lemma ConsUpdate<T>(x: T, tail: seq<T>, j: nat, m: T)
    requires j < |tail|
    ensures ([x] + tail)[j + 1 := m] == [x] + tail[j := m]
  {
  }

  /** `deleteEvent` removes exactly the first matching event. */
  lemma DeleteIsRemoveFirst(s: Store, id: string)
    ensures DeleteEvent(s, id).events == RemoveFirst(s.events, id)
  {
    SpliceIsRemoveFirst(s.events, id);
  }

  /** `updateEvent` merges into exactly the first matching event. */
  lemma UpdateIsUpdateFirst(s: Store, id: string, patch: map<string, Value>)
    ensures UpdateEvent(s, id, patch).events == UpdateFirst(s.events, id, patch)
  {
    AssignIsUpdateFirst(s.events, id, patch);
  }

  // ---------------------------------------------------------------------
  // Ids and their uniqueness

  function Ids(events: seq<CalendarEvent>): (r: seq<Value>)
    ensures |r| == |events|
    ensures forall k :: 0 <= k < |events| ==> r[k] == events[k].Get("id")
  {
    seq(|events|, k requires 0 <= k < |events| => events[k].Get("id"))
  }

  predicate IdsUnique(events: seq<CalendarEvent>) {
    forall i, j :: 0 <= i < j < |events| ==> events[i].Get("id") != events[j].Get("id")
  }

  /** A patch without an `id` field keeps the list's ids, so it keeps them unique. */
  lemma UpdateKeepsIds(s: Store, id: string, patch: map<string, Value>)
    requires "id" !in patch
    ensures Ids(UpdateEvent(s, id, patch).events) == Ids(s.events)
    ensures IdsUnique(s.events) ==> IdsUnique(UpdateEvent(s, id, patch).events)
  {
  }

  /** A patch that carries an `id` can give two events the same id. */
  lemma UpdateWithIdCanDuplicate()
    ensures var s := Store([CalendarEvent(map["id" := Str("1")]), CalendarEvent(map["id" := Str("2")])],
                           false, false, false, false, false, None);
      IdsUnique(s.events) && !IdsUnique(UpdateEvent(s, "2", map["id" := Str("1")]).events)
  {
  }

  /** `addEvent` keeps ids unique exactly when the new id is not already used. */
  lemma AddUniqueIff(s: Store, e: CalendarEvent)
    ensures IdsUnique(AddEvent(s, e).events)
        <==> IdsUnique(s.events) && forall k :: 0 <= k < |s.events| ==> s.events[k].Get("id") != e.Get("id")
  {
  }

  /** Deleting keeps ids unique. */
  lemma DeleteKeepsUnique(s: Store, id: string)
    requires IdsUnique(s.events)
    ensures IdsUnique(DeleteEvent(s, id).events)
  {
  }

  /** With unique ids, no event with the deleted id remains. */
  lemma DeleteRemovesId(s: Store, id: string)
    requires IdsUnique(s.events)
    ensures NoMatch(DeleteEvent(s, id).events, id)
  {
  }

  /** Adding an event under a fresh id and then deleting that id gives back
      the store as it was. */
  lemma AddThenDelete(s: Store, e: CalendarEvent, id: string)
    requires e.HasId(id)
    requires NoMatch(s.events, id)
    ensures DeleteEvent(AddEvent(s, e), id) == s
  {
  }

  /** With duplicate ids only the first occurrence is deleted or updated: a
      later event with the same id survives either action unchanged. */
  lemma OnlyFirstOccurrence(s: Store, id: string, patch: map<string, Value>, i: nat, j: nat)
    requires i < j < |s.events|
    requires s.events[i].HasId(id) && s.events[j].HasId(id)
    ensures DeleteEvent(s, id).events[j - 1] == s.events[j]
    ensures UpdateEvent(s, id, patch).events[j] == s.events[j]
  {
  }

  // ---------------------------------------------------------------------
  // Seeding

  /** Seeding an already seeded list changes nothing. */
  lemma {:induction false} SeedIdempotent(initialEvents: seq<CalendarEvent>)
    ensures Seed(Seed(initialEvents)) == Seed(initialEvents)
  {
    var once := Seed(initialEvents);
    forall k | 0 <= k < |once|
      ensures SeedEvent(once[k]) == once[k]
    {
      var e := once[k];
      var f := SeedEvent(e).fields;
      assert f.Keys == e.fields.Keys;
      forall n | n in f
        ensures f[n] == e.fields[n]
      {
        assert SeedEvent(e).Get(n) == f[n];
        assert e.Get(n) == e.fields[n];
        if n == "id" {
          JsStringIdempotent(initialEvents[k].Get("id"));
        }
      }
      assert f == e.fields;
    }
  }

  /** A numeric seed id `1` with background `#fff` gives the string id `"1"`
      and the colour `#fff`. */
  lemma SeedExample()
    ensures var s := InitialStore([CalendarEvent(map["id" := Int(1), "backgroundColor" := Str("#fff")])]);
      && |s.events| == 1
      && s.events[0].HasId("1")
      && s.events[0].Get("color") == Str("#fff")
  {
  }
}
