/** The event registry: check functions registered per red-dot key and their removal by id or
    by target (RedDotSystem.ts lines 208-346). */
module EventRegistry {
  import opened Outcomes
  import opened OrderedMaps
  import opened RedDotModel

  /** The events registered under `key`; none when the key has no list. */
  function Listed(events: OMap<Key, seq<Event>>, key: Key): seq<Event> {
    if key in events.vals then events.vals[key] else []
  }

  /** Some event of the list applies `func` to `target` (the `find` of lines 224-226). */
  predicate Registered(es: seq<Event>, func: Func, target: Target) {
    exists i | 0 <= i < |es| :: es[i].func == func && es[i].target == target
  }

  /** No list holds two events applying the same function to the same target. */
  ghost predicate ChecksDistinct(events: map<Key, seq<Event>>) {
    forall k, i, j | k in events && 0 <= i < j < |events[k]| ::
      events[k][i].func != events[k][j].func || events[k][i].target != events[k][j].target
  }

  /** `id` is the id of no registered event. */
  ghost predicate UnusedId(events: map<Key, seq<Event>>, id: EventId) {
    forall k, i | k in events && 0 <= i < |events[k]| :: events[k][i].id != id
  }

  /** The lists under `ks` each replaced by `f` of themselves, in place; the other lists and
      the iteration order stay. */
  function UpdateLists(events: OMap<Key, seq<Event>>, ks: seq<Key>, f: seq<Event> -> seq<Event>): (r: OMap<Key, seq<Event>>)
    requires Valid(events) && forall k | k in ks :: k in events.vals
    ensures Valid(r) && r.keys == events.keys && r.vals.Keys == events.vals.Keys
    ensures forall k | k in events.vals :: r.vals[k] == if k in ks then f(events.vals[k]) else events.vals[k]
  {
    if ks == [] then events
    else
      var k := ks[|ks| - 1];
      var rest := UpdateLists(events, ks[..|ks| - 1], f);
      if k in ks[..|ks| - 1] then rest
      else Put(rest, k, f(events.vals[k]))
  }

  // ---------------------------------------------------------------- RegisterEvent

  /** `RegisterEvent(key, func, target)` (lines 209-239). A missing function (`None`) and an
      event already registered for the same function and target are refused with `null`;
      otherwise a new event with the id `newId` (the value `nanoid()` returns) is appended to
      the key's list, which is created, last in the iteration order, when absent. */
  function RegisterEvent(sys: System, key: Key, func: Option<Func>, target: Target, newId: EventId): (r: Reply<Option<EventId>>)
    requires Valid(sys.events)
    ensures r.value.Some? <==> func.Some? && !Registered(Listed(sys.events, key), func.value, target)
    ensures r.value.None? ==> r.sys == sys
    ensures r.value.Some? ==> r.value.value == newId
    ensures r.value.Some? ==>
      && r.sys.nodes == sys.nodes && r.sys.pool == sys.pool
      && Valid(r.sys.events)
      && r.sys.events.keys == (if key in sys.events.vals then sys.events.keys else sys.events.keys + [key])
      && r.sys.events.vals == sys.events.vals[key := Listed(sys.events, key) + [Event(func.value, target, newId)]]
  {
    if func.None? then Reply(None, sys)
    else if Registered(Listed(sys.events, key), func.value, target) then Reply(None, sys)
    else
      var es := Listed(sys.events, key) + [Event(func.value, target, newId)];
      Reply(Some(newId), sys.(events := Put(sys.events, key, es)))
  }

  /** Registration never creates a second event for the same function and target. */
  lemma RegisterEventDistinct(sys: System, key: Key, func: Option<Func>, target: Target, newId: EventId)
    requires Valid(sys.events) && ChecksDistinct(sys.events.vals)
    ensures ChecksDistinct(RegisterEvent(sys, key, func, target, newId).sys.events.vals)
  {
    var r := RegisterEvent(sys, key, func, target, newId);
    if r.value.Some? {
      var es := Listed(sys.events, key);
      var es' := r.sys.events.vals[key];
      forall i, j | 0 <= i < j < |es'| ensures es'[i].func != es'[j].func || es'[i].target != es'[j].target {
        if j == |es| {
          assert es'[i] == es[i];
        } else {
          assert es'[i] == es[i] && es'[j] == es[j];
        }
      }
    }
  }

  /** Registration keeps the engine invariant. */
  lemma RegisterEventWf(sys: System, key: Key, func: Option<Func>, target: Target, newId: EventId)
    requires Wf(sys)
    ensures Wf(RegisterEvent(sys, key, func, target, newId).sys)
  {
    var r := RegisterEvent(sys, key, func, target, newId);
    if r.value.Some? {
      assert AllBadges(r.sys) == AllBadges(sys);
    }
  }

  // ---------------------------------------------------------------- UnRegisterEvent

  /** `findIndex` of the event with id `id` (lines 255-257 and 274-276). */
  function FindId(es: seq<Event>, id: EventId): (r: Option<nat>)
    ensures r.Some? ==> r.value < |es| && es[r.value].id == id
    ensures r.Some? ==> forall j | 0 <= j < r.value :: es[j].id != id
    ensures r.None? ==> forall j | 0 <= j < |es| :: es[j].id != id
  {
    if es == [] then None
    else if es[0].id == id then Some(0)
    else match FindId(es[1..], id) case Some(i) => Some(i + 1) case None => None
  }

  /** `splice(idx, 1)` of the first event with the id, when there is one. */
  function RemoveId(es: seq<Event>, id: EventId): (r: seq<Event>)
    ensures FindId(es, id).None? ==> r == es
    ensures FindId(es, id).Some? ==> var i := FindId(es, id).value; r == es[..i] + es[i + 1..]
  {
    match FindId(es, id)
    case None => es
    case Some(i) => es[..i] + es[i + 1..]
  }

  /** `UnRegisterEvent(id, key)` as written (lines 246-289). With a key, the key's list loses
      its first event with the id and the answer is true whenever the list exists, found or
      not. Without a key (`null` or `undefined`) only the FIRST list in iteration order is
      searched: the `return true` at line 265 sits inside the loop. */
  function UnRegisterEvent(sys: System, id: EventId, key: Option<Key>): (r: Reply<bool>)
    requires Valid(sys.events)
    ensures key.Some? ==> (r.value <==> key.value in sys.events.vals)
    ensures key.None? ==> (r.value <==> sys.events.keys != [])
    ensures !r.value ==> r.sys == sys
    ensures r.value ==>
      var k := if key.Some? then key.value else sys.events.keys[0];
      && k in sys.events.vals
      && r.sys == sys.(events := Put(sys.events, k, RemoveId(sys.events.vals[k], id)))
  {
    if key.Some? then
      if key.value !in sys.events.vals then Reply(false, sys)
      else Reply(true, sys.(events := Put(sys.events, key.value, RemoveId(sys.events.vals[key.value], id))))
    else if sys.events.keys == [] then Reply(false, sys)
    else
      var k := sys.events.keys[0];
      Reply(true, sys.(events := Put(sys.events, k, RemoveId(sys.events.vals[k], id))))
  }

  /** Registering an event and unregistering it by its id under its key restores the registry,
      except that a list created for the registration stays behind, empty. */
  lemma RegisterThenUnregister(sys: System, key: Key, func: Func, target: Target, newId: EventId)
    requires Valid(sys.events) && UnusedId(sys.events.vals, newId)
    requires RegisterEvent(sys, key, Some(func), target, newId).value.Some?
    ensures var s1 := RegisterEvent(sys, key, Some(func), target, newId).sys;
      var r := UnRegisterEvent(s1, newId, Some(key));
      && r.value
      && r.sys.nodes == sys.nodes && r.sys.pool == sys.pool
      && r.sys.events == (if key in sys.events.vals then sys.events else Put(sys.events, key, []))
  {
    var es := Listed(sys.events, key);
    var s1 := RegisterEvent(sys, key, Some(func), target, newId).sys;
    var es' := es + [Event(func, target, newId)];
    assert s1.events.vals[key] == es';
    assert forall j | 0 <= j < |es| :: es'[j].id != newId by {
      forall j | 0 <= j < |es| ensures es'[j].id != newId {
        assert es'[j] == sys.events.vals[key][j];
      }
    }
    assert es'[|es|].id == newId;
    assert FindId(es', newId) == Some(|es|);
    assert RemoveId(es', newId) == es;
    if key in sys.events.vals {
      assert s1.events.vals[key := es] == sys.events.vals;
    }
  }

  /** Removing an event by id keeps the engine invariant. */
  lemma UnRegisterEventWf(sys: System, id: EventId, key: Option<Key>)
    requires Wf(sys)
    ensures Wf(UnRegisterEvent(sys, id, key).sys)
  {
    assert AllBadges(UnRegisterEvent(sys, id, key).sys) == AllBadges(sys);
  }

  /** `UnRegisterEvent` without a key as evidently intended by its documentation: every list is
      searched, and each loses its first event with the id. */
  function UnRegisterEventIntended(sys: System, id: EventId, key: Option<Key>): (r: Reply<bool>)
    requires Valid(sys.events)
    ensures key.Some? ==> r == UnRegisterEvent(sys, id, key)
    ensures key.None? ==> (r.value <==> sys.events.keys != [])
    ensures key.None? ==> r.sys.nodes == sys.nodes && r.sys.pool == sys.pool
    ensures key.None? ==> r.sys.events.keys == sys.events.keys && r.sys.events.vals.Keys == sys.events.vals.Keys
    ensures key.None? ==> forall k | k in sys.events.vals :: r.sys.events.vals[k] == RemoveId(sys.events.vals[k], id)
  {
    if key.Some? then UnRegisterEvent(sys, id, key)
    else Reply(sys.events.keys != [], sys.(events := UpdateLists(sys.events, sys.events.keys, es => RemoveId(es, id))))
  }

  /** With ids unique, the intended removal leaves no event with the id anywhere. */
  lemma IntendedRemovesEverywhere(sys: System, id: EventId)
    requires Valid(sys.events)
    requires forall k, i, j | k in sys.events.vals && 0 <= i < j < |sys.events.vals[k]| ::
      sys.events.vals[k][i].id != id || sys.events.vals[k][j].id != id
    ensures UnusedId(UnRegisterEventIntended(sys, id, None).sys.events.vals, id)
  {
    var r: map<Key, seq<Event>> := UnRegisterEventIntended(sys, id, None).sys.events.vals;
    forall k: Key | k in r
      ensures forall i | 0 <= i < |r[k]| :: r[k][i].id != id
    {
      RemoveIdUnique(sys.events.vals[k], id);
    }
  }

  /** Removing the only event with the id leaves none. */
  lemma RemoveIdUnique(es: seq<Event>, id: EventId)
    requires forall i, j | 0 <= i < j < |es| :: es[i].id != id || es[j].id != id
    ensures forall i | 0 <= i < |RemoveId(es, id)| :: RemoveId(es, id)[i].id != id
  {
    var r := RemoveId(es, id);
    match FindId(es, id)
    case None =>
    case Some(f) =>
      forall i | 0 <= i < |r| ensures r[i].id != id {
        if i < f {
          assert r[i] == es[i];
        } else {
          assert r[i] == es[i + 1];
        }
      }
  }

  /** An event registered under the second key survives an unkeyed `UnRegisterEvent` as
      written, while the intended version removes it. */
  lemma UnRegisterEventMissesLaterLists(nodes: OMap<Key, Node>, pool: Pool, e: Event)
    ensures var sys := System(nodes, OMap(["a", "b"], map["a" := [], "b" := [e]]), pool);
      && UnRegisterEvent(sys, e.id, None) == Reply(true, sys)
      && UnRegisterEventIntended(sys, e.id, None).sys.events.vals["b"] == []
  {
    var sys := System(nodes, OMap(["a", "b"], map["a" := [], "b" := [e]]), pool);
    assert Valid(sys.events);
    assert sys.events.vals["a" := []] == sys.events.vals;
    assert FindId([e], e.id) == Some(0);
  }

  // ---------------------------------------------------------------- UnRegisterEventByTarget

  /** The keys the by-target removal visits: the given key, or every key in iteration order. */
  function Scope(events: OMap<Key, seq<Event>>, key: Option<Key>): seq<Key> {
    if key.Some? then (if key.value in events.vals then [key.value] else []) else events.keys
  }

  /** Some list in the scope has an event. */
  predicate AnyListed(events: OMap<Key, seq<Event>>, ks: seq<Key>) {
    exists i | 0 <= i < |ks| :: ks[i] in events.vals && events.vals[ks[i]] != []
  }

  /** `UnRegisterEventByTarget(target, key)` as written (lines 297-346). The loops of lines 308
      and 330 start at `i = eventList.length`, so the first element read is `undefined` and
      `rdEvent.target` throws on every non-empty list; an empty list is skipped. The call thus
      either throws or answers false, and never removes an event. */
  function UnRegisterEventByTarget(sys: System, target: Target, key: Option<Key>): (r: Result<Reply<bool>>)
    requires Valid(sys.events)
    ensures r.Err? <==> AnyListed(sys.events, Scope(sys.events, key))
    ensures r.Err? ==> r.error == TypeError
    ensures r.Ok? ==> r.value == Reply(false, sys)
  {
    if AnyListed(sys.events, Scope(sys.events, key)) then Err(TypeError) else Ok(Reply(false, sys))
  }

  /** The events of a list not bound to `target`, in order (the intended loop). */
  function DropTarget(es: seq<Event>, target: Target): (r: seq<Event>)
    ensures forall e :: e in r <==> e in es && e.target != target
    ensures |r| <= |es|
    ensures |r| == |es| <==> forall i | 0 <= i < |es| :: es[i].target != target
  {
    if es == [] then []
    else if es[|es| - 1].target == target then DropTarget(es[..|es| - 1], target)
    else DropTarget(es[..|es| - 1], target) + [es[|es| - 1]]
  }

  /** Dropping distributes over concatenation, so the events kept stay in their order. */
  lemma {:induction false} DropTargetConcat(a: seq<Event>, b: seq<Event>, target: Target)
    ensures DropTarget(a + b, target) == DropTarget(a, target) + DropTarget(b, target)
    decreases |b|
  {
    if b != [] {
      var n := |b| - 1;
      assert (a + b)[..|a + b| - 1] == a + b[..n];
      assert (a + b)[|a + b| - 1] == b[n];
      DropTargetConcat(a, b[..n], target);
      if b[n].target == target {
        assert DropTarget(b, target) == DropTarget(b[..n], target);
      } else {
        assert DropTarget(b, target) == DropTarget(b[..n], target) + [b[n]];
      }
    } else {
      assert a + b == a;
    }
  }

  /** A list with no event bound to the target is left as it is. */
  lemma {:induction false} DropTargetNone(es: seq<Event>, target: Target)
    requires forall i | 0 <= i < |es| :: es[i].target != target
    ensures DropTarget(es, target) == es
  {
    if es != [] {
      var init, last := es[..|es| - 1], es[|es| - 1];
      assert forall i | 0 <= i < |init| :: init[i] == es[i];
      DropTargetNone(init, target);
      assert last.target != target;
      assert init + [last] == es;
    }
  }

  /** `UnRegisterEventByTarget` as evidently intended: every event bound to the target is
      removed from the lists in scope, and the answer says whether any was. */
  function UnRegisterEventByTargetIntended(sys: System, target: Target, key: Option<Key>): (r: Reply<bool>)
    requires Valid(sys.events)
    ensures r.value <==> exists k, i | k in Scope(sys.events, key) && k in sys.events.vals && 0 <= i < |sys.events.vals[k]| ::
      sys.events.vals[k][i].target == target
    ensures r.sys.nodes == sys.nodes && r.sys.pool == sys.pool
    ensures Valid(r.sys.events) && r.sys.events.keys == sys.events.keys && r.sys.events.vals.Keys == sys.events.vals.Keys
    ensures forall k | k in sys.events.vals ::
      r.sys.events.vals[k] == if k in Scope(sys.events, key) then DropTarget(sys.events.vals[k], target) else sys.events.vals[k]
  {
    var ks := Scope(sys.events, key);
    var dropped := UpdateLists(sys.events, ks, es => DropTarget(es, target));
    var any := exists k, i | k in ks && k in sys.events.vals && 0 <= i < |sys.events.vals[k]| :: sys.events.vals[k][i].target == target;
    Reply(any, sys.(events := dropped))
  }

  /** After the intended removal no event in scope is bound to the target. */
  lemma IntendedDropsTarget(sys: System, target: Target, key: Option<Key>)
    requires Valid(sys.events)
    ensures var r := UnRegisterEventByTargetIntended(sys, target, key).sys.events;
      forall k, i | k in Scope(sys.events, key) && k in r.vals && 0 <= i < |r.vals[k]| :: r.vals[k][i].target != target
  {
    var r := UnRegisterEventByTargetIntended(sys, target, key).sys.events;
    forall k, i | k in Scope(sys.events, key) && k in r.vals && 0 <= i < |r.vals[k]|
      ensures r.vals[k][i].target != target
    {
      assert r.vals[k][i] in DropTarget(sys.events.vals[k], target);
    }
  }

  /** One event bound to a target, under a key: as written the call throws, while the intended
      version removes the event and answers true. */
  lemma UnRegisterEventByTargetThrows(nodes: OMap<Key, Node>, pool: Pool, k: Key, e: Event)
    ensures var sys := System(nodes, OMap([k], map[k := [e]]), pool);
      && UnRegisterEventByTarget(sys, e.target, Some(k)) == Err(TypeError)
      && UnRegisterEventByTarget(sys, e.target, None) == Err(TypeError)
      && UnRegisterEventByTargetIntended(sys, e.target, Some(k)).value
      && UnRegisterEventByTargetIntended(sys, e.target, Some(k)).sys.events.vals[k] == []
  {
    var sys := System(nodes, OMap([k], map[k := [e]]), pool);
    assert Valid(sys.events);
    assert sys.events.vals[k][0].target == e.target;
    assert AnyListed(sys.events, [k]);
  }

  /** Registering a check and removing its target with the intended version leaves no event for
      the target under the key, and reports the removal. */
  lemma RegisterThenDropTarget(sys: System, key: Key, func: Func, target: Target, newId: EventId)
    requires Valid(sys.events) && RegisterEvent(sys, key, Some(func), target, newId).value.Some?
    ensures var s1 := RegisterEvent(sys, key, Some(func), target, newId).sys;
      var r := UnRegisterEventByTargetIntended(s1, target, Some(key));
      && r.value
      && forall i | 0 <= i < |r.sys.events.vals[key]| :: r.sys.events.vals[key][i].target != target
  {
    var s1 := RegisterEvent(sys, key, Some(func), target, newId).sys;
    var es' := s1.events.vals[key];
    assert es'[|es'| - 1].target == target;
    IntendedDropsTarget(s1, target, Some(key));
  }

  /** Removing events by target with the intended version keeps the engine invariant. */
  lemma UnRegisterEventByTargetIntendedWf(sys: System, target: Target, key: Option<Key>)
    requires Wf(sys)
    ensures Wf(UnRegisterEventByTargetIntended(sys, target, key).sys)
  {
    assert AllBadges(UnRegisterEventByTargetIntended(sys, target, key).sys) == AllBadges(sys);
  }
}
