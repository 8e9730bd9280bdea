/**
 * `CueModel`: the store of a session's cues, keyed by cue id. A second cue
 * with an id already present is refused; popping an absent id is a
 * KeyError. The store's signals are kept as a ghost log of events.
 */
module CueModels {
  import opened Wrappers
  import opened Cues

  type Store = map<string, Cue>

  /** Every cue is stored under its own id, as `add` keeps it. */
  predicate Keyed(m: Store) {
    forall k | k in m :: m[k].id == k
  }

  /** A signal the store emits: `item_added`, `item_removed`, `cleared`. */
  datatype Event = ItemAdded(cue: Cue) | ItemRemoved(cue: Cue) | Cleared

  /** The store once `cue` is added: ValueError when its id is taken. */
  function AddTo(m: Store, cue: Cue): (r: Result<Store>)
    ensures r.Err? <==> cue.id in m
    ensures r.Err? ==> r.error == ValueError
    ensures r.Ok? ==>
      r.value.Keys == m.Keys + {cue.id} && r.value[cue.id] == cue && |r.value| == |m| + 1 &&
      forall k | k in m :: r.value[k] == m[k]
    ensures r.Ok? && Keyed(m) ==> Keyed(r.value)
  {
    if cue.id in m then Err(ValueError) else Ok(m[cue.id := cue])
  }

  /** The cue stored under `id` and the store without it: KeyError when `id` is absent. */
  function PopFrom(m: Store, id: string): (r: Result<(Cue, Store)>)
    ensures r.Err? <==> id !in m
    ensures r.Err? ==> r.error == KeyError
    ensures r.Ok? ==>
      id in m && r.value.0 == m[id] && r.value.1.Keys == m.Keys - {id} && |r.value.1| == |m| - 1 &&
      forall k | k in r.value.1 :: r.value.1[k] == m[k]
    ensures r.Ok? && Keyed(m) ==> Keyed(r.value.1) && r.value.0.id == id
  {
    if id in m then Ok((m[id], m - {id})) else Err(KeyError)
  }

  class CueModel {
    /** `__cues`. */
    var cues: Store
    /** The signals emitted so far, oldest first. */
    ghost var events: seq<Event>

    constructor()
      ensures cues == map[] && events == []
    {
      cues := map[];
      events := [];
    }

    /** `add(cue)`: store the cue under its id and emit `item_added`; ValueError, and no change, when the id is taken. */
    method Add(cue: Cue) returns (r: Outcome)
      modifies this
      ensures r.Fail? <==> AddTo(old(cues), cue).Err?
      ensures r.Fail? ==> r.error == ValueError && cues == old(cues) && events == old(events)
      ensures r.Pass? ==> cues == AddTo(old(cues), cue).value && events == old(events) + [ItemAdded(cue)]
      ensures r.Pass? ==> Get(cue.id, null) == cue && Len() == old(Len()) + 1
      ensures Keyed(old(cues)) ==> Keyed(cues)
    {
      if cue.id in cues {
        return Fail(ValueError);
      }
      cues := cues[cue.id := cue];
      events := events + [ItemAdded(cue)];
      r := Pass;
    }

    /** `pop(cue_id)`: remove and return the cue under `id`, emitting `item_removed`; KeyError, and no change, when absent. */
    method Pop(id: string) returns (r: Result<Cue>)
      modifies this
      ensures r.Err? <==> PopFrom(old(cues), id).Err?
      ensures r.Err? ==> r.error == KeyError && cues == old(cues) && events == old(events)
      ensures r.Ok? ==>
        var p := PopFrom(old(cues), id).value;
        r.value == p.0 && cues == p.1 && events == old(events) + [ItemRemoved(r.value)]
      ensures Keyed(old(cues)) ==> Keyed(cues) && (r.Ok? ==> r.value.id == id)
    {
      if id !in cues {
        return Err(KeyError);
      }
      var c := cues[id];
      cues := cues - {id};
      events := events + [ItemRemoved(c)];
      r := Ok(c);
    }

    /** `remove(cue)`: `pop(cue.id)`, its result dropped. */
    method Remove(cue: Cue) returns (r: Outcome)
      modifies this
      ensures r.Fail? <==> PopFrom(old(cues), cue.id).Err?
      ensures r.Fail? ==> r.error == KeyError && cues == old(cues) && events == old(events)
      ensures r.Pass? ==> cues == PopFrom(old(cues), cue.id).value.1 && events == old(events) + [ItemRemoved(old(cues)[cue.id])]
    {
      var p := Pop(cue.id);
      if p.Err? {
        return Fail(p.error);
      }
      r := Pass;
    }

    /** `get(cue_id, default)`: the stored cue, or `default` when the id is absent. */
    function Get(id: string, default: Cue?): (r: Cue?)
      reads this
      ensures id in cues ==> r == cues[id] && r != null
      ensures id !in cues ==> r == default
    {
      if id in cues then cues[id] else default
    }

    /** `clear()`: empty the store and emit `cleared`. */
    method Clear()
      modifies this
      ensures cues == map[] && Len() == 0 && events == old(events) + [Cleared]
    {
      cues := map[];
      events := events + [Cleared];
    }

    /** `len(model)`: the number of stored cues. */
    function Len(): (n: nat)
      reads this
      ensures n == |cues.Keys|
    {
      |cues|
    }

    /** `cue in model`: containment by id, so another cue object with a stored id counts as contained. */
    function Contains(cue: Cue): (b: bool)
      reads this
      ensures b <==> Get(cue.id, null) != null
    {
      cue.id in cues
    }
  }

  // ---------------------------------------------------------------------
  // Properties

  /** Popping the id just added gives back the cue and the store as it was. */
  lemma PopAdded(m: Store, cue: Cue)
    requires cue.id !in m
    ensures AddTo(m, cue).Ok? && PopFrom(AddTo(m, cue).value, cue.id) == Ok((cue, m))
  {
    assert AddTo(m, cue).value - {cue.id} == m;
  }

  /** Adding back a popped cue restores the store. */
  lemma AddPopped(m: Store, id: string)
    requires Keyed(m) && id in m
    ensures AddTo(PopFrom(m, id).value.1, m[id]) == Ok(m)
  {
    assert (m - {id})[id := m[id]] == m;
  }
}
