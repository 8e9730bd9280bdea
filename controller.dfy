/**
 * The controller plugin's registration maps: for each message key, the set
 * of objects it triggers (cues and the session controller), and for each
 * (key, object) pair, the action to perform.
 */
module ControllerMaps {
  import opened Wrappers
  import opened ControllerCommon

  /** Something a key can trigger: a cue, known by its id, or the one session controller. */
  datatype Target = CueTarget(cue: string) | SessionTarget

  /** What is performed: `CueAction(action)` of a cue's setting, or a session action. */
  datatype Action = CueAct(name: string) | SessionAct(action: SessionAction)

  type Entries = map<string, set<Target>>
  type Actions = map<(string, Target), Action>

  predicate InMap(e: Entries, k: string, t: Target) {
    k in e && t in e[k]
  }

  /** The invariant tying the maps: the action pairs are exactly the registrations. */
  ghost predicate Consistent(e: Entries, a: Actions) {
    (forall k, t | k in e && t in e[k] :: (k, t) in a) && (forall kt | kt in a :: kt.0 in e && kt.1 in e[kt.0])
  }

  /** `delete_from_map(t)` on `__map`: discard `t` from every key's set; the keys stay. */
  function Discard(e: Entries, t: Target): Entries {
    map k | k in e :: e[k] - {t}
  }

  /** `delete_from_map(t)` on `__actions_map`: pop `(k, t)` for each key `k` of `__map`. */
  function DropPairs(a: Actions, keys: set<string>, t: Target): Actions {
    map kt | kt in a && !(kt.1 == t && kt.0 in keys) :: a[kt]
  }

  /** `__map[k].add(t)` after `if k not in __map: __map[k] = set()`. */
  function Enlist(e: Entries, k: string, t: Target): Entries {
    e[k := (if k in e then e[k] else {}) + {t}]
  }

  /** Add `t` under `k` with action `act`, creating the key's set if needed. */
  function Register(e: Entries, a: Actions, k: string, t: Target, act: Action): (Entries, Actions) {
    (Enlist(e, k, t), a[(k, t) := act])
  }

  /** `value.get(protocol, [])` for each loaded protocol, concatenated in load order. */
  function Listed(protocols: seq<string>, value: map<string, seq<(string, string)>>): seq<(string, string)>
    decreases |protocols|
  {
    if protocols == [] then []
    else
      var p := protocols[|protocols| - 1];
      Listed(protocols[..|protocols| - 1], value) + (if p in value then value[p] else [])
  }

  /** Every listed action is a name `CueAction` accepts. */
  predicate Named(pairs: seq<(string, string)>, names: set<string>) {
    forall i | 0 <= i < |pairs| :: pairs[i].1 in names
  }

  /**
   * One pair of `cue_changed`'s inner loop, after the pairs before it left
   * the maps in `r` (and `r.2` says whether they all went through): `t`
   * joins the key's set, then `CueAction(action)` either gives the action
   * that is written, or raises ValueError, which ends the loops with the
   * set already changed.
   */
  function RegisterNext(r: (Entries, Actions, bool), t: Target, pair: (string, string), names: set<string>): (Entries, Actions, bool) {
    if !r.2 then r
    else if pair.1 in names then (Enlist(r.0, pair.0, t), r.1[(pair.0, t) := CueAct(pair.1)], true)
    else (Enlist(r.0, pair.0, t), r.1, false)
  }

  /** The registrations of `pairs` for `t`, in order, up to the first action `CueAction` refuses. */
  function RegisterAll(e: Entries, a: Actions, t: Target, pairs: seq<(string, string)>, names: set<string>): (Entries, Actions, bool)
    decreases |pairs|
  {
    if pairs == [] then (e, a, true)
    else RegisterNext(RegisterAll(e, a, t, pairs[..|pairs| - 1], names), t, pairs[|pairs| - 1], names)
  }

  function ListedKeys(pairs: seq<(string, string)>): set<string> {
    set i | 0 <= i < |pairs| :: pairs[i].0
  }

  /** The action of the last pair listing key `k`. */
  function LastAction(pairs: seq<(string, string)>, k: string): string
    requires k in ListedKeys(pairs)
    decreases |pairs|
  {
    if pairs[|pairs| - 1].0 == k then pairs[|pairs| - 1].1
    else
      assert k in ListedKeys(pairs[..|pairs| - 1]) by {
        var i :| 0 <= i < |pairs| && pairs[i].0 == k;
        assert pairs[..|pairs| - 1][i] == pairs[i];
      }
      LastAction(pairs[..|pairs| - 1], k)
  }

  /** What `perform_action(key)` executes: each registered target that has an action, with that action. */
  function Calls(e: Entries, a: Actions, key: string): set<(Target, Action)> {
    if key in e then set t | t in e[key] && (key, t) in a :: (t, a[(key, t)]) else {}
  }

  /** The loop of `delete_from_map(t)` over the keys of `__map`, in any order. */
  method DeleteLoop(e0: Entries, a0: Actions, t: Target) returns (e: Entries, a: Actions)
    ensures e == Discard(e0, t) && a == DropPairs(a0, e0.Keys, t)
  {
    e, a := e0, a0;
    var rest := e.Keys;
    while rest != {}
      invariant rest <= e0.Keys
      invariant DiscardedBut(e0, e, rest, t)
      invariant DroppedBut(e0.Keys, a0, a, rest, t)
      decreases |rest|
    {
      var k :| k in rest;
      DeleteStep(e0, e, a0, a, rest, k, t);
      e := e[k := e[k] - {t}];
      a := a - {(k, t)};
      rest := rest - {k};
    }
    DeleteDone(e0, e, a0, a, t);
  }

  /** `if k not in __map: __map[k] = set()`, then `__map[k].add(t)`. */
  method EnlistOne(e0: Entries, k: string, t: Target) returns (e: Entries)
    ensures e == Enlist(e0, k, t)
  {
    e := e0;
    if k !in e {
      e := e[k := {}];
    }
    UpdateTwice(e0, k, if k in e0 then e0[k] else {}, {t});
    e := e[k := e[k] + {t}];
  }

  /** One registration as `cue_changed` writes it: create the key's set if missing, add `t`, record the action. */
  method RegisterOne(e0: Entries, a0: Actions, k: string, t: Target, act: Action) returns (e: Entries, a: Actions)
    ensures (e, a) == Register(e0, a0, k, t, act)
  {
    e := EnlistOne(e0, k, t);
    a := a0[(k, t) := act];
  }

  /**
   * The inner loop of `cue_changed` over the (key, action) pairs one
   * protocol lists, continuing the registration of the pairs `done`;
   * `ok` is false when `CueAction(action)` raised and cut the loop short.
   */
  method RegisterPairs(ghost e0: Entries, ghost a0: Actions, ghost done: seq<(string, string)>, e1: Entries, a1: Actions,
                       t: Target, pairs: seq<(string, string)>, names: set<string>)
    returns (e: Entries, a: Actions, ok: bool)
    requires (e1, a1, true) == RegisterAll(e0, a0, t, done, names)
    ensures (e, a, ok) == RegisterAll(e0, a0, t, done + pairs, names)
  {
    e, a := e1, a1;
    assert done + pairs[..0] == done;
    for j := 0 to |pairs|
      invariant (e, a, true) == RegisterAll(e0, a0, t, done + pairs[..j], names)
    {
      var (k, act) := pairs[j];
      RegisterAllStep(e0, a0, t, done, pairs, j, names);
      if act !in names {
        e := EnlistOne(e, k, t);
        assert done + pairs[..j + 1] <= done + pairs;
        RegisterAllStops(e0, a0, t, done + pairs[..j + 1], done + pairs, names);
        return e, a, false;
      }
      e, a := RegisterOne(e, a, k, t, CueAct(act));
    }
    assert pairs[..|pairs|] == pairs;
    ok := true;
  }

  /** The outer loop of `cue_changed` over the loaded protocols, stopping at the first refused action. */
  method RegisterLoop(e0: Entries, a0: Actions, t: Target, protocols: seq<string>, value: map<string, seq<(string, string)>>,
                      names: set<string>)
    returns (e: Entries, a: Actions, ok: bool)
    ensures (e, a, ok) == RegisterAll(e0, a0, t, Listed(protocols, value), names)
  {
    e, a := e0, a0;
    for i := 0 to |protocols|
      invariant (e, a, true) == RegisterAll(e0, a0, t, Listed(protocols[..i], value), names)
    {
      ghost var done := Listed(protocols[..i], value);
      var pairs := if protocols[i] in value then value[protocols[i]] else [];
      ListedStep(protocols, value, i);
      e, a, ok := RegisterPairs(e0, a0, done, e, a, t, pairs, names);
      if !ok {
        ListedPrefix(protocols, value, i + 1);
        RegisterAllStops(e0, a0, t, done + pairs, Listed(protocols, value), names);
        return;
      }
    }
    assert protocols[..|protocols|] == protocols;
    ok := true;
  }

  class Controller {
    /** The names of the loaded protocols, in load order. */
    const protocols: seq<string>
    /** The names `CueAction(name)` accepts. */
    const actionNames: set<string>
    /** `__map`. */
    var entries: Entries
    /** `__actions_map`. */
    var actions: Actions

    ghost predicate Valid()
      reads this
    {
      Consistent(entries, actions)
    }

    /** A controller with the given protocols loaded and empty maps. */
    constructor(protocols: seq<string>, actionNames: set<string>)
      ensures this.protocols == protocols && this.actionNames == actionNames && entries == map[] && actions == map[]
      ensures Valid()
    {
      this.protocols := protocols;
      this.actionNames := actionNames;
      entries := map[];
      actions := map[];
    }

    /** The map part of `reset`. */
    method Reset()
      modifies this
      ensures entries == map[] && actions == map[]
      ensures Valid()
    {
      entries := map[];
      actions := map[];
    }

    /** `delete_from_map(t)`. */
    method DeleteFromMap(t: Target)
      modifies this
      ensures entries == Discard(old(entries), t)
      ensures actions == DropPairs(old(actions), old(entries).Keys, t)
      ensures old(Valid()) ==> Valid()
    {
      ghost var e0, a0 := entries, actions;
      entries, actions := DeleteLoop(entries, actions, t);
      if Consistent(e0, a0) {
        DeleteForgets(e0, a0, t, "", t);
      }
    }

    /** `session_action_changed(key, action)`: the session controller moves to `key` alone. */
    method SessionActionChanged(key: string, action: SessionAction)
      modifies this
      ensures (entries, actions) ==
        Register(Discard(old(entries), SessionTarget), DropPairs(old(actions), old(entries).Keys, SessionTarget), key, SessionTarget, SessionAct(action))
      ensures old(Valid()) ==> Valid()
    {
      ghost var e0, a0 := entries, actions;
      DeleteFromMap(SessionTarget);
      entries, actions := RegisterOne(entries, actions, key, SessionTarget, SessionAct(action));
      if Consistent(e0, a0) {
        SessionActionSpec(e0, a0, key, action, key, SessionTarget);
      }
    }

    /** `cue_changed(cue, property_name, value)`: ValueError when `CueAction` refuses a listed action. */
    method CueChanged(cue: string, property: string, value: map<string, seq<(string, string)>>) returns (r: Outcome)
      modifies this
      ensures property != "controller" ==> r == Pass && entries == old(entries) && actions == old(actions)
      ensures property == "controller" ==>
        var regs := RegisterAll(Discard(old(entries), CueTarget(cue)), DropPairs(old(actions), old(entries).Keys, CueTarget(cue)),
                                CueTarget(cue), Listed(protocols, value), actionNames);
        entries == regs.0 && actions == regs.1 && (r.Pass? <==> regs.2)
      ensures r.Fail? ==> r.error == ValueError
      ensures old(Valid()) && r.Pass? ==> Valid()
    {
      if property != "controller" {
        return Pass;
      }
      ghost var e0, a0 := entries, actions;
      DeleteFromMap(CueTarget(cue));
      var ok;
      entries, actions, ok := RegisterLoop(entries, actions, CueTarget(cue), protocols, value, actionNames);
      r := if ok then Pass else Fail(ValueError);
      if Consistent(e0, a0) {
        CueChangedSpec(e0, a0, cue, protocols, value, actionNames, "", SessionTarget);
      }
    }

    /**
     * `perform_action(key)`, with its loop over the key's targets: KeyError
     * at a target that has no action, after the calls made before it.
     */
    method PerformAction(key: string) returns (calls: set<(Target, Action)>, r: Outcome)
      ensures r.Fail? <==> key in entries && exists t | t in entries[key] :: (key, t) !in actions
      ensures r.Fail? ==> r.error == KeyError && calls <= Calls(entries, actions, key)
      ensures r.Pass? ==> calls == Calls(entries, actions, key)
      ensures Valid() ==> r.Pass?
    {
      calls := {};
      if key !in entries {
        return calls, Pass;
      }
      var rest := entries[key];
      while rest != {}
        invariant rest <= entries[key]
        invariant forall t | t in entries[key] - rest :: (key, t) in actions
        invariant calls == set t | t in entries[key] - rest :: (t, actions[(key, t)])
        decreases |rest|
      {
        var t :| t in rest;
        if (key, t) !in actions {
          return calls, Fail(KeyError);
        }
        calls := calls + {(t, actions[(key, t)])};
        rest := rest - {t};
      }
      r := Pass;
    }
  }

  /** `__map` part way through `delete_from_map(t)`: `t` discarded under every key but those in `rest`. */
  predicate DiscardedBut(e0: Entries, e: Entries, rest: set<string>, t: Target) {
    e.Keys == e0.Keys && forall k | k in e :: e[k] == if k in rest then e0[k] else e0[k] - {t}
  }

  /** `__actions_map` part way through: `(k, t)` popped for every key `k` not in `rest`. */
  predicate DroppedBut(keys: set<string>, a0: Actions, a: Actions, rest: set<string>, t: Target) {
    (forall kt | kt in a0 :: kt in a <==> !(kt.1 == t && kt.0 in keys && kt.0 !in rest)) &&
    (forall kt | kt in a :: kt in a0 && a[kt] == a0[kt])
  }

  lemma ListedStep(protocols: seq<string>, value: map<string, seq<(string, string)>>, i: nat)
    requires i < |protocols|
    ensures Listed(protocols[..i + 1], value) ==
      Listed(protocols[..i], value) + (if protocols[i] in value then value[protocols[i]] else [])
  {
    assert protocols[..i + 1][..i] == protocols[..i];
  }

  /** The pairs of the first `i` protocols come first among all the listed pairs. */
  lemma {:induction false} ListedPrefix(protocols: seq<string>, value: map<string, seq<(string, string)>>, i: nat)
    requires i <= |protocols|
    ensures Listed(protocols[..i], value) <= Listed(protocols, value)
    decreases |protocols|
  {
    if i == |protocols| {
      assert protocols[..i] == protocols;
    } else {
      var init := protocols[..|protocols| - 1];
      ListedPrefix(init, value, i);
      assert init[..i] == protocols[..i];
    }
  }

  /** Creating a key's set, or keeping the one it has, and then adding to it. */
  lemma UpdateTwice(e: Entries, k: string, s: set<Target>, t: set<Target>)
    requires s == if k in e then e[k] else {}
    ensures var e' := if k in e then e else e[k := {}];
      k in e' && e'[k := e'[k] + t] == e[k := s + t]
  {
  }

  /** One iteration of `cue_changed`'s inner loop handles the next pair. */
  lemma RegisterAllStep(e: Entries, a: Actions, t: Target, done: seq<(string, string)>, pairs: seq<(string, string)>, j: nat,
                        names: set<string>)
    requires j < |pairs|
    ensures RegisterAll(e, a, t, done + pairs[..j + 1], names) ==
      RegisterNext(RegisterAll(e, a, t, done + pairs[..j], names), t, pairs[j], names)
  {
    var s := done + pairs[..j + 1];
    assert s[..|s| - 1] == done + pairs[..j];
    assert s[|s| - 1] == pairs[j];
  }

  /** Once an action has been refused, the later pairs change nothing. */
  lemma {:induction false} RegisterAllStops(e: Entries, a: Actions, t: Target, s: seq<(string, string)>, u: seq<(string, string)>,
                                            names: set<string>)
    requires s <= u && !RegisterAll(e, a, t, s, names).2
    ensures RegisterAll(e, a, t, u, names) == RegisterAll(e, a, t, s, names)
    decreases |u|
  {
    if |u| == |s| {
      assert u == s;
    } else {
      var init := u[..|u| - 1];
      assert s <= init;
      RegisterAllStops(e, a, t, s, init, names);
    }
  }

  /** One iteration of `delete_from_map`'s loop. */
  lemma DeleteStep(e0: Entries, e: Entries, a0: Actions, a: Actions, rest: set<string>, k: string, t: Target)
    requires k in rest && rest <= e0.Keys
    requires DiscardedBut(e0, e, rest, t) && DroppedBut(e0.Keys, a0, a, rest, t)
    ensures k in e
    ensures DiscardedBut(e0, e[k := e[k] - {t}], rest - {k}, t)
    ensures DroppedBut(e0.Keys, a0, a - {(k, t)}, rest - {k}, t)
  {
  }

  lemma DeleteDone(e0: Entries, e: Entries, a0: Actions, a: Actions, t: Target)
    requires DiscardedBut(e0, e, {}, t) && DroppedBut(e0.Keys, a0, a, {}, t)
    ensures e == Discard(e0, t) && a == DropPairs(a0, e0.Keys, t)
  {
  }

  // ---------------------------------------------------------------------
  // Properties

  /** After `delete_from_map(t)`, `t` is under no key and has no action left; everything else stays. */
  lemma DeleteForgets(e: Entries, a: Actions, t: Target, k: string, u: Target)
    requires Consistent(e, a)
    ensures Consistent(Discard(e, t), DropPairs(a, e.Keys, t))
    ensures !InMap(Discard(e, t), k, t) && (k, t) !in DropPairs(a, e.Keys, t)
    ensures u != t ==> (InMap(Discard(e, t), k, u) <==> InMap(e, k, u))
    ensures u != t && (k, u) in a ==> DropPairs(a, e.Keys, t)[(k, u)] == a[(k, u)]
  {
  }

  /** The registrations all go through iff `CueAction` accepts every listed action. */
  lemma {:induction false} RegisterAllOk(e: Entries, a: Actions, t: Target, pairs: seq<(string, string)>, names: set<string>)
    ensures RegisterAll(e, a, t, pairs, names).2 <==> Named(pairs, names)
    decreases |pairs|
  {
    if pairs != [] {
      var init := pairs[..|pairs| - 1];
      RegisterAllOk(e, a, t, init, names);
      assert Named(pairs, names) <==> Named(init, names) && pairs[|pairs| - 1].1 in names by {
        assert forall i | 0 <= i < |init| :: init[i] == pairs[i];
      }
    }
  }

  /** Registrations that all go through keep the maps consistent. */
  lemma {:induction false} RegisterAllConsistent(e: Entries, a: Actions, t: Target, pairs: seq<(string, string)>, names: set<string>)
    requires Consistent(e, a)
    ensures var r := RegisterAll(e, a, t, pairs, names); r.2 ==> Consistent(r.0, r.1)
    decreases |pairs|
  {
    if pairs != [] {
      RegisterAllConsistent(e, a, t, pairs[..|pairs| - 1], names);
    }
  }

  /**
   * After registering `pairs` for `t`: when they all go through, `t` is
   * under key `k` iff it was or `k` is listed, with the last listed action;
   * in any case other targets are untouched.
   */
  lemma {:induction false} RegisterAllSpec(e: Entries, a: Actions, t: Target, pairs: seq<(string, string)>, names: set<string>,
                                           k: string, u: Target)
    ensures var r := RegisterAll(e, a, t, pairs, names);
      r.2 ==> (InMap(r.0, k, t) <==> InMap(e, k, t) || k in ListedKeys(pairs))
    ensures var r := RegisterAll(e, a, t, pairs, names);
      r.2 ==> ((k, t) in r.1 <==> (k, t) in a || k in ListedKeys(pairs))
    ensures var r := RegisterAll(e, a, t, pairs, names);
      r.2 && k in ListedKeys(pairs) ==> r.1[(k, t)] == CueAct(LastAction(pairs, k))
    ensures var r := RegisterAll(e, a, t, pairs, names);
      u != t ==> (InMap(r.0, k, u) <==> InMap(e, k, u)) && ((k, u) in r.1 <==> (k, u) in a)
    ensures var r := RegisterAll(e, a, t, pairs, names);
      u != t && (k, u) in a ==> r.1[(k, u)] == a[(k, u)]
    decreases |pairs|
  {
    if pairs != [] {
      var init := pairs[..|pairs| - 1];
      RegisterAllSpec(e, a, t, init, names, k, u);
      assert ListedKeys(pairs) == ListedKeys(init) + {pairs[|pairs| - 1].0} by {
        forall x | x in ListedKeys(pairs) ensures x in ListedKeys(init) + {pairs[|pairs| - 1].0} {
          var i :| 0 <= i < |pairs| && pairs[i].0 == x;
          if i < |pairs| - 1 { assert init[i] == pairs[i]; }
        }
        forall x | x in ListedKeys(init) ensures x in ListedKeys(pairs) {
          var i :| 0 <= i < |init| && init[i].0 == x;
          assert pairs[i] == init[i];
        }
      }
    }
  }

  /** At the first refused action, `t` has joined that pair's key and nothing after it happens. */
  lemma RegisterAllFirstRefused(e: Entries, a: Actions, t: Target, pairs: seq<(string, string)>, names: set<string>, f: nat)
    requires f < |pairs| && pairs[f].1 !in names && Named(pairs[..f], names)
    ensures var before := RegisterAll(e, a, t, pairs[..f], names);
      RegisterAll(e, a, t, pairs, names) == (Enlist(before.0, pairs[f].0, t), before.1, false)
  {
    RegisterAllOk(e, a, t, pairs[..f], names);
    var s := pairs[..f + 1];
    assert s[..|s| - 1] == pairs[..f] && s[|s| - 1] == pairs[f];
    assert s <= pairs;
    RegisterAllStops(e, a, t, s, pairs, names);
  }

  /**
   * `cue_changed(c, 'controller', v)`: it raises iff some listed action is
   * refused; when it does not, `c` is under `k` iff some loaded protocol
   * lists `k` for it, and the maps stay consistent. Other targets keep
   * their keys and actions either way.
   */
  lemma CueChangedSpec(e: Entries, a: Actions, c: string, protocols: seq<string>,
                       value: map<string, seq<(string, string)>>, names: set<string>, k: string, u: Target)
    requires Consistent(e, a)
    ensures var r := RegisterAll(Discard(e, CueTarget(c)), DropPairs(a, e.Keys, CueTarget(c)), CueTarget(c), Listed(protocols, value), names);
      (r.2 <==> Named(Listed(protocols, value), names)) &&
      (r.2 ==> Consistent(r.0, r.1) && (InMap(r.0, k, CueTarget(c)) <==> k in ListedKeys(Listed(protocols, value)))) &&
      (u != CueTarget(c) ==> (InMap(r.0, k, u) <==> InMap(e, k, u))) &&
      (u != CueTarget(c) && (k, u) in a ==> (k, u) in r.1 && r.1[(k, u)] == a[(k, u)])
  {
    var t := CueTarget(c);
    DeleteForgets(e, a, t, k, u);
    RegisterAllOk(Discard(e, t), DropPairs(a, e.Keys, t), t, Listed(protocols, value), names);
    RegisterAllConsistent(Discard(e, t), DropPairs(a, e.Keys, t), t, Listed(protocols, value), names);
    RegisterAllSpec(Discard(e, t), DropPairs(a, e.Keys, t), t, Listed(protocols, value), names, k, u);
  }

  /**
   * When the first refused action is listed under a key that no earlier
   * pair listed, `cue_changed` leaves `c` in that key's set with no action:
   * the maps are no longer consistent, and `perform_action` on that key
   * raises KeyError.
   */
  lemma CueChangedHalfRegistered(e: Entries, a: Actions, c: string, protocols: seq<string>,
                                 value: map<string, seq<(string, string)>>, names: set<string>, f: nat)
    requires Consistent(e, a)
    requires var l := Listed(protocols, value);
      f < |l| && l[f].1 !in names && Named(l[..f], names) && l[f].0 !in ListedKeys(l[..f])
    ensures var l := Listed(protocols, value);
      var r := RegisterAll(Discard(e, CueTarget(c)), DropPairs(a, e.Keys, CueTarget(c)), CueTarget(c), l, names);
      !r.2 && InMap(r.0, l[f].0, CueTarget(c)) && (l[f].0, CueTarget(c)) !in r.1 && !Consistent(r.0, r.1)
  {
    var t := CueTarget(c);
    var l := Listed(protocols, value);
    var k := l[f].0;
    var e1, a1 := Discard(e, t), DropPairs(a, e.Keys, t);
    DeleteForgets(e, a, t, k, t);
    RegisterAllFirstRefused(e1, a1, t, l, names, f);
    RegisterAllOk(e1, a1, t, l[..f], names);
    RegisterAllSpec(e1, a1, t, l[..f], names, k, t);
  }

  /** `session_action_changed(key, a)`: the session controller is under `key` alone, with action `a`, consistently. */
  lemma SessionActionSpec(e: Entries, a: Actions, key: string, action: SessionAction, k: string, u: Target)
    requires Consistent(e, a)
    ensures var (e', a') := Register(Discard(e, SessionTarget), DropPairs(a, e.Keys, SessionTarget), key, SessionTarget, SessionAct(action));
      Consistent(e', a') &&
      (InMap(e', k, SessionTarget) <==> k == key) &&
      a'[(key, SessionTarget)] == SessionAct(action) &&
      (u != SessionTarget ==> (InMap(e', k, u) <==> InMap(e, k, u)))
  {
    DeleteForgets(e, a, SessionTarget, k, u);
  }

  /** `perform_action` on a key nobody registered does nothing. */
  lemma PerformUnmapped(e: Entries, a: Actions, key: string)
    requires key !in e
    ensures Calls(e, a, key) == {}
  {
  }

  /** Every call `perform_action` makes is a registration with its recorded action. */
  lemma PerformRegistered(e: Entries, a: Actions, key: string, t: Target, act: Action)
    requires Consistent(e, a)
    ensures (t, act) in Calls(e, a, key) <==> InMap(e, key, t) && a[(key, t)] == act
  {
  }
}
