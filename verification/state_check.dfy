/** `doEventStateCheck` and `_doEventCheck`: recomputing whether red dots are on, from the
    registered checks and the children, and propagating a change up the parent chain. */
module StateCheck {
  import opened Outcomes
  import opened OrderedMaps
  import opened RedDotModel

  /** Some check registered under `key` is truthy for its target (lines 427-430). */
  predicate EventsOn(events: OMap<Key, seq<Event>>, probe: Probe, key: Key) {
    key in events.vals &&
    exists i | 0 <= i < |events.vals[key]| :: Truthy(probe(events.vals[key][i].func, events.vals[key][i].target))
  }

  /** Some node listed in `children` is on (lines 440-443). */
  predicate ChildOn(nodes: map<Key, Node>, children: seq<Key>) {
    exists i | 0 <= i < |children| :: children[i] in nodes && nodes[children[i]].isOn
  }

  /** The state a node should have: one of its checks holds or one of its children is on. */
  predicate Recompute(sys: System, probe: Probe, key: Key)
    requires key in sys.nodes.vals
  {
    EventsOn(sys.events, probe, key) || ChildOn(sys.nodes.vals, sys.nodes.vals[key].children)
  }

  /** The node under `key`, if any, shows the state its checks and children call for. */
  ghost predicate Consistent(sys: System, probe: Probe, key: Key) {
    key in sys.nodes.vals ==> sys.nodes.vals[key].isOn == Recompute(sys, probe, key)
  }

  /** Every red dot shows the state its checks and children call for. */
  ghost predicate AllConsistent(sys: System, probe: Probe) {
    forall k | k in sys.nodes.vals :: Consistent(sys, probe, k)
  }

  /** The second state differs from the first at most in the `isOn` flags of its nodes. */
  ghost predicate OnlyStates(a: System, b: System) {
    && b.events == a.events
    && b.pool == a.pool
    && b.nodes.keys == a.nodes.keys
    && b.nodes.vals.Keys == a.nodes.vals.Keys
    && forall k | k in a.nodes.vals :: b.nodes.vals[k] == a.nodes.vals[k].(isOn := b.nodes.vals[k].isOn)
  }

  /** The measure the recursion up the parent chain decreases. */
  ghost function Rank(nodes: OMap<Key, Node>, key: Key): nat {
    if Valid(nodes) && key in nodes.vals then Pos(nodes, key) else 0
  }

  /** A node and its ancestors, following parent links until a root or a node that is its own
      parent. */
  ghost function Ancestry(nodes: OMap<Key, Node>, key: Key): (r: set<Key>)
    requires Valid(nodes) && ParentsPrecede(nodes)
    ensures r <= nodes.vals.Keys
    ensures key in nodes.vals ==> key in r
    decreases Rank(nodes, key)
  {
    if key !in nodes.vals then {}
    else
      var parent := nodes.vals[key].parent;
      if parent.None? || parent.value == key then {key}
      else {key} + Ancestry(nodes, parent.value)
  }

  /** Ancestry follows links only. */
  lemma {:induction false} AncestrySameLinks(a: OMap<Key, Node>, b: OMap<Key, Node>, key: Key)
    requires Valid(a) && ParentsPrecede(a) && SameLinks(a, b)
    ensures Valid(b) && ParentsPrecede(b)
    ensures Ancestry(b, key) == Ancestry(a, key)
    decreases Rank(a, key)
  {
    SameLinksParents(a, b);
    if key in a.vals {
      var parent := a.vals[key].parent;
      assert b.vals[key].parent == parent;
      if parent.Some? && parent.value != key {
        AncestrySameLinks(a, b, parent.value);
        assert Ancestry(b, key) == {key} + Ancestry(b, parent.value);
      }
    }
  }

  /** A node's parent's ancestors are among the node's own. */
  lemma AncestryParent(nodes: OMap<Key, Node>, key: Key)
    requires Valid(nodes) && ParentsPrecede(nodes) && key in nodes.vals && nodes.vals[key].parent.Some?
    ensures Ancestry(nodes, nodes.vals[key].parent.value) <= Ancestry(nodes, key)
  {
  }

  /** Ancestors come no later than the node in registration order. */
  lemma {:induction false} AncestryPrecedes(nodes: OMap<Key, Node>, key: Key, k: Key)
    requires Valid(nodes) && ParentsPrecede(nodes) && k in Ancestry(nodes, key)
    ensures key in nodes.vals && k in nodes.vals && Pos(nodes, k) <= Pos(nodes, key)
    decreases Rank(nodes, key)
  {
    var parent := nodes.vals[key].parent;
    if k != key {
      AncestryPrecedes(nodes, parent.value, k);
    }
  }

  /** A node that is not its own parent is not among its parent's ancestors. */
  lemma NotOwnAncestor(nodes: OMap<Key, Node>, key: Key)
    requires Valid(nodes) && ParentsPrecede(nodes) && key in nodes.vals
    requires nodes.vals[key].parent.Some? && nodes.vals[key].parent.value != key
    ensures key !in Ancestry(nodes, nodes.vals[key].parent.value)
  {
    var p := nodes.vals[key].parent.value;
    if key in Ancestry(nodes, p) {
      AncestryPrecedes(nodes, p, key);
    }
  }

  /** Sets the state of one registered node. */
  function SetOn(sys: System, key: Key, on: bool): (r: System)
    requires Valid(sys.nodes) && key in sys.nodes.vals
    ensures OnlyStates(sys, r)
    ensures r.nodes.vals[key].isOn == on
    ensures forall k | k in sys.nodes.vals && k != key :: r.nodes.vals[k] == sys.nodes.vals[k]
  {
    sys.(nodes := Put(sys.nodes, key, sys.nodes.vals[key].(isOn := on)))
  }

  /** Changing states alone keeps the invariant and the links. */
  lemma OnlyStatesWf(a: System, b: System)
    requires Wf(a) && OnlyStates(a, b)
    ensures Wf(b)
    ensures Linked(a.nodes.vals) ==> Linked(b.nodes.vals)
  {
    SameLinksKeep(a.nodes, b.nodes);
    HeldAllSameBindings(a.nodes.vals, b.nodes.vals, a.nodes.keys);
    assert AllBadges(b) == AllBadges(a);
  }

  lemma OnlyStatesTrans(a: System, b: System, c: System)
    requires OnlyStates(a, b) && OnlyStates(b, c)
    ensures OnlyStates(a, c)
  {
  }

  /** A node's new state survives re-evaluating it at once: when it lists itself as a child,
      that child already shows the new state. */
  lemma SelfStable(sys: System, probe: Probe, key: Key)
    requires Valid(sys.nodes) && key in sys.nodes.vals
    ensures Consistent(SetOn(sys, key, Recompute(sys, probe, key)), probe, key)
  {
    var now := Recompute(sys, probe, key);
    var next := SetOn(sys, key, now);
    var cs := sys.nodes.vals[key].children;
    assert next.nodes.vals[key].children == cs;
    if now {
      if !EventsOn(sys.events, probe, key) {
        var i :| 0 <= i < |cs| && cs[i] in sys.nodes.vals && sys.nodes.vals[cs[i]].isOn;
        assert next.nodes.vals[cs[i]].isOn;
      }
    } else {
      forall i | 0 <= i < |cs| && cs[i] in next.nodes.vals
        ensures !next.nodes.vals[cs[i]].isOn
      {
        assert !(cs[i] in sys.nodes.vals && sys.nodes.vals[cs[i]].isOn);
      }
    }
  }

  /** `doEventStateCheck(key)` (lines 417-455): recomputes the node's state, stores it and, when
      it changed and the node has a parent, re-checks the parent; the result is the new state.
      A key with no node throws at `redDotNode.child` (line 440). `revisit` marks the call a
      node makes on itself when it is its own parent. */
  function DoEventStateCheck(sys: System, probe: Probe, key: Key, revisit: bool): (r: Result<Reply<bool>>)
    requires Valid(sys.nodes) && ParentsPrecede(sys.nodes)
    requires revisit ==> key in sys.nodes.vals && Consistent(sys, probe, key)
    ensures r.Err? <==> key !in sys.nodes.vals
    ensures r.Err? ==> r.error == TypeError
    ensures r.Ok? ==> r.value.value == Recompute(sys, probe, key)
    ensures r.Ok? ==> OnlyStates(sys, r.value.sys) && r.value.sys.nodes.vals[key].isOn == r.value.value
    ensures r.Ok? ==> forall k | k in sys.nodes.vals && r.value.sys.nodes.vals[k].isOn != sys.nodes.vals[k].isOn ::
                        k in Ancestry(sys.nodes, key)
    decreases Rank(sys.nodes, key), if revisit then 0 else 1
  {
    if key !in sys.nodes.vals then Err(TypeError)
    else
      var node := sys.nodes.vals[key];
      var now := Recompute(sys, probe, key);
      var next := SetOn(sys, key, now);
      if node.parent.Some? && node.isOn != now then
        var p := node.parent.value;
        ClimbReady(sys, probe, key);
        var rest := DoEventStateCheck(next, probe, p, p == key);
        assert rest.Ok?;
        StepUp(sys, key, now, next, rest.value.sys);
        Ok(Reply(now, rest.value.sys))
      else Ok(Reply(now, next))
  }

  /** What the climb to the parent needs: the state after storing the node's recomputed state
      keeps the invariant, the parent is registered no later than the node, and a node that is
      its own parent is consistent when it is revisited. */
  lemma ClimbReady(sys: System, probe: Probe, key: Key)
    requires Valid(sys.nodes) && ParentsPrecede(sys.nodes) && key in sys.nodes.vals && sys.nodes.vals[key].parent.Some?
    ensures var next, p := SetOn(sys, key, Recompute(sys, probe, key)), sys.nodes.vals[key].parent.value;
      && Valid(next.nodes) && ParentsPrecede(next.nodes) && p in next.nodes.vals
      && (p != key ==> Rank(next.nodes, p) < Rank(sys.nodes, key))
      && (p == key ==> Consistent(next, probe, p) && Recompute(next, probe, p) == Recompute(sys, probe, key))
  {
    var now := Recompute(sys, probe, key);
    var next := SetOn(sys, key, now);
    SameLinksParents(sys.nodes, next.nodes);
    SelfStable(sys, probe, key);
    if sys.nodes.vals[key].parent.value != key {
      ParentRankBelow(sys.nodes, next.nodes, key);
    }
  }

  /** A parent other than the node itself ranks below it, in any map with the same order. */
  lemma ParentRankBelow(a: OMap<Key, Node>, b: OMap<Key, Node>, key: Key)
    requires Valid(a) && ParentsPrecede(a) && key in a.vals
    requires a.vals[key].parent.Some? && a.vals[key].parent.value != key
    requires b.keys == a.keys && b.vals.Keys == a.vals.Keys
    ensures Rank(b, a.vals[key].parent.value) < Rank(a, key)
  {
    var p := a.vals[key].parent.value;
    assert Pos(a, p) <= Pos(a, key);
    assert Pos(a, p) != Pos(a, key);
    assert Pos(b, p) == Pos(a, p);
  }

  /** The recursive step of `DoEventStateCheck`: what the check of the parent changes, added to
      the change of the node itself, stays on the node's chain of ancestors. */
  lemma StepUp(sys: System, key: Key, now: bool, next: System, after: System)
    requires Valid(sys.nodes) && ParentsPrecede(sys.nodes) && key in sys.nodes.vals && sys.nodes.vals[key].parent.Some?
    requires next == SetOn(sys, key, now) && OnlyStates(next, after)
    requires var p := sys.nodes.vals[key].parent.value;
      && (p == key ==> after.nodes.vals[key].isOn == now)
      && forall k | k in next.nodes.vals && after.nodes.vals[k].isOn != next.nodes.vals[k].isOn ::
           k in Ancestry(next.nodes, p)
    ensures OnlyStates(sys, after) && after.nodes.vals[key].isOn == now
    ensures forall k | k in sys.nodes.vals && after.nodes.vals[k].isOn != sys.nodes.vals[k].isOn ::
              k in Ancestry(sys.nodes, key)
  {
    var p := sys.nodes.vals[key].parent.value;
    AncestrySameLinks(sys.nodes, next.nodes, p);
    AncestryParent(sys.nodes, key);
    OnlyStatesTrans(sys, next, after);
    if p != key {
      NotOwnAncestor(sys.nodes, key);
    }
    forall k | k in sys.nodes.vals && after.nodes.vals[k].isOn != sys.nodes.vals[k].isOn
      ensures k in Ancestry(sys.nodes, key)
    {
      if k != key {
        assert next.nodes.vals[k] == sys.nodes.vals[k];
        assert k in Ancestry(next.nodes, p);
      }
    }
  }

  /** Only a child's parent reads the child's state: under `Linked`, changing one node's state
      leaves every other node that was consistent consistent, except possibly its parent. */
  lemma SetOnKeeps(sys: System, probe: Probe, key: Key, on: bool, k: Key)
    requires Valid(sys.nodes) && Linked(sys.nodes.vals) && key in sys.nodes.vals
    requires k != key && Consistent(sys, probe, k)
    requires sys.nodes.vals[key].isOn != on ==> sys.nodes.vals[key].parent != Some(k)
    ensures Consistent(SetOn(sys, key, on), probe, k)
  {
    var next := SetOn(sys, key, on);
    if k in sys.nodes.vals {
      var cs := sys.nodes.vals[k].children;
      assert next.nodes.vals[k].children == cs;
      forall i | 0 <= i < |cs|
        ensures (cs[i] in next.nodes.vals && next.nodes.vals[cs[i]].isOn) == (cs[i] in sys.nodes.vals && sys.nodes.vals[cs[i]].isOn)
      {
        if cs[i] == key {
          assert sys.nodes.vals[key].isOn == on;
        }
      }
      assert ChildOn(next.nodes.vals, cs) == ChildOn(sys.nodes.vals, cs);
    }
  }

  /** The repair theorem: when parent and child links agree, a check of `key` leaves `key`
      consistent and breaks no node that was consistent before. */
  lemma {:induction false} CheckRepairs(sys: System, probe: Probe, key: Key, revisit: bool)
    requires Wf(sys) && Linked(sys.nodes.vals) && key in sys.nodes.vals
    requires revisit ==> Consistent(sys, probe, key)
    ensures var after := DoEventStateCheck(sys, probe, key, revisit).value.sys;
      && Consistent(after, probe, key)
      && forall k | Consistent(sys, probe, k) :: Consistent(after, probe, k)
    decreases Rank(sys.nodes, key), if revisit then 0 else 1
  {
    var node := sys.nodes.vals[key];
    var now := Recompute(sys, probe, key);
    var next := SetOn(sys, key, now);
    var up := if node.parent.Some? && node.isOn != now then node.parent else None;
    SetOnRepairs(sys, probe, key, up);
    if up.Some? {
      var p := up.value;
      OnlyStatesWf(sys, next);
      CheckRepairs(next, probe, p, p == key);
      var after := DoEventStateCheck(next, probe, p, p == key).value.sys;
      assert DoEventStateCheck(sys, probe, key, revisit).value.sys == after;
      KeepConsistent(sys, next, after, probe, key, up);
    } else {
      assert DoEventStateCheck(sys, probe, key, revisit).value.sys == next;
    }
  }

  /** Storing a node's recomputed state makes it consistent and keeps every other consistent node
      consistent, except its parent when the state flipped. */
  lemma SetOnRepairs(sys: System, probe: Probe, key: Key, up: Option<Key>)
    requires Valid(sys.nodes) && Linked(sys.nodes.vals) && key in sys.nodes.vals
    requires var node := sys.nodes.vals[key];
      up == if node.parent.Some? && node.isOn != Recompute(sys, probe, key) then node.parent else None
    ensures var next := SetOn(sys, key, Recompute(sys, probe, key));
      && Consistent(next, probe, key)
      && forall k | k != key && Consistent(sys, probe, k) && up != Some(k) :: Consistent(next, probe, k)
  {
    var now := Recompute(sys, probe, key);
    var next := SetOn(sys, key, now);
    SelfStable(sys, probe, key);
    forall k | k != key && Consistent(sys, probe, k) && up != Some(k)
      ensures Consistent(next, probe, k)
    {
      SetOnKeeps(sys, probe, key, now, k);
    }
  }

  /** Consistency carried through the two steps of a check that climbs to the parent. */
  lemma KeepConsistent(sys: System, next: System, after: System, probe: Probe, key: Key, up: Option<Key>)
    requires Consistent(next, probe, key)
    requires forall k | k != key && Consistent(sys, probe, k) && up != Some(k) :: Consistent(next, probe, k)
    requires forall k | Consistent(next, probe, k) :: Consistent(after, probe, k)
    requires up.Some? ==> Consistent(after, probe, up.value)
    ensures Consistent(after, probe, key)
    ensures forall k | Consistent(sys, probe, k) :: Consistent(after, probe, k)
  {
  }

  /** `_doEventCheck`'s loop (lines 167-170): checks each key in turn; the first key with no
      node throws, and the checks made before it stay in effect. */
  function CheckEach(sys: System, probe: Probe, ks: seq<Key>): (r: Run)
    requires Wf(sys)
    ensures Wf(r.sys) && OnlyStates(sys, r.sys)
    ensures r.error.None? <==> forall k | k in ks :: k in sys.nodes.vals
    ensures r.error.Some? ==> r.error.value == TypeError
    decreases |ks|
  {
    if ks == [] then Run(sys, None)
    else
      match DoEventStateCheck(sys, probe, ks[0], false)
      case Err(e) => Run(sys, Some(e))
      case Ok(rep) =>
        OnlyStatesWf(sys, rep.sys);
        var r := CheckEach(rep.sys, probe, ks[1..]);
        OnlyStatesTrans(sys, rep.sys, r.sys);
        r
  }

  /** Checking a list of keys repairs each of them and breaks nothing that was consistent. */
  lemma {:induction false} CheckEachRepairs(sys: System, probe: Probe, ks: seq<Key>, k: Key)
    requires Wf(sys) && Linked(sys.nodes.vals)
    requires forall j | j in ks :: j in sys.nodes.vals
    requires Consistent(sys, probe, k) || k in ks
    ensures Consistent(CheckEach(sys, probe, ks).sys, probe, k)
    decreases |ks|
  {
    if ks != [] {
      CheckRepairs(sys, probe, ks[0], false);
      var next := DoEventStateCheck(sys, probe, ks[0], false).value.sys;
      OnlyStatesWf(sys, next);
      if k != ks[0] && !Consistent(sys, probe, k) {
        assert k in ks[1..];
      }
      CheckEachRepairs(next, probe, ks[1..], k);
    }
  }

  /** A node with no registered check depends on its children only, whatever the checks return. */
  lemma ProbeIrrelevant(sys: System, probe: Probe, probe2: Probe, k: Key)
    requires Consistent(sys, probe, k) && k !in sys.events.vals
    ensures Consistent(sys, probe2, k)
  {
  }

  /** `_doEventCheck` checks the keys of the event registry in its order (lines 166-171).
      When the registry was consistent under the previous check results, every key with events
      names a node and parents and children agree, the pass makes the whole registry consistent
      under the new results; otherwise it reports the first key with no node. */
  lemma {:induction false} EventCheckRestores(sys: System, before: Probe, probe: Probe)
    requires Wf(sys) && Linked(sys.nodes.vals) && AllConsistent(sys, before)
    ensures var r := CheckEach(sys, probe, sys.events.keys);
      r.error.None? <==> forall k | k in sys.events.vals :: k in sys.nodes.vals
    ensures var r := CheckEach(sys, probe, sys.events.keys);
      r.error.None? ==> AllConsistent(r.sys, probe)
  {
    var r := CheckEach(sys, probe, sys.events.keys);
    if r.error.None? {
      forall k | k in r.sys.nodes.vals
        ensures Consistent(r.sys, probe, k)
      {
        if k !in sys.events.keys {
          ProbeIrrelevant(sys, before, probe, k);
        }
        CheckEachRepairs(sys, probe, sys.events.keys, k);
      }
    }
  }
}
