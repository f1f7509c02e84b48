/** Run-time registration on the node registry: red dots added after start-up, UI nodes
    attached to and detached from red dots, and counts (RedDotSystem.ts lines 175-206 and
    348-414). */
module NodeRegistry {
  import opened Outcomes
  import opened OrderedMaps
  import opened RedDotModel

  // ---------------------------------------------------------------- AddRedDotNode

  /** `parentKey ? this._registerMap.get(parentKey) : null` (line 188): no key and the empty
      key are falsy, and a key that is not registered finds nothing. */
  function ParentNamed(nodes: OMap<Key, Node>, parentKey: Option<Key>): Option<Key> {
    if parentKey.Some? && parentKey.value != "" && parentKey.value in nodes.vals then parentKey else None
  }

  /** Lines 191-202: a fresh node under `p`, added to `p`'s children and registered last. */
  function Attach(nodes: OMap<Key, Node>, key: Key, p: Option<Key>): (r: OMap<Key, Node>)
    requires Valid(nodes) && key !in nodes.vals && (p.Some? ==> p.value in nodes.vals)
    ensures Valid(r) && r.keys == nodes.keys + [key]
  {
    var linked := if p.Some? then Put(nodes, p.value, nodes.vals[p.value].(children := Adjoin(nodes.vals[p.value].children, key)))
      else nodes;
    Put(linked, key, FreshNode(p))
  }

  /** What a successful registration of `key` under `p` does to the engine: `key` is registered
      last as a fresh node whose parent is `p`, `p` gains `key` as a child, and nothing else
      changes. */
  ghost predicate Added(before: System, after: System, key: Key, p: Option<Key>) {
    && Valid(before.nodes)
    && after.events == before.events && after.pool == before.pool
    && after.nodes.keys == before.nodes.keys + [key]
    && after.nodes.vals.Keys == before.nodes.vals.Keys + {key}
    && after.nodes.vals[key] == FreshNode(p)
    && (forall k | k in before.nodes.vals && Some(k) != p :: after.nodes.vals[k] == before.nodes.vals[k])
    && (p.Some? ==>
          && p.value in before.nodes.vals
          && after.nodes.vals[p.value] == before.nodes.vals[p.value].(children := Adjoin(before.nodes.vals[p.value].children, key)))
  }

  /** `AddRedDotNode(key, parentKey)` as written (lines 181-206). An already registered key is
      refused; without a registered parent the call dereferences `null` or `undefined` at
      line 200 and throws, so the default `parentKey = null` always fails. */
  function AddRedDotNode(sys: System, key: Key, parentKey: Option<Key>): (r: Result<Reply<bool>>)
    requires Valid(sys.nodes)
    ensures r.Err? <==> key !in sys.nodes.vals && ParentNamed(sys.nodes, parentKey).None?
    ensures r.Err? ==> r.error == TypeError
    ensures r.Ok? ==> (r.value.value <==> key !in sys.nodes.vals)
    ensures r.Ok? && !r.value.value ==> r.value.sys == sys
    ensures r.Ok? && r.value.value ==> Added(sys, r.value.sys, key, parentKey)
  {
    if key in sys.nodes.vals then Ok(Reply(false, sys))
    else
      match ParentNamed(sys.nodes, parentKey)
      case None => Err(TypeError)
      case Some(p) => Ok(Reply(true, sys.(nodes := Attach(sys.nodes, key, Some(p)))))
  }

  /** `AddRedDotNode` as evidently intended: with no parent key (the default) or the empty key
      the new red dot becomes a root; only a named but unregistered parent is still an error. */
  function AddRedDotNodeIntended(sys: System, key: Key, parentKey: Option<Key>): (r: Result<Reply<bool>>)
    requires Valid(sys.nodes)
    ensures r.Err? <==> key !in sys.nodes.vals && parentKey.Some? && parentKey.value != "" && parentKey.value !in sys.nodes.vals
    ensures r.Ok? ==> (r.value.value <==> key !in sys.nodes.vals)
    ensures r.Ok? && !r.value.value ==> r.value.sys == sys
    ensures r.Ok? && r.value.value ==> Added(sys, r.value.sys, key, ParentNamed(sys.nodes, parentKey))
  {
    if key in sys.nodes.vals then Ok(Reply(false, sys))
    else if parentKey.Some? && parentKey.value != "" && parentKey.value !in sys.nodes.vals then Err(TypeError)
    else Ok(Reply(true, sys.(nodes := Attach(sys.nodes, key, ParentNamed(sys.nodes, parentKey)))))
  }

  /** As written, adding a new red dot without a parent always throws; the intended version
      registers it as a root. */
  lemma AddRootFails(sys: System, key: Key)
    requires Valid(sys.nodes) && key !in sys.nodes.vals
    ensures AddRedDotNode(sys, key, None) == Err(TypeError)
    ensures AddRedDotNodeIntended(sys, key, None).Ok?
    ensures var r := AddRedDotNodeIntended(sys, key, None).value;
      r.value && key in r.sys.nodes.vals && r.sys.nodes.vals[key].parent == None
  {
  }

  /** Whenever the as-written operation succeeds, the intended one does the same. */
  lemma AddAgrees(sys: System, key: Key, parentKey: Option<Key>)
    requires Valid(sys.nodes) && AddRedDotNode(sys, key, parentKey).Ok?
    ensures AddRedDotNodeIntended(sys, key, parentKey) == AddRedDotNode(sys, key, parentKey)
  {
  }

  /** Registering a node keeps every old key in its place and puts the new one last. */
  lemma AddedPos(before: System, after: System, key: Key, p: Option<Key>)
    requires Valid(before.nodes) && key !in before.nodes.vals && Added(before, after, key, p)
    ensures Valid(after.nodes)
    ensures forall x | x in before.nodes.vals :: x in after.nodes.vals && Pos(after.nodes, x) == Pos(before.nodes, x)
    ensures key in after.nodes.vals && Pos(after.nodes, key) == |before.nodes.keys|
  {
    var a, b := before.nodes, after.nodes;
    assert Valid(b) by {
      assert forall i | 0 <= i < |a.keys| :: a.keys[i] != key;
    }
    forall x | x in a.vals ensures x in b.vals && Pos(b, x) == Pos(a, x) {
      IndexOfUnique(b.keys, Pos(a, x));
    }
    IndexOfUnique(b.keys, |a.keys|);
  }

  lemma AddedLinks(before: System, after: System, key: Key, p: Option<Key>)
    requires Valid(before.nodes) && ParentsPrecede(before.nodes) && ChildrenFollow(before.nodes)
    requires key !in before.nodes.vals && Added(before, after, key, p)
    ensures Valid(after.nodes) && ParentsPrecede(after.nodes) && ChildrenFollow(after.nodes)
  {
    AddedPos(before, after, key, p);
    AddedParents(before, after, key, p);
    AddedChildren(before, after, key, p);
  }

  lemma AddedParents(before: System, after: System, key: Key, p: Option<Key>)
    requires Valid(before.nodes) && ParentsPrecede(before.nodes)
    requires key !in before.nodes.vals && Added(before, after, key, p) && Valid(after.nodes)
    requires forall x | x in before.nodes.vals :: x in after.nodes.vals && Pos(after.nodes, x) == Pos(before.nodes, x)
    requires key in after.nodes.vals && Pos(after.nodes, key) == |before.nodes.keys|
    ensures ParentsPrecede(after.nodes)
  {
    var a, b := before.nodes, after.nodes;
    forall k | k in b.vals && b.vals[k].parent.Some?
      ensures b.vals[k].parent.value in b.vals && Pos(b, b.vals[k].parent.value) <= Pos(b, k)
    {
      if k == key {
        assert b.vals[k].parent == p;
        assert Pos(b, p.value) == Pos(a, p.value);
      } else {
        assert k in a.vals;
        if Some(k) == p {
          assert b.vals[k].parent == a.vals[k].parent;
        } else {
          assert b.vals[k] == a.vals[k];
        }
        var q := a.vals[k].parent.value;
        assert q in a.vals && Pos(a, q) <= Pos(a, k);
      }
    }
  }

  lemma AddedChildren(before: System, after: System, key: Key, p: Option<Key>)
    requires Valid(before.nodes) && ChildrenFollow(before.nodes)
    requires key !in before.nodes.vals && Added(before, after, key, p) && Valid(after.nodes)
    requires forall x | x in before.nodes.vals :: x in after.nodes.vals && Pos(after.nodes, x) == Pos(before.nodes, x)
    requires key in after.nodes.vals && Pos(after.nodes, key) == |before.nodes.keys|
    ensures ChildrenFollow(after.nodes)
  {
    var a, b := before.nodes, after.nodes;
    forall k | k in b.vals
      ensures NoDups(b.vals[k].children)
      ensures forall c | c in b.vals[k].children :: c in b.vals && Pos(b, k) <= Pos(b, c)
    {
      if k != key && Some(k) != p {
        assert b.vals[k] == a.vals[k];
      }
    }
  }

  /** A fresh node holds no badge, so registering it changes no badge count. */
  lemma AddedHeld(before: System, after: System, key: Key, p: Option<Key>)
    requires key !in before.nodes.vals && Added(before, after, key, p)
    ensures AllBadges(after) == AllBadges(before)
  {
    var a, b := before.nodes, after.nodes;
    assert forall k | k in a.vals :: b.vals[k].bindings == a.vals[k].bindings;
    assert key !in a.keys;
    HeldAllExtended(a.vals, b.vals, a.keys, key);
    assert Held(b.vals[key].bindings) == multiset{};
  }

  /** The badges held after a new key joins the order: those held before and the new node's. */
  lemma HeldAllExtended(a: map<Key, Node>, b: map<Key, Node>, keys: seq<Key>, key: Key)
    requires key !in keys && key !in a && b.Keys == a.Keys + {key}
    requires forall k | k in a :: b[k].bindings == a[k].bindings
    ensures HeldAll(b, keys + [key]) == HeldAll(a, keys) + Held(b[key].bindings)
  {
    var rest := b - {key};
    HeldAllSameBindings(a, rest, keys);
    assert b == rest[key := b[key]];
    HeldAllNewKey(rest, keys, key, b[key]);
  }

  lemma AddedBadges(before: System, after: System, key: Key, p: Option<Key>)
    requires TargetsDistinct(before.nodes.vals) && BadgesOk(before)
    requires key !in before.nodes.vals && Added(before, after, key, p)
    ensures TargetsDistinct(after.nodes.vals) && BadgesOk(after)
  {
    AddedHeld(before, after, key, p);
    assert forall k | k in before.nodes.vals :: after.nodes.vals[k].bindings == before.nodes.vals[k].bindings;
  }

  /** Registering a node under a registered parent (or none) keeps the engine invariant. */
  lemma AddedWf(before: System, after: System, key: Key, p: Option<Key>)
    requires Wf(before) && key !in before.nodes.vals && Added(before, after, key, p)
    ensures Wf(after)
  {
    AddedLinks(before, after, key, p);
    AddedBadges(before, after, key, p);
  }

  /** `AddRedDotNode` keeps the engine invariant. */
  lemma AddRedDotNodeWf(sys: System, key: Key, parentKey: Option<Key>)
    requires Wf(sys) && AddRedDotNode(sys, key, parentKey).Ok?
    ensures Wf(AddRedDotNode(sys, key, parentKey).value.sys)
  {
    if key !in sys.nodes.vals {
      AddedWf(sys, AddRedDotNode(sys, key, parentKey).value.sys, key, parentKey);
    }
  }

  /** A node registered under its parent is listed among that parent's children. */
  lemma AddedLinked(before: System, after: System, key: Key, p: Option<Key>)
    requires Linked(before.nodes.vals) && key !in before.nodes.vals && Added(before, after, key, p)
    ensures Linked(after.nodes.vals)
  {
    var a, b := before.nodes.vals, after.nodes.vals;
    forall x, c | x in b && c in b[x].children && x != c ensures c in b && b[c].parent == Some(x) {
      if !(Some(x) == p && c == key) {
        assert x != key;
        assert c in a[x].children;
        assert b[c].parent == a[c].parent;
      }
    }
  }

  /** `AddRedDotNode` keeps every child listed by its parent. */
  lemma AddRedDotNodeLinked(sys: System, key: Key, parentKey: Option<Key>)
    requires Valid(sys.nodes) && Linked(sys.nodes.vals) && AddRedDotNode(sys, key, parentKey).Ok?
    ensures Linked(AddRedDotNode(sys, key, parentKey).value.sys.nodes.vals)
  {
    if key !in sys.nodes.vals {
      AddedLinked(sys, AddRedDotNode(sys, key, parentKey).value.sys, key, parentKey);
    }
  }

  // ---------------------------------------------------------------- UI nodes

  /** Some binding of the list is for the UI node `t`. */
  predicate Bound(bs: seq<Binding>, t: Target) {
    exists i | 0 <= i < |bs| :: bs[i].target == t
  }

  /** The engine with the bindings of the registered node `key` replaced. */
  function WithBindings(sys: System, key: Key, bs: seq<Binding>): (r: System)
    requires Valid(sys.nodes) && key in sys.nodes.vals
    ensures Valid(r.nodes) && SameLinks(sys.nodes, r.nodes)
    ensures r.events == sys.events && r.pool == sys.pool
    ensures r.nodes.vals == sys.nodes.vals[key := sys.nodes.vals[key].(bindings := bs)]
  {
    sys.(nodes := Put(sys.nodes, key, sys.nodes.vals[key].(bindings := bs)))
  }

  /** `RegisterNode(key, node)` (lines 353-379): an unregistered key is dereferenced and throws;
      a UI node already attached is refused; otherwise the UI node is attached last, without a
      badge. */
  function RegisterNode(sys: System, key: Key, target: Target): (r: Result<Reply<bool>>)
    requires Valid(sys.nodes)
    ensures r.Err? <==> key !in sys.nodes.vals
    ensures r.Err? ==> r.error == TypeError
    ensures r.Ok? ==> (r.value.value <==> !Bound(sys.nodes.vals[key].bindings, target))
    ensures r.Ok? ==> key in r.value.sys.nodes.vals && Bound(r.value.sys.nodes.vals[key].bindings, target)
    ensures r.Ok? && !r.value.value ==> r.value.sys == sys
    ensures r.Ok? && r.value.value ==>
      var bs, bs' := sys.nodes.vals[key].bindings, r.value.sys.nodes.vals[key].bindings;
      |bs'| == |bs| + 1 && bs'[..|bs|] == bs && bs'[|bs|].badge.None? &&
      r.value.sys == WithBindings(sys, key, bs')
  {
    if key !in sys.nodes.vals then Err(TypeError)
    else
      var bs := sys.nodes.vals[key].bindings;
      match FindTarget(bs, target)
      case Some(_) => Ok(Reply(false, sys))
      case None =>
        var bs' := bs + [Binding(target, None)];
        assert bs'[|bs|].target == target;
        Ok(Reply(true, WithBindings(sys, key, bs')))
  }

  /** `recoverUINode` (lines 519-527) on a binding that is dropped: its badge, if any, goes back
      to the pool. */
  function Recover(pool: Pool, b: Binding): Pool {
    Recycle(pool, b.badge)
  }

  /** `UnRegisterNode(key, node)` (lines 382-403): the first binding of the UI node is removed
      and its badge recycled; an unknown key or UI node changes nothing. */
  function UnRegisterNode(sys: System, key: Key, target: Target): (r: Reply<bool>)
    requires Valid(sys.nodes)
    ensures r.value <==> key in sys.nodes.vals && Bound(sys.nodes.vals[key].bindings, target)
    ensures !r.value ==> r.sys == sys
    ensures r.value ==> key in r.sys.nodes.vals
    ensures r.value ==>
      var bs, bs' := sys.nodes.vals[key].bindings, r.sys.nodes.vals[key].bindings;
      exists i | 0 <= i < |bs| ::
        && bs[i].target == target && bs' == bs[..i] + bs[i + 1..]
        && (forall j | 0 <= j < i :: bs[j].target != target)
        && r.sys == WithBindings(sys, key, bs').(pool := Recover(sys.pool, bs[i]))
  {
    if key !in sys.nodes.vals then Reply(false, sys)
    else
      var bs := sys.nodes.vals[key].bindings;
      match FindTarget(bs, target)
      case None => Reply(false, sys)
      case Some(i) =>
        var bs' := bs[..i] + bs[i + 1..];
        Reply(true, WithBindings(sys, key, bs').(pool := Recover(sys.pool, bs[i])))
  }

  /** Attaching a UI node and detaching it again restores the engine exactly. */
  lemma RegisterThenUnregister(sys: System, key: Key, target: Target)
    requires Valid(sys.nodes) && RegisterNode(sys, key, target).Ok? && RegisterNode(sys, key, target).value.value
    ensures UnRegisterNode(RegisterNode(sys, key, target).value.sys, key, target) == Reply(true, sys)
  {
    var bs := sys.nodes.vals[key].bindings;
    var s1 := RegisterNode(sys, key, target).value.sys;
    var bs' := s1.nodes.vals[key].bindings;
    assert FindTarget(bs', target) == Some(|bs|);
    assert bs'[..|bs|] + bs'[|bs| + 1..] == bs;
    assert s1.nodes.vals[key := s1.nodes.vals[key].(bindings := bs)] == sys.nodes.vals;
  }

  /** After detaching, the UI node is no longer attached to the red dot. */
  lemma UnRegisterNodeUnbinds(sys: System, key: Key, target: Target)
    requires Valid(sys.nodes) && TargetsDistinct(sys.nodes.vals) && key in sys.nodes.vals
    ensures !Bound(UnRegisterNode(sys, key, target).sys.nodes.vals[key].bindings, target)
  {
    var bs := sys.nodes.vals[key].bindings;
    if Bound(bs, target) {
      var i := FindTarget(bs, target).value;
      var bs' := bs[..i] + bs[i + 1..];
      forall j | 0 <= j < |bs'| ensures bs'[j].target != target {
        if j < i {
          assert bs'[j] == bs[j];
        } else {
          assert bs'[j] == bs[j + 1];
        }
      }
    }
  }

  /** Attaching a UI node keeps the engine invariant. */
  lemma RegisterNodeWf(sys: System, key: Key, target: Target)
    requires Wf(sys) && RegisterNode(sys, key, target).Ok?
    ensures Wf(RegisterNode(sys, key, target).value.sys)
  {
    var r := RegisterNode(sys, key, target).value;
    if r.value {
      var bs, bs' := sys.nodes.vals[key].bindings, r.sys.nodes.vals[key].bindings;
      SameLinksKeep(sys.nodes, r.sys.nodes);
      RegisteredTargets(sys.nodes.vals, key, bs, bs'[|bs|]);
      assert bs' == bs + [bs'[|bs|]];
      RegisteredBadges(sys, key, bs');
    }
  }

  lemma RegisteredTargets(vals: map<Key, Node>, key: Key, bs: seq<Binding>, b: Binding)
    requires TargetsDistinct(vals) && key in vals && vals[key].bindings == bs
    requires forall i | 0 <= i < |bs| :: bs[i].target != b.target
    ensures TargetsDistinct(vals[key := vals[key].(bindings := bs + [b])])
  {
  }

  /** Replacing a node's bindings by ones holding the same badges keeps the badge count. */
  lemma SameHeldBadges(sys: System, key: Key, bs': seq<Binding>)
    requires Valid(sys.nodes) && key in sys.nodes.vals && Held(bs') == Held(sys.nodes.vals[key].bindings)
    ensures AllBadges(WithBindings(sys, key, bs')) == AllBadges(sys)
  {
    var n := sys.nodes.vals[key].(bindings := bs');
    HeldAllUpdate(sys.nodes.vals, sys.nodes.keys, key, n);
    MultisetCancel(HeldAll(sys.nodes.vals[key := n], sys.nodes.keys), HeldAll(sys.nodes.vals, sys.nodes.keys), Held(bs'));
  }

  lemma RegisteredBadges(sys: System, key: Key, bs': seq<Binding>)
    requires Valid(sys.nodes) && BadgesOk(sys) && key in sys.nodes.vals
    requires var bs := sys.nodes.vals[key].bindings; |bs'| == |bs| + 1 && bs' == bs + [bs'[|bs|]] && bs'[|bs|].badge.None?
    ensures BadgesOk(WithBindings(sys, key, bs'))
  {
    var bs := sys.nodes.vals[key].bindings;
    HeldConcat(bs, [bs'[|bs|]]);
    assert Held([bs'[|bs|]]) == multiset{} by {
      assert [bs'[|bs|]][1..] == [];
    }
    SameHeldBadges(sys, key, bs');
  }

  /** Detaching a UI node keeps the engine invariant. */
  lemma UnRegisterNodeWf(sys: System, key: Key, target: Target)
    requires Wf(sys)
    ensures Wf(UnRegisterNode(sys, key, target).sys)
  {
    var r := UnRegisterNode(sys, key, target);
    if r.value {
      var bs := sys.nodes.vals[key].bindings;
      var i := FindTarget(bs, target).value;
      var bs' := bs[..i] + bs[i + 1..];
      var mid := WithBindings(sys, key, bs');
      assert r.sys == mid.(pool := Recover(sys.pool, bs[i]));
      SameLinksKeep(sys.nodes, r.sys.nodes);
      RemovedTargets(sys.nodes.vals, key, i);
      RemovedBadges(sys, key, i);
    }
  }

  lemma RemovedTargets(vals: map<Key, Node>, key: Key, i: nat)
    requires TargetsDistinct(vals) && key in vals && i < |vals[key].bindings|
    ensures var bs := vals[key].bindings;
      TargetsDistinct(vals[key := vals[key].(bindings := bs[..i] + bs[i + 1..])])
  {
    var bs := vals[key].bindings;
    var bs' := bs[..i] + bs[i + 1..];
    forall a, b | 0 <= a < b < |bs'| ensures bs'[a].target != bs'[b].target {
      var a', b' := if a < i then a else a + 1, if b < i then b else b + 1;
      assert bs'[a] == bs[a'] && bs'[b] == bs[b'];
    }
  }

  /** Removing a binding removes exactly its badge from the engine's badges. */
  lemma RemovedHeld(sys: System, key: Key, i: nat)
    requires Valid(sys.nodes) && key in sys.nodes.vals && i < |sys.nodes.vals[key].bindings|
    ensures var bs := sys.nodes.vals[key].bindings;
      AllBadges(WithBindings(sys, key, bs[..i] + bs[i + 1..])) + BadgeOf(bs[i]) == AllBadges(sys)
  {
    var bs := sys.nodes.vals[key].bindings;
    var bs' := bs[..i] + bs[i + 1..];
    var n := sys.nodes.vals[key].(bindings := bs');
    HeldRemove(bs, i);
    HeldAllUpdate(sys.nodes.vals, sys.nodes.keys, key, n);
    var after, before := HeldAll(sys.nodes.vals[key := n], sys.nodes.keys), HeldAll(sys.nodes.vals, sys.nodes.keys);
    assert after + BadgeOf(bs[i]) + Held(bs') == before + Held(bs');
    MultisetCancel(after + BadgeOf(bs[i]), before, Held(bs'));
  }

  lemma RemovedBadges(sys: System, key: Key, i: nat)
    requires Valid(sys.nodes) && BadgesOk(sys) && key in sys.nodes.vals && i < |sys.nodes.vals[key].bindings|
    ensures var bs := sys.nodes.vals[key].bindings;
      BadgesOk(WithBindings(sys, key, bs[..i] + bs[i + 1..]).(pool := Recover(sys.pool, bs[i])))
  {
    var bs := sys.nodes.vals[key].bindings;
    var mid := WithBindings(sys, key, bs[..i] + bs[i + 1..]);
    var r := mid.(pool := Recover(sys.pool, bs[i]));
    RemovedHeld(sys, key, i);
    if bs[i].badge.Some? {
      HeldNotFree(sys, key, i);
      assert multiset(r.pool.free) == multiset(sys.pool.free) + BadgeOf(bs[i]);
    }
    assert AllBadges(r) == AllBadges(mid) + BadgeOf(bs[i]);
  }

  // ---------------------------------------------------------------- counts

  /** `setRedDotCount(key, count)` (lines 405-414): the count of a registered red dot is
      replaced (`count || 0` turns only a falsy count into 0, which is the same integer). */
  function SetRedDotCount(sys: System, key: Key, count: int): (r: Reply<bool>)
    requires Valid(sys.nodes)
    ensures r.value <==> key in sys.nodes.vals
    ensures !r.value ==> r.sys == sys
    ensures r.value ==> Valid(r.sys.nodes) && r.sys.nodes.keys == sys.nodes.keys && r.sys.nodes.vals.Keys == sys.nodes.vals.Keys
    ensures r.value ==> r.sys.nodes.vals[key].count == count
    ensures r.value ==> r.sys.nodes.vals[key].(count := 0) == sys.nodes.vals[key].(count := 0)
    ensures forall k | k in sys.nodes.vals && k != key :: r.sys.nodes.vals[k] == sys.nodes.vals[k]
    ensures r.sys.events == sys.events && r.sys.pool == sys.pool
  {
    if key !in sys.nodes.vals then Reply(false, sys)
    else Reply(true, sys.(nodes := Put(sys.nodes, key, sys.nodes.vals[key].(count := count))))
  }

  /** The last count set wins. */
  lemma SetRedDotCountTwice(sys: System, key: Key, a: int, b: int)
    requires Valid(sys.nodes)
    ensures SetRedDotCount(SetRedDotCount(sys, key, a).sys, key, b) == SetRedDotCount(sys, key, b)
  {
    if key in sys.nodes.vals {
      var s1 := SetRedDotCount(sys, key, a).sys;
      assert s1.nodes.vals[key := s1.nodes.vals[key].(count := b)] == sys.nodes.vals[key := sys.nodes.vals[key].(count := b)];
    }
  }

  /** Setting a count keeps the engine invariant. */
  lemma SetRedDotCountWf(sys: System, key: Key, count: int)
    requires Wf(sys)
    ensures Wf(SetRedDotCount(sys, key, count).sys)
  {
    var r := SetRedDotCount(sys, key, count);
    if r.value {
      SameLinksKeep(sys.nodes, r.sys.nodes);
      HeldAllSameBindings(sys.nodes.vals, r.sys.nodes.vals, sys.nodes.keys);
      assert AllBadges(r.sys) == AllBadges(sys);
    }
  }
}
