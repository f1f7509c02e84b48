/** The periodic tick `_doEventCheck`, and what it guarantees from the tree `initRedDotTree`
    builds onwards. */
module Engine {
  import opened Outcomes
  import opened OrderedMaps
  import opened RedDotModel
  import opened PriorityTree
  import opened TreeBuild
  import opened StateCheck
  import opened Refresh

  /** Some key with registered checks names no red dot. */
  ghost predicate Dangling(sys: System) {
    exists k | k in sys.events.vals :: k !in sys.nodes.vals
  }

  /** Some red dot's count pass never ends. */
  ghost predicate AnyDiverges(sys: System) {
    exists k | k in sys.nodes.vals :: Diverges(sys.nodes.vals, k)
  }

  /** `_doEventCheck()` (lines 166-173), run by the timer every second: re-checks every key of
      the event registry, in its order, then refreshes every red dot. A key with no red dot
      throws a `TypeError` before the refresh; a diverging count pass throws a `RangeError`. */
  function DoEventCheck(sys: System, probe: Probe): (r: Run)
    requires Wf(sys)
    ensures Wf(r.sys)
    ensures r.sys.events == sys.events && SameLinks(sys.nodes, r.sys.nodes)
    ensures forall k | k in sys.nodes.vals :: r.sys.nodes.vals[k].count == sys.nodes.vals[k].count
    ensures r.error == Some(TypeError) <==> Dangling(sys)
    ensures r.error == Some(RangeError) <==> !Dangling(sys) && AnyDiverges(sys)
    ensures r.error.None? <==> !Dangling(sys) && !AnyDiverges(sys)
  {
    var checked := CheckEach(sys, probe, sys.events.keys);
    OnlyStatesWf(sys, checked.sys);
    if checked.error.Some? then checked
    else
      var r := RefreshAll(checked.sys);
      DoEventCheckFails(sys, probe);
      r
  }

  /** When every key with checks names a red dot, the refresh fails exactly when some count
      pass diverges. */
  lemma DoEventCheckFails(sys: System, probe: Probe)
    requires Wf(sys)
    ensures var checked := CheckEach(sys, probe, sys.events.keys);
      && (checked.error.None? <==> !Dangling(sys))
      && (checked.error.None? ==> (RefreshAll(checked.sys).error.Some? <==> AnyDiverges(sys)))
  {
    var checked := CheckEach(sys, probe, sys.events.keys);
    assert forall k :: k in sys.events.keys <==> k in sys.events.vals;
    if checked.error.None? {
      RefreshAllSettles(checked.sys);
      DivergesOnlyStates(sys, checked.sys);
    }
  }

  /** Changing states alone changes no count pass. */
  lemma DivergesOnlyStates(a: System, b: System)
    requires OnlyStates(a, b)
    ensures AnyDiverges(b) <==> AnyDiverges(a)
  {
    forall k | k in a.nodes.vals
      ensures Diverges(b.nodes.vals, k) == Diverges(a.nodes.vals, k)
    {
      DivergesSameLinks(a.nodes.vals, b.nodes.vals, k);
    }
  }

  /** Showing and hiding badges does not change what any red dot should show. */
  lemma ConsistentOnlyBadges(a: System, b: System, probe: Probe, k: Key)
    requires OnlyBadges(a, b) && Consistent(a, probe, k)
    ensures Consistent(b, probe, k)
  {
    if k in a.nodes.vals {
      var cs := a.nodes.vals[k].children;
      assert b.nodes.vals[k].children == cs;
      assert forall i | 0 <= i < |cs| :: (cs[i] in b.nodes.vals && b.nodes.vals[cs[i]].isOn) == (cs[i] in a.nodes.vals && a.nodes.vals[cs[i]].isOn);
      assert ChildOn(b.nodes.vals, cs) == ChildOn(a.nodes.vals, cs);
    }
  }

  /** The tick theorem: when parents and children agree, the red dots were consistent under the
      previous check results, every key with checks names a red dot and no count pass diverges,
      a tick completes and leaves every red dot consistent under the new results, with exactly
      the UI nodes of on-nodes showing badges. */
  lemma TickRestores(sys: System, before: Probe, probe: Probe)
    requires Wf(sys) && Linked(sys.nodes.vals) && AllConsistent(sys, before)
    requires !Dangling(sys) && !AnyDiverges(sys)
    ensures var r := DoEventCheck(sys, probe);
      && r.error.None?
      && AllConsistent(r.sys, probe)
      && Settled(r.sys.nodes.vals)
      && Linked(r.sys.nodes.vals)
  {
    var checked := CheckEach(sys, probe, sys.events.keys);
    EventCheckRestores(sys, before, probe);
    OnlyStatesWf(sys, checked.sys);
    DoEventCheckFails(sys, probe);
    var r := RefreshAll(checked.sys);
    assert DoEventCheck(sys, probe) == r;
    RefreshAllSettles(checked.sys);
    forall k | k in r.sys.nodes.vals
      ensures Consistent(r.sys, probe, k)
    {
      ConsistentOnlyBadges(checked.sys, r.sys, probe, k);
    }
    SameLinksKeep(checked.sys.nodes, r.sys.nodes);
  }

  /** A consistent red dot's check stores the state it already has. */
  lemma CheckIdle(sys: System, probe: Probe, key: Key)
    requires Wf(sys) && key in sys.nodes.vals && Consistent(sys, probe, key)
    ensures DoEventStateCheck(sys, probe, key, false) == Ok(Reply(sys.nodes.vals[key].isOn, sys))
  {
    var n := sys.nodes.vals[key];
    assert n.(isOn := n.isOn) == n;
    assert sys.nodes.vals[key := n] == sys.nodes.vals;
    assert SetOn(sys, key, n.isOn) == sys;
  }

  lemma {:induction false} CheckEachIdle(sys: System, probe: Probe, ks: seq<Key>)
    requires Wf(sys) && AllConsistent(sys, probe) && forall k | k in ks :: k in sys.nodes.vals
    ensures CheckEach(sys, probe, ks) == Run(sys, None)
    decreases |ks|
  {
    if ks != [] {
      CheckIdle(sys, probe, ks[0]);
      CheckEachIdle(sys, probe, ks[1..]);
    }
  }

  /** A tick with nothing to do is the identity: when every red dot is consistent and settled,
      it changes nothing. */
  lemma TickIdle(sys: System, probe: Probe)
    requires Wf(sys) && AllConsistent(sys, probe) && Settled(sys.nodes.vals)
    requires !Dangling(sys) && !AnyDiverges(sys)
    ensures DoEventCheck(sys, probe) == Run(sys, None)
  {
    CheckEachIdle(sys, probe, sys.events.keys);
    RefreshFromSettled(sys, sys.nodes.keys);
    DoEventCheckFails(sys, probe);
  }

  /** Check functions that all return 0. */
  function Silent(): Probe {
    (f: Func, t: Target) => 0
  }

  /** The tree `initRedDotTree` builds from a layered configuration is consistent, settled and
      linked, and no count pass diverges in it. */
  lemma InitQuiet(sys: System, cfg: seq<Entry>)
    requires ValidConfig(cfg) && sys.nodes == Empty() && Wf(sys) && Layered(cfg)
    ensures var r := InitRedDotTree(sys, cfg);
      && Wf(r) && Linked(r.nodes.vals) && AllConsistent(r, Silent()) && Settled(r.nodes.vals) && !AnyDiverges(r)
  {
    var r := InitRedDotTree(sys, cfg);
    InitWf(sys, cfg);
    InitLinked(sys, cfg);
    forall k | k in r.nodes.vals
      ensures Consistent(r, Silent(), k)
    {
      assert !ChildOn(r.nodes.vals, r.nodes.vals[k].children);
    }
    forall k | k in r.nodes.vals
      ensures !Diverges(r.nodes.vals, k)
    {
    }
  }

  /** From the configured tree, whatever the checks return: when every key with checks names a
      configured red dot, the first tick completes and leaves every red dot consistent and
      settled. */
  lemma FirstTick(sys: System, cfg: seq<Entry>, probe: Probe)
    requires ValidConfig(cfg) && sys.nodes == Empty() && Wf(sys) && Layered(cfg)
    requires forall k | k in sys.events.vals :: k in KeysOf(cfg)
    ensures Wf(InitRedDotTree(sys, cfg))
    ensures var r := DoEventCheck(InitRedDotTree(sys, cfg), probe);
      r.error.None? && AllConsistent(r.sys, probe) && Settled(r.sys.nodes.vals)
  {
    var init := InitRedDotTree(sys, cfg);
    InitQuiet(sys, cfg);
    TickRestores(init, Silent(), probe);
  }

  /** A registry in which `c` is its own parent while `a` lists it as a child, like the one
      `initRedDotTree` gives a key whose path skips a level, as in `1` and `1.1.1` (which also
      lists `c` among its own children), with one check registered under `c`. */
  function StaleExample(): System {
    System(
      OMap(["a", "c"], map["a" := Node(None, ["c"], false, 0, []), "c" := Node(Some("c"), [], false, 0, [])]),
      OMap(["c"], map["c" := [Event(0, 0, 0)]]),
      Pool([], 0))
  }

  lemma StaleExampleWf()
    ensures Wf(StaleExample())
  {
    StaleExampleValid();
    StaleExampleOrder();
    StaleExampleBadges();
    assert TargetsDistinct(StaleExample().nodes.vals);
  }

  lemma StaleExampleValid()
    ensures Valid(StaleExample().nodes) && Valid(StaleExample().events)
  {
    var nodes := StaleExample().nodes;
    assert "a" != "c" by {
      assert "a"[0] != "c"[0];
    }
    assert forall k :: k in nodes.keys <==> k == "a" || k == "c";
  }

  lemma StaleExampleOrder()
    ensures Valid(StaleExample().nodes)
    ensures ParentsPrecede(StaleExample().nodes) && ChildrenFollow(StaleExample().nodes)
  {
    var nodes := StaleExample().nodes;
    StaleExampleValid();
    assert Pos(nodes, "a") == 0;
    assert Pos(nodes, "c") == 1;
  }

  lemma StaleExampleBadges()
    ensures AllBadges(StaleExample()) == multiset{}
  {
    var nodes := StaleExample().nodes;
    HeldAllNone(nodes.vals, nodes.keys);
  }

  lemma StaleExampleQuiet()
    ensures AllConsistent(StaleExample(), Silent())
    ensures !Dangling(StaleExample()) && !AnyDiverges(StaleExample())
  {
  }

  /** Check functions that all return 1. */
  function Loud(): Probe {
    (f: Func, t: Target) => 1
  }

  /** The re-check loop of a tick on that registry with every check truthy turns `c` on and
      leaves `a` off. */
  lemma StaleExampleCheck()
    ensures Wf(StaleExample())
    ensures var r := CheckEach(StaleExample(), Loud(), StaleExample().events.keys);
      && r.error.None? && r.sys.nodes.vals["c"].isOn && !r.sys.nodes.vals["a"].isOn
      && r.sys.nodes.vals["a"].children == ["c"]
  {
    var sys, probe := StaleExample(), Loud();
    StaleExampleWf();
    assert Truthy(probe(sys.events.vals["c"][0].func, sys.events.vals["c"][0].target));
    var step := DoEventStateCheck(sys, probe, "c", false).value.sys;
    assert Ancestry(sys.nodes, "c") == {"c"};
    assert step.nodes.vals["c"].isOn && !step.nodes.vals["a"].isOn;
    assert CheckEach(sys, probe, sys.events.keys).sys == step by {
      assert sys.events.keys[1..] == [];
    }
  }

  /** A tick whose re-check loop completes goes on to the full refresh. */
  lemma TickAfterCheck(sys: System, probe: Probe)
    requires Wf(sys) && CheckEach(sys, probe, sys.events.keys).error.None?
    ensures var checked := CheckEach(sys, probe, sys.events.keys);
      Wf(checked.sys) && DoEventCheck(sys, probe) == RefreshAll(checked.sys)
  {
    OnlyStatesWf(sys, CheckEach(sys, probe, sys.events.keys).sys);
  }

  /** In that registry, turning `c` on leaves `a` off: the change never reaches the node that
      lists `c` as a child, and the tick ends with `a` inconsistent. */
  lemma SelfParentStaysStale()
    ensures Wf(StaleExample())
    ensures var r := DoEventCheck(StaleExample(), Loud());
      && r.error.None?
      && r.sys.nodes.vals["c"].isOn
      && !r.sys.nodes.vals["a"].isOn
      && !Consistent(r.sys, Loud(), "a")
  {
    var sys := StaleExample();
    StaleExampleCheck();
    StaleExampleQuiet();
    var checked := CheckEach(sys, Loud(), sys.events.keys);
    TickAfterCheck(sys, Loud());
    var r := RefreshAll(checked.sys);
    var a, c := r.sys.nodes.vals["a"], r.sys.nodes.vals["c"];
    assert a.isOn == checked.sys.nodes.vals["a"].isOn && a.children == ["c"];
    assert c.isOn == checked.sys.nodes.vals["c"].isOn;
    assert ChildOn(r.sys.nodes.vals, a.children) by {
      assert a.children[0] == "c";
    }
  }
}
