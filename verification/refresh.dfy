/** `refreshRedDot`, `recoverUINode`, `refreshRedDotCount` and `RefreshAll`: showing and hiding
    the badges of the UI nodes bound to each red dot, and the count pass. */
module Refresh {
  import opened Outcomes
  import opened OrderedMaps
  import opened RedDotModel

  /** The handles `lo`, ..., `hi - 1`: the badges minted while the pool grew from `lo` to `hi`. */
  function Range(lo: nat, hi: nat): (m: multiset<Handle>)
    ensures forall h :: m[h] == if lo <= h < hi then 1 else 0
    decreases hi - lo
  {
    if hi <= lo then multiset{} else Range(lo, hi - 1) + multiset{hi - 1}
  }

  /** Badges minted after `bound` are new to a collection of badges below it. */
  lemma RangeUnique(m: multiset<Handle>, lo: nat, hi: nat)
    requires UniqueBelow(m, lo) && lo <= hi
    ensures UniqueBelow(m + Range(lo, hi), hi)
  {
    forall h | h in m + Range(lo, hi)
      ensures (m + Range(lo, hi))[h] == 1 && h < hi
    {
      if h in m {
        assert h < lo;
      }
    }
  }

  /** Two bindings lists bind the same UI nodes, in the same order. */
  ghost predicate SameTargets(a: seq<Binding>, b: seq<Binding>) {
    |a| == |b| && forall i | 0 <= i < |a| :: a[i].target == b[i].target
  }

  // ---------------------------------------------------------------- showing badges

  /** One UI node of an on-node (lines 465-473): a node already showing a badge keeps it;
      otherwise it takes one from the pool. */
  function Show(b: Binding, pool: Pool): (r: (Binding, Pool))
    ensures r.0.target == b.target && r.0.badge.Some?
    ensures b.badge.Some? ==> r == (b, pool)
    ensures b.badge.None? ==> r.1 == Take(pool).1 && r.0.badge == Some(Take(pool).0)
  {
    if b.badge.Some? then (b, pool)
    else
      var (h, pool') := Take(pool);
      (b.(badge := Some(h)), pool')
  }

  /** `shown` binds the UI nodes of `bs`, each showing a badge, and keeps the badges already shown. */
  ghost predicate ShownFrom(bs: seq<Binding>, shown: seq<Binding>) {
    && |shown| == |bs|
    && forall i | 0 <= i < |bs| ::
         shown[i].target == bs[i].target && shown[i].badge.Some? && (bs[i].badge.Some? ==> shown[i] == bs[i])
  }

  lemma ShownCons(bs: seq<Binding>, b: Binding, rest: seq<Binding>)
    requires bs != [] && b.target == bs[0].target && b.badge.Some? && (bs[0].badge.Some? ==> b == bs[0])
    requires ShownFrom(bs[1..], rest)
    ensures ShownFrom(bs, [b] + rest)
  {
    var shown := [b] + rest;
    assert forall i | 1 <= i < |shown| :: shown[i] == rest[i - 1] && bs[i] == bs[1..][i - 1];
  }

  /** The loop of lines 464-483 over the UI nodes of an on-node, in order. */
  function ShowAll(bs: seq<Binding>, pool: Pool): (r: (seq<Binding>, Pool))
    ensures ShownFrom(bs, r.0)
    ensures pool.minted <= r.1.minted
    ensures Held(r.0) + multiset(r.1.free) == Held(bs) + multiset(pool.free) + Range(pool.minted, r.1.minted)
  {
    if bs == [] then ([], pool)
    else
      var first := Show(bs[0], pool);
      var rest := ShowAll(bs[1..], first.1);
      ShowAllBadges(bs, pool, first.0, first.1, rest.0, rest.1);
      ShownCons(bs, first.0, rest.0);
      ([first.0] + rest.0, rest.1)
  }

  /** The badge bookkeeping of one step of `ShowAll`. */
  lemma ShowAllBadges(bs: seq<Binding>, pool: Pool, b: Binding, pool1: Pool, rest: seq<Binding>, pool2: Pool)
    requires bs != [] && (b, pool1) == Show(bs[0], pool)
    requires pool1.minted <= pool2.minted
    requires Held(rest) + multiset(pool2.free) == Held(bs[1..]) + multiset(pool1.free) + Range(pool1.minted, pool2.minted)
    ensures pool.minted <= pool2.minted
    ensures Held([b] + rest) + multiset(pool2.free) == Held(bs) + multiset(pool.free) + Range(pool.minted, pool2.minted)
  {
    HeldCons(b, rest);
    assert bs == [bs[0]] + bs[1..];
    HeldCons(bs[0], bs[1..]);
    ShowBadge(bs[0], pool);
    RangeSplit(pool.minted, pool1.minted, pool2.minted);
    Telescope(BadgeOf(b), Held(rest), BadgeOf(bs[0]), Held(bs[1..]), multiset(pool.free), multiset(pool1.free),
      multiset(pool2.free), Range(pool.minted, pool1.minted), Range(pool1.minted, pool2.minted));
  }

  lemma RangeSplit(lo: nat, mid: nat, hi: nat)
    requires lo <= mid <= hi
    ensures Range(lo, hi) == Range(lo, mid) + Range(mid, hi)
  {
    assert forall h :: Range(lo, hi)[h] == (Range(lo, mid) + Range(mid, hi))[h];
  }

  /** Two exchanges of badges chained: what the first step and the rest of a pass take and give. */
  lemma Telescope(b: multiset<Handle>, x: multiset<Handle>, c: multiset<Handle>, y: multiset<Handle>,
                  f0: multiset<Handle>, f1: multiset<Handle>, f2: multiset<Handle>, r01: multiset<Handle>, r12: multiset<Handle>)
    requires x + f2 == y + f1 + r12
    requires b + f1 == c + f0 + r01
    ensures b + x + f2 == c + y + f0 + (r01 + r12)
  {
    forall h
      ensures (b + x + f2)[h] == (c + y + f0 + (r01 + r12))[h]
    {
      assert (x + f2)[h] == (y + f1 + r12)[h];
      assert (b + f1)[h] == (c + f0 + r01)[h];
    }
  }

  /** Showing one UI node moves at most one badge off the pool, or mints it. */
  lemma ShowBadge(b: Binding, pool: Pool)
    ensures var (b', pool') := Show(b, pool);
      && pool.minted <= pool'.minted
      && BadgeOf(b') + multiset(pool'.free) == BadgeOf(b) + multiset(pool.free) + Range(pool.minted, pool'.minted)
  {
    var (b', pool') := Show(b, pool);
    if b.badge.None? {
      var lhs := BadgeOf(b') + multiset(pool'.free);
      var rhs := BadgeOf(b) + multiset(pool.free) + Range(pool.minted, pool'.minted);
      forall h
        ensures lhs[h] == rhs[h]
      {
        assert (multiset(pool'.free) + multiset{Take(pool).0})[h] ==
               (multiset(pool.free) + (if pool.free == [] then multiset{pool.minted} else multiset{}))[h];
      }
      assert lhs == rhs;
    } else {
      assert Range(pool.minted, pool.minted) == multiset{};
    }
  }

  // ---------------------------------------------------------------- hiding badges

  /** `recoverUINode` (lines 519-527): a UI node showing a badge returns it to the pool and
      shows none. */
  function Hide(b: Binding, pool: Pool): (r: (Binding, Pool))
    ensures r.0 == b.(badge := None)
    ensures r.1 == Recycle(pool, b.badge)
  {
    (b.(badge := None), Recycle(pool, b.badge))
  }

  /** The loop of lines 486-488 over the UI nodes of an off-node, in order. When no badge is
      shared, every badge shown goes back to the pool. */
  function HideAll(bs: seq<Binding>, pool: Pool): (r: (seq<Binding>, Pool))
    ensures HiddenFrom(bs, r.0)
    ensures r.1.minted == pool.minted
    ensures UniqueBelow(Held(bs) + multiset(pool.free), pool.minted) ==>
              multiset(r.1.free) == multiset(pool.free) + Held(bs)
  {
    if bs == [] then ([], pool)
    else
      var first := Hide(bs[0], pool);
      var rest := HideAll(bs[1..], first.1);
      HideAllBadges(bs, pool, first.1, rest.1);
      HiddenCons(bs, rest.0);
      ([first.0] + rest.0, rest.1)
  }

  /** `hidden` binds the UI nodes of `bs`, none showing a badge. */
  ghost predicate HiddenFrom(bs: seq<Binding>, hidden: seq<Binding>) {
    |hidden| == |bs| && forall i | 0 <= i < |bs| :: hidden[i] == Binding(bs[i].target, None)
  }

  lemma HiddenCons(bs: seq<Binding>, rest: seq<Binding>)
    requires bs != [] && HiddenFrom(bs[1..], rest)
    ensures HiddenFrom(bs, [bs[0].(badge := None)] + rest)
  {
    var hidden := [bs[0].(badge := None)] + rest;
    assert forall i | 1 <= i < |hidden| :: hidden[i] == rest[i - 1] && bs[i] == bs[1..][i - 1];
  }

  /** Bindings that show no badge hold none. */
  lemma {:induction false} HeldNone(bs: seq<Binding>)
    requires forall i | 0 <= i < |bs| :: bs[i].badge.None?
    ensures Held(bs) == multiset{}
  {
    if bs != [] {
      HeldNone(bs[1..]);
    }
  }

  lemma HideAllBadges(bs: seq<Binding>, pool: Pool, pool1: Pool, pool2: Pool)
    requires bs != [] && pool1 == Recycle(pool, bs[0].badge)
    requires UniqueBelow(Held(bs[1..]) + multiset(pool1.free), pool1.minted) ==>
               multiset(pool2.free) == multiset(pool1.free) + Held(bs[1..])
    ensures UniqueBelow(Held(bs) + multiset(pool.free), pool.minted) ==>
              multiset(pool2.free) == multiset(pool.free) + Held(bs)
  {
    assert bs == [bs[0]] + bs[1..];
    HeldCons(bs[0], bs[1..]);
    if UniqueBelow(Held(bs) + multiset(pool.free), pool.minted) {
      RecycleUnique(pool, bs[0], Held(bs[1..]));
    }
  }

  /** Recycling the badge of a binding whose badge is counted once among all badges moves it
      from the held ones to the free ones. */
  lemma RecycleUnique(pool: Pool, b: Binding, rest: multiset<Handle>)
    requires UniqueBelow(BadgeOf(b) + rest + multiset(pool.free), pool.minted)
    ensures var pool1 := Recycle(pool, b.badge);
      && pool1.minted == pool.minted
      && multiset(pool1.free) == multiset(pool.free) + BadgeOf(b)
      && rest + multiset(pool1.free) == BadgeOf(b) + rest + multiset(pool.free)
  {
    var m := BadgeOf(b) + rest + multiset(pool.free);
    if b.badge.Some? {
      var h := b.badge.value;
      assert m[h] == 1;
      assert h !in pool.free;
    }
  }

  // ---------------------------------------------------------------- one red dot

  /** Every UI node bound to the red dot shows a badge exactly when the red dot is on. */
  ghost predicate NodeSettled(n: Node) {
    forall i | 0 <= i < |n.bindings| :: n.bindings[i].badge.Some? <==> n.isOn
  }

  /** The bindings and pool after refreshing one red dot in the given state (lines 458-490). */
  function Refreshed(n: Node, pool: Pool, state: bool): (r: (seq<Binding>, Pool))
    ensures state ==> ShownFrom(n.bindings, r.0)
    ensures !state ==> HiddenFrom(n.bindings, r.0)
  {
    if state then ShowAll(n.bindings, pool) else HideAll(n.bindings, pool)
  }

  /** The second state differs from the first only in the badges shown and the pool, and every
      badge it knows of was known to the first or minted since. */
  ghost predicate OnlyBadges(a: System, b: System) {
    && b.events == a.events
    && SameLinks(a.nodes, b.nodes)
    && (forall k | k in a.nodes.vals ::
          && b.nodes.vals[k] == a.nodes.vals[k].(bindings := b.nodes.vals[k].bindings)
          && SameTargets(a.nodes.vals[k].bindings, b.nodes.vals[k].bindings))
    && a.pool.minted <= b.pool.minted
    && AllBadges(b) == AllBadges(a) + Range(a.pool.minted, b.pool.minted)
  }

  lemma OnlyBadgesRefl(a: System)
    ensures OnlyBadges(a, a)
  {
    assert Range(a.pool.minted, a.pool.minted) == multiset{};
    assert AllBadges(a) + multiset{} == AllBadges(a);
  }

  lemma OnlyBadgesTrans(a: System, b: System, c: System)
    requires OnlyBadges(a, b) && OnlyBadges(b, c)
    ensures OnlyBadges(a, c)
  {
    RangeSplit(a.pool.minted, b.pool.minted, c.pool.minted);
    var ra := Range(a.pool.minted, b.pool.minted);
    var rb := Range(b.pool.minted, c.pool.minted);
    assert AllBadges(a) + ra + rb == AllBadges(a) + (ra + rb);
  }

  /** Changing shown badges alone keeps the invariant, as long as badges are conserved. */
  lemma OnlyBadgesWf(a: System, b: System)
    requires Wf(a) && OnlyBadges(a, b)
    ensures Wf(b)
  {
    SameLinksKeep(a.nodes, b.nodes);
    RangeUnique(AllBadges(a), a.pool.minted, b.pool.minted);
    assert TargetsDistinct(b.nodes.vals) by {
      forall k, i, j | k in b.nodes.vals && 0 <= i < j < |b.nodes.vals[k].bindings|
        ensures b.nodes.vals[k].bindings[i].target != b.nodes.vals[k].bindings[j].target
      {
        assert b.nodes.vals[k].bindings[i].target == a.nodes.vals[k].bindings[i].target;
        assert b.nodes.vals[k].bindings[j].target == a.nodes.vals[k].bindings[j].target;
      }
    }
  }

  /** The same system with one node's bindings and the pool replaced. */
  function WithBadges(sys: System, key: Key, bs: seq<Binding>, pool: Pool): (r: System)
    requires Valid(sys.nodes) && key in sys.nodes.vals
    ensures SameLinks(sys.nodes, r.nodes) && r.events == sys.events && r.pool == pool
    ensures r.nodes.vals[key] == sys.nodes.vals[key].(bindings := bs)
    ensures forall k | k in sys.nodes.vals && k != key :: r.nodes.vals[k] == sys.nodes.vals[k]
  {
    sys.(nodes := Put(sys.nodes, key, sys.nodes.vals[key].(bindings := bs)), pool := pool)
  }

  /** Replacing one node's bindings and the pool adds `extra` to the system's badges when the
      node and the pool together gain exactly `extra`. */
  lemma WithBadgesCount(sys: System, key: Key, bs: seq<Binding>, pool: Pool, extra: multiset<Handle>)
    requires Valid(sys.nodes) && key in sys.nodes.vals
    requires Held(bs) + multiset(pool.free) == Held(sys.nodes.vals[key].bindings) + multiset(sys.pool.free) + extra
    ensures AllBadges(WithBadges(sys, key, bs, pool)) == AllBadges(sys) + extra
  {
    var after := WithBadges(sys, key, bs, pool);
    var old_ := Held(sys.nodes.vals[key].bindings);
    var ha := HeldAll(sys.nodes.vals, sys.nodes.keys);
    var ha' := HeldAll(after.nodes.vals, after.nodes.keys);
    HeldAllUpdate(sys.nodes.vals, sys.nodes.keys, key, sys.nodes.vals[key].(bindings := bs));
    assert ha' + old_ == ha + Held(bs);
    forall h
      ensures (ha' + multiset(pool.free))[h] == (ha + multiset(sys.pool.free) + extra)[h]
    {
      assert (ha' + old_)[h] == (ha + Held(bs))[h];
      assert (Held(bs) + multiset(pool.free))[h] == (old_ + multiset(sys.pool.free) + extra)[h];
    }
    assert AllBadges(after) == ha' + multiset(pool.free);
  }

  /** `refreshRedDot(node, state)` (lines 458-490) on the node under `key`: when `state` holds
      every bound UI node shows a badge, the one it showed or one taken from the pool or newly
      minted; otherwise every badge goes back to the pool. Nothing else changes. */
  function RefreshRedDot(sys: System, key: Key, state: bool): (r: System)
    requires Wf(sys) && key in sys.nodes.vals
    ensures Wf(r) && OnlyBadges(sys, r)
    ensures state ==> ShownFrom(sys.nodes.vals[key].bindings, r.nodes.vals[key].bindings)
    ensures !state ==> HiddenFrom(sys.nodes.vals[key].bindings, r.nodes.vals[key].bindings)
    ensures !state ==> multiset(r.pool.free) == multiset(sys.pool.free) + Held(sys.nodes.vals[key].bindings)
    ensures forall k | k in sys.nodes.vals && k != key :: r.nodes.vals[k] == sys.nodes.vals[k]
  {
    var n := sys.nodes.vals[key];
    var rb := Refreshed(n, sys.pool, state);
    var r := WithBadges(sys, key, rb.0, rb.1);
    RefreshRedDotBadges(sys, key, state);
    assert SameTargets(n.bindings, rb.0);
    OnlyBadgesWf(sys, r);
    r
  }

  lemma RefreshRedDotBadges(sys: System, key: Key, state: bool)
    requires Wf(sys) && key in sys.nodes.vals
    ensures var rb := Refreshed(sys.nodes.vals[key], sys.pool, state);
      && sys.pool.minted <= rb.1.minted
      && AllBadges(WithBadges(sys, key, rb.0, rb.1)) == AllBadges(sys) + Range(sys.pool.minted, rb.1.minted)
      && (!state ==> multiset(rb.1.free) == multiset(sys.pool.free) + Held(sys.nodes.vals[key].bindings))
  {
    var n := sys.nodes.vals[key];
    var rb := Refreshed(n, sys.pool, state);
    if state {
      WithBadgesCount(sys, key, rb.0, rb.1, Range(sys.pool.minted, rb.1.minted));
    } else {
      HeldAtWithin(sys.nodes.vals, sys.nodes.keys, key);
      UniqueSub(Held(n.bindings) + multiset(sys.pool.free), AllBadges(sys), sys.pool.minted);
      assert Range(sys.pool.minted, rb.1.minted) == multiset{};
      HeldNone(rb.0);
      WithBadgesCount(sys, key, rb.0, rb.1, multiset{});
    }
  }

  /** Fewer badges are no less unique. */
  lemma UniqueSub(a: multiset<Handle>, b: multiset<Handle>, bound: nat)
    requires a <= b && UniqueBelow(b, bound)
    ensures UniqueBelow(a, bound)
  {
    forall h | h in a
      ensures a[h] == 1 && h < bound
    {
      assert a[h] <= b[h];
    }
  }

  /** A red dot refreshed in its own state is settled. */
  lemma RefreshedSettles(sys: System, key: Key)
    requires Wf(sys) && key in sys.nodes.vals
    ensures NodeSettled(RefreshRedDot(sys, key, sys.nodes.vals[key].isOn).nodes.vals[key])
  {
  }

  /** A settled red dot is left as it is. */
  lemma RefreshSettled(sys: System, key: Key)
    requires Wf(sys) && key in sys.nodes.vals && NodeSettled(sys.nodes.vals[key])
    ensures RefreshRedDot(sys, key, sys.nodes.vals[key].isOn) == sys
  {
    var n := sys.nodes.vals[key];
    var rb := Refreshed(n, sys.pool, n.isOn);
    NoChange(n.bindings, sys.pool, n.isOn);
    assert WithBadges(sys, key, rb.0, rb.1).nodes.vals == sys.nodes.vals;
  }

  lemma {:induction false} NoChange(bs: seq<Binding>, pool: Pool, state: bool)
    requires forall i | 0 <= i < |bs| :: bs[i].badge.Some? <==> state
    ensures (if state then ShowAll(bs, pool) else HideAll(bs, pool)) == (bs, pool)
  {
    if bs != [] {
      NoChange(bs[1..], pool, state);
      assert bs == [bs[0]] + bs[1..];
    }
  }

  // ---------------------------------------------------------------- counts

  /** Whether `refreshRedDotCount` recurses below a node (line 499). */
  predicate Counted(n: Node) {
    n.count > 0
  }

  /** `refreshRedDotCount(node)` (lines 497-517) on the node under `key`. Every call returns the
      sum of its children's results starting from 0, so the value is always 0; a node with a
      positive count that lists itself as a child recurses until the stack overflows. The label
      update at lines 508-513 needs a positive sum and never happens. */
  function RefreshCount(nodes: OMap<Key, Node>, key: Key): (r: Result<int>)
    requires Valid(nodes) && ChildrenFollow(nodes) && key in nodes.vals
    ensures r.Ok? ==> r.value == 0
    ensures r.Err? ==> r.error == RangeError
    decreases |nodes.keys| - Pos(nodes, key), |nodes.vals[key].children| + 1
  {
    if Counted(nodes.vals[key]) then CountChildren(nodes, key, nodes.vals[key].children) else Ok(0)
  }

  /** The loop of lines 502-505 over the children `cs` still to visit. */
  function CountChildren(nodes: OMap<Key, Node>, key: Key, cs: seq<Key>): (r: Result<int>)
    requires Valid(nodes) && ChildrenFollow(nodes) && key in nodes.vals
    requires forall c | c in cs :: c in nodes.vals[key].children
    ensures r.Ok? ==> r.value == 0
    ensures r.Err? ==> r.error == RangeError
    decreases |nodes.keys| - Pos(nodes, key), |cs|
  {
    if cs == [] then Ok(0)
    else if cs[0] == key then Err(RangeError)
    else
      match RefreshCount(nodes, cs[0])
      case Err(e) => Err(e)
      case Ok(n) =>
        match CountChildren(nodes, key, cs[1..])
        case Err(e) => Err(e)
        case Ok(m) => Ok(n + m)
  }

  /** A chain of counted nodes, each a child of the one before. */
  ghost predicate CountedChain(nodes: map<Key, Node>, path: seq<Key>) {
    && |path| >= 1
    && (forall i | 0 <= i < |path| :: path[i] in nodes && Counted(nodes[path[i]]))
    && (forall i | 0 <= i < |path| - 1 :: path[i + 1] in nodes[path[i]].children)
  }

  /** The count pass from `key` never ends: a chain of counted nodes leads from `key` to a
      counted node that is its own child. */
  ghost predicate Diverges(nodes: map<Key, Node>, key: Key) {
    exists path | CountedChain(nodes, path) && path[0] == key :: path[|path| - 1] in nodes[path[|path| - 1]].children
  }

  /** The count pass fails exactly when it diverges. */
  lemma {:induction false} RefreshCountFails(nodes: OMap<Key, Node>, key: Key)
    requires Valid(nodes) && ChildrenFollow(nodes) && key in nodes.vals
    ensures RefreshCount(nodes, key).Err? <==> Diverges(nodes.vals, key)
    decreases |nodes.keys| - Pos(nodes, key), |nodes.vals[key].children| + 1
  {
    var n := nodes.vals[key];
    if Counted(n) {
      CountChildrenFails(nodes, key, n.children);
      if Diverges(nodes.vals, key) {
        var path :| CountedChain(nodes.vals, path) && path[0] == key && path[|path| - 1] in nodes.vals[path[|path| - 1]].children;
        if |path| == 1 {
          assert key in n.children;
        } else {
          assert path[1] in n.children;
        }
      }
    }
  }

  /** The loop over `cs` fails exactly when `key` is among them or one of them diverges. */
  lemma {:induction false} CountChildrenFails(nodes: OMap<Key, Node>, key: Key, cs: seq<Key>)
    requires Valid(nodes) && ChildrenFollow(nodes) && key in nodes.vals && Counted(nodes.vals[key])
    requires forall c | c in cs :: c in nodes.vals[key].children
    ensures CountChildren(nodes, key, cs).Err? <==> key in cs || exists c | c in cs :: Diverges(nodes.vals, c)
    ensures (key in cs || exists c | c in cs :: Diverges(nodes.vals, c)) ==> Diverges(nodes.vals, key)
    ensures Diverges(nodes.vals, key) && cs == nodes.vals[key].children ==>
              key in cs || exists c | c in cs :: Diverges(nodes.vals, c)
    decreases |nodes.keys| - Pos(nodes, key), |cs|
  {
    if cs != [] {
      if cs[0] != key {
        RefreshCountFails(nodes, cs[0]);
      }
      CountChildrenFails(nodes, key, cs[1..]);
    }
    ExtendChainAll(nodes.vals, key, cs);
    if Diverges(nodes.vals, key) {
      DivergesStep(nodes.vals, key);
    }
  }

  /** A node listing itself, or a diverging node, among its children diverges too. */
  lemma ExtendChainAll(nodes: map<Key, Node>, key: Key, cs: seq<Key>)
    requires key in nodes && Counted(nodes[key]) && forall c | c in cs :: c in nodes[key].children
    ensures (key in cs || exists c | c in cs :: Diverges(nodes, c)) ==> Diverges(nodes, key)
  {
    if key in cs {
      assert CountedChain(nodes, [key]);
    } else if exists c | c in cs :: Diverges(nodes, c) {
      var c :| c in cs && Diverges(nodes, c);
      ExtendChain(nodes, key, c);
    }
  }

  /** A diverging node lists itself or a diverging node among its children. */
  lemma DivergesStep(nodes: map<Key, Node>, key: Key)
    requires key in nodes && Diverges(nodes, key)
    ensures key in nodes[key].children || exists c | c in nodes[key].children :: Diverges(nodes, c)
  {
    var path :| CountedChain(nodes, path) && path[0] == key && path[|path| - 1] in nodes[path[|path| - 1]].children;
    if |path| > 1 {
      ChainTail(nodes, path);
      assert path[1] in nodes[key].children && Diverges(nodes, path[1]);
    }
  }

  /** A counted node whose child diverges diverges too. */
  lemma ExtendChain(nodes: map<Key, Node>, key: Key, c: Key)
    requires key in nodes && Counted(nodes[key]) && c in nodes[key].children && Diverges(nodes, c)
    ensures Diverges(nodes, key)
  {
    var path :| CountedChain(nodes, path) && path[0] == c && path[|path| - 1] in nodes[path[|path| - 1]].children;
    var longer := [key] + path;
    assert longer[|longer| - 1] == path[|path| - 1];
    assert CountedChain(nodes, longer) by {
      forall i | 0 <= i < |longer| - 1
        ensures longer[i + 1] in nodes[longer[i]].children
      {
        if i > 0 {
          assert longer[i + 1] == path[i] && longer[i] == path[i - 1];
        }
      }
    }
  }

  /** A diverging chain of length two or more: its second node diverges as well. */
  lemma ChainTail(nodes: map<Key, Node>, path: seq<Key>)
    requires CountedChain(nodes, path) && |path| > 1 && path[|path| - 1] in nodes[path[|path| - 1]].children
    ensures Diverges(nodes, path[1])
  {
    var rest := path[1..];
    assert rest[|rest| - 1] == path[|path| - 1];
    assert CountedChain(nodes, rest) by {
      forall i | 0 <= i < |rest| - 1
        ensures rest[i + 1] in nodes[rest[i]].children
      {
        assert rest[i + 1] == path[i + 2] && rest[i] == path[i + 1];
      }
    }
  }

  // ---------------------------------------------------------------- all red dots

  /** The `forEach` of `RefreshAll` (lines 541-549) over the keys `ks` still to visit: each red
      dot is refreshed in its own state, then its count pass runs; a count pass that overflows
      the stack ends the loop after its red dot was refreshed. */
  function RefreshFrom(sys: System, ks: seq<Key>): (r: Run)
    requires Wf(sys) && forall k | k in ks :: k in sys.nodes.vals
    ensures Wf(r.sys) && OnlyBadges(sys, r.sys)
    ensures forall k | k in sys.nodes.vals && k !in ks :: r.sys.nodes.vals[k] == sys.nodes.vals[k]
    ensures r.error.Some? ==> r.error.value == RangeError
    decreases |ks|
  {
    if ks == [] then
      OnlyBadgesRefl(sys);
      Run(sys, None)
    else
      var next := RefreshRedDot(sys, ks[0], sys.nodes.vals[ks[0]].isOn);
      match RefreshCount(next.nodes, ks[0])
      case Err(e) => Run(next, Some(e))
      case Ok(_) =>
        var r := RefreshFrom(next, ks[1..]);
        OnlyBadgesTrans(sys, next, r.sys);
        r
  }

  /** `RefreshAll()` (lines 530-550): refreshes every red dot in registration order. */
  function RefreshAll(sys: System): (r: Run)
    requires Wf(sys)
    ensures Wf(r.sys) && OnlyBadges(sys, r.sys)
    ensures r.error.Some? ==> r.error.value == RangeError
  {
    RefreshFrom(sys, sys.nodes.keys)
  }

  /** Refreshing the keys `ks` settles each of them, unless a count pass overflows the stack. */
  lemma {:induction false} RefreshFromSettles(sys: System, ks: seq<Key>)
    requires Wf(sys) && NoDups(ks) && forall k | k in ks :: k in sys.nodes.vals
    ensures var r := RefreshFrom(sys, ks);
      r.error.None? ==> forall k | k in ks :: NodeSettled(r.sys.nodes.vals[k])
    decreases |ks|
  {
    if ks != [] {
      var next := RefreshRedDot(sys, ks[0], sys.nodes.vals[ks[0]].isOn);
      RefreshedSettles(sys, ks[0]);
      if RefreshCount(next.nodes, ks[0]).Ok? {
        assert NoDups(ks[1..]);
        RefreshFromSettles(next, ks[1..]);
        assert ks[0] !in ks[1..];
        var r := RefreshFrom(next, ks[1..]);
        assert r.sys.nodes.vals[ks[0]] == next.nodes.vals[ks[0]];
      }
    }
  }

  /** The count pass fails somewhere exactly when some red dot diverges. */
  lemma {:induction false} RefreshFromFails(sys: System, ks: seq<Key>)
    requires Wf(sys) && forall k | k in ks :: k in sys.nodes.vals
    ensures RefreshFrom(sys, ks).error.Some? <==> exists k | k in ks :: Diverges(sys.nodes.vals, k)
    decreases |ks|
  {
    if ks != [] {
      var next := RefreshRedDot(sys, ks[0], sys.nodes.vals[ks[0]].isOn);
      RefreshCountFails(next.nodes, ks[0]);
      DivergesSameLinks(sys.nodes.vals, next.nodes.vals, ks[0]);
      if RefreshCount(next.nodes, ks[0]).Ok? {
        RefreshFromFails(next, ks[1..]);
        assert RefreshFrom(sys, ks) == RefreshFrom(next, ks[1..]);
        forall k | k in ks[1..]
          ensures Diverges(next.nodes.vals, k) == Diverges(sys.nodes.vals, k)
        {
          DivergesSameLinks(sys.nodes.vals, next.nodes.vals, k);
        }
        assert forall k :: k in ks <==> k == ks[0] || k in ks[1..];
      }
    }
  }

  /** Divergence reads links and counts only. */
  lemma DivergesSameLinks(a: map<Key, Node>, b: map<Key, Node>, key: Key)
    requires a.Keys == b.Keys
    requires forall k | k in a :: b[k].children == a[k].children && b[k].count == a[k].count
    ensures Diverges(b, key) == Diverges(a, key)
  {
    if Diverges(a, key) {
      var path :| CountedChain(a, path) && path[0] == key && path[|path| - 1] in a[path[|path| - 1]].children;
      assert CountedChain(b, path);
    }
    if Diverges(b, key) {
      var path :| CountedChain(b, path) && path[0] == key && path[|path| - 1] in b[path[|path| - 1]].children;
      assert CountedChain(a, path);
    }
  }

  /** `RefreshAll` settles every red dot exactly when no count pass diverges. */
  lemma RefreshAllSettles(sys: System)
    requires Wf(sys)
    ensures RefreshAll(sys).error.None? <==> forall k | k in sys.nodes.vals :: !Diverges(sys.nodes.vals, k)
    ensures RefreshAll(sys).error.None? ==> Settled(RefreshAll(sys).sys.nodes.vals)
  {
    RefreshFromFails(sys, sys.nodes.keys);
    RefreshFromSettles(sys, sys.nodes.keys);
  }

  /** Refreshing settled red dots changes nothing. */
  lemma {:induction false} RefreshFromSettled(sys: System, ks: seq<Key>)
    requires Wf(sys) && Settled(sys.nodes.vals) && forall k | k in ks :: k in sys.nodes.vals
    ensures RefreshFrom(sys, ks).sys == sys
    decreases |ks|
  {
    if ks != [] {
      RefreshSettled(sys, ks[0]);
      RefreshFromSettled(sys, ks[1..]);
    }
  }

  /** `RefreshAll` is idempotent: a second pass right after a complete one changes nothing. */
  lemma RefreshAllIdempotent(sys: System)
    requires Wf(sys) && RefreshAll(sys).error.None?
    ensures RefreshAll(RefreshAll(sys).sys).sys == RefreshAll(sys).sys
  {
    RefreshAllSettles(sys);
    RefreshFromSettled(RefreshAll(sys).sys, RefreshAll(sys).sys.nodes.keys);
  }
}
