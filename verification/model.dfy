/** The state of the red-dot engine: the node registry, the event registry and the badge pool. */
module RedDotModel {
  import opened Outcomes
  import opened OrderedMaps

  /** A red-dot key (a key of the configuration, or one added at run time). */
  type Key = string
  /** The identity of an opaque object: a UI node, or the `target` an event is bound to. */
  type Target = nat
  /** The identity of a check-function object. */
  type Func = nat
  /** A registration id handed out by the id generator. */
  type EventId = nat
  /** A badge: a red-dot `cc.Node` taken from the pool or instantiated from the prototype. */
  type Handle = nat

  /** A UI node attached to a red dot, with the badge it currently shows, if any. */
  datatype Binding = Binding(target: Target, badge: Option<Handle>)

  /** A red-dot node. `parent` and `children` hold keys of the registry; `children`
      is a JavaScript `Set`, so it lists each child once, in insertion order.
      `count` is 0 until set (an absent count and 0 behave alike everywhere). */
  datatype Node = Node(parent: Option<Key>, children: seq<Key>, isOn: bool, count: int, bindings: seq<Binding>)

  /** A registered check: the check function, the object it is applied to, and its id. */
  datatype Event = Event(func: Func, target: Target, id: EventId)

  /** The badge pool: the free badges (a stack, taken from the end) and the number of
      badges instantiated so far, which are exactly the handles below `minted`. */
  datatype Pool = Pool(free: seq<Handle>, minted: nat)

  datatype System = System(nodes: OMap<Key, Node>, events: OMap<Key, seq<Event>>, pool: Pool)

  /** A value returned by an operation together with the state it leaves. */
  datatype Reply<+T> = Reply(value: T, sys: System)

  /** The state a run of the engine leaves, and the error that cut it short, if one did: an
      exception escapes with every change made before it in place. */
  datatype Run = Run(sys: System, error: Option<Error>)

  /** The node every registration creates: no children, off, no count and no UI node. */
  function FreshNode(parent: Option<Key>): Node {
    Node(parent, [], false, 0, [])
  }

  /** The evaluation of a check function applied to its target (`checkFunc.apply(target)`). */
  type Probe = (Func, Target) -> int

  /** A check result is truthy when it is not 0. */
  predicate Truthy(v: int) {
    v != 0
  }

  // ---------------------------------------------------------------- structure

  /** Every parent is a registered node at or before its child in registration order
      (at the same place only when a node is its own parent). */
  ghost predicate ParentsPrecede(nodes: OMap<Key, Node>)
    requires Valid(nodes)
  {
    forall k | k in nodes.vals && nodes.vals[k].parent.Some? ::
      nodes.vals[k].parent.value in nodes.vals && Pos(nodes, nodes.vals[k].parent.value) <= Pos(nodes, k)
  }

  /** Every child is a registered node at or after its parent in registration order. */
  ghost predicate ChildrenFollow(nodes: OMap<Key, Node>)
    requires Valid(nodes)
  {
    forall k | k in nodes.vals ::
      && NoDups(nodes.vals[k].children)
      && (forall c | c in nodes.vals[k].children :: c in nodes.vals && Pos(nodes, k) <= Pos(nodes, c))
  }

  /** A UI node is attached to a red dot at most once. */
  ghost predicate TargetsDistinct(nodes: map<Key, Node>) {
    forall k, i, j | k in nodes && 0 <= i < j < |nodes[k].bindings| ::
      nodes[k].bindings[i].target != nodes[k].bindings[j].target
  }

  /** `Set.prototype.add` on a child set: a member already present keeps its place, a new one
      goes last. */
  function Adjoin(s: seq<Key>, x: Key): (r: seq<Key>)
    ensures forall y :: y in r <==> y in s || y == x
    ensures NoDups(s) ==> NoDups(r)
    ensures x !in s ==> |r| == |s| + 1 && r[|s|] == x && r[..|s|] == s
  {
    if x in s then s else s + [x]
  }

  /** Every node that lists another node as its child is that child's parent. */
  ghost predicate Linked(nodes: map<Key, Node>) {
    forall a, c | a in nodes && c in nodes[a].children && a != c :: c in nodes && nodes[c].parent == Some(a)
  }

  /** `findIndex` of the binding of a UI node (lines 363 and 389). */
  function FindTarget(bs: seq<Binding>, t: Target): (r: Option<nat>)
    ensures r.Some? ==> r.value < |bs| && bs[r.value].target == t
    ensures r.Some? ==> forall j | 0 <= j < r.value :: bs[j].target != t
    ensures r.None? ==> forall j | 0 <= j < |bs| :: bs[j].target != t
  {
    if bs == [] then None
    else if bs[0].target == t then Some(0)
    else match FindTarget(bs[1..], t) case Some(i) => Some(i + 1) case None => None
  }

  // ---------------------------------------------------------------- badge pool

  /** `cc.NodePool.get()`, falling back to `cc.instantiate` (lines 466-469): the last free badge,
      or a newly minted one when the pool is empty. */
  function Take(pool: Pool): (r: (Handle, Pool))
    ensures pool.free != [] ==> r.0 == pool.free[|pool.free| - 1] && r.1 == Pool(pool.free[..|pool.free| - 1], pool.minted)
    ensures pool.free == [] ==> r.0 == pool.minted && r.1 == Pool([], pool.minted + 1)
    ensures multiset(r.1.free) + multiset{r.0} == multiset(pool.free) + (if pool.free == [] then multiset{pool.minted} else multiset{})
  {
    if pool.free == [] then (pool.minted, Pool([], pool.minted + 1))
    else
      var n := |pool.free| - 1;
      assert pool.free == pool.free[..n] + [pool.free[n]];
      (pool.free[n], Pool(pool.free[..n], pool.minted))
  }

  /** `cc.NodePool.put()` (line 524): a badge goes back on top of the free stack, unless it is
      there already. */
  function Recycle(pool: Pool, badge: Option<Handle>): (r: Pool)
    ensures r.minted == pool.minted
    ensures badge.None? || badge.value in pool.free ==> r == pool
    ensures badge.Some? && badge.value !in pool.free ==> r.free == pool.free + [badge.value]
  {
    if badge.Some? && badge.value !in pool.free then Pool(pool.free + [badge.value], pool.minted) else pool
  }

  // ---------------------------------------------------------------- badges

  function BadgeOf(b: Binding): multiset<Handle> {
    if b.badge.Some? then multiset{b.badge.value} else multiset{}
  }

  /** The badges held by a list of bindings. */
  function Held(bs: seq<Binding>): multiset<Handle> {
    if bs == [] then multiset{} else BadgeOf(bs[0]) + Held(bs[1..])
  }

  /** The badges held by the node under `k`, if there is one. */
  function HeldAt(vals: map<Key, Node>, k: Key): multiset<Handle> {
    if k in vals then Held(vals[k].bindings) else multiset{}
  }

  /** The badges held by the nodes under `keys`. */
  function HeldAll(vals: map<Key, Node>, keys: seq<Key>): multiset<Handle> {
    if keys == [] then multiset{}
    else HeldAt(vals, keys[0]) + HeldAll(vals, keys[1..])
  }

  /** Every badge the system knows of, held or free. */
  function AllBadges(sys: System): multiset<Handle> {
    HeldAll(sys.nodes.vals, sys.nodes.keys) + multiset(sys.pool.free)
  }

  /** Each handle occurs at most once and was minted already. */
  ghost predicate UniqueBelow(m: multiset<Handle>, bound: nat) {
    forall h | h in m :: m[h] == 1 && h < bound
  }

  /** No badge is held by two bindings, or held and free at once. */
  ghost predicate BadgesOk(sys: System) {
    UniqueBelow(AllBadges(sys), sys.pool.minted)
  }

  /** The invariant every operation of the engine preserves. */
  ghost predicate Wf(sys: System) {
    && Valid(sys.nodes)
    && Valid(sys.events)
    && ParentsPrecede(sys.nodes)
    && ChildrenFollow(sys.nodes)
    && TargetsDistinct(sys.nodes.vals)
    && BadgesOk(sys)
  }

  /** Every binding of an on-node shows a badge and no binding of an off-node does. */
  ghost predicate Settled(nodes: map<Key, Node>) {
    forall k, i | k in nodes && 0 <= i < |nodes[k].bindings| ::
      nodes[k].bindings[i].badge.Some? <==> nodes[k].isOn
  }

  // ---------------------------------------------------------------- badge lemmas

  lemma {:induction false} HeldConcat(a: seq<Binding>, b: seq<Binding>)
    ensures Held(a + b) == Held(a) + Held(b)
  {
    if a == [] {
      assert a + b == b;
    } else {
      assert (a + b)[1..] == a[1..] + b;
      HeldConcat(a[1..], b);
    }
  }

  lemma MultisetCancel(a: multiset<Handle>, b: multiset<Handle>, x: multiset<Handle>)
    requires a + x == b + x
    ensures a == b
  {
    assert forall h :: a[h] == (a + x)[h] - x[h] && b[h] == (b + x)[h] - x[h];
  }

  /** Adding the same badges on both sides of an equation. */
  lemma UnionShift(a: multiset<Handle>, t: multiset<Handle>, t2: multiset<Handle>, x: multiset<Handle>, y: multiset<Handle>)
    requires t2 + x == t + y
    ensures a + t2 + x == a + t + y
  {
    assert a + t2 + x == a + (t2 + x);
  }

  lemma HeldCons(b: Binding, bs: seq<Binding>)
    ensures Held([b] + bs) == BadgeOf(b) + Held(bs)
  {
    assert ([b] + bs)[1..] == bs;
  }

  /** Replacing one binding swaps its badge for the new one's. */
  lemma {:induction false} HeldUpdate(bs: seq<Binding>, i: nat, b: Binding)
    requires i < |bs|
    ensures Held(bs[i := b]) + BadgeOf(bs[i]) == Held(bs) + BadgeOf(b)
  {
    assert bs == [bs[0]] + bs[1..];
    if i == 0 {
      assert bs[i := b] == [b] + bs[1..];
      HeldCons(b, bs[1..]);
    } else {
      var rest := bs[1..][i - 1 := b];
      assert bs[i := b] == [bs[0]] + rest;
      HeldCons(bs[0], rest);
      HeldUpdate(bs[1..], i - 1, b);
      UnionShift(BadgeOf(bs[0]), Held(bs[1..]), Held(rest), BadgeOf(bs[i]), BadgeOf(b));
    }
  }

  /** Removing one binding drops exactly its badge. */
  lemma HeldRemove(bs: seq<Binding>, i: nat)
    requires i < |bs|
    ensures Held(bs[..i] + bs[i + 1..]) + BadgeOf(bs[i]) == Held(bs)
  {
    var pre, mid, post := bs[..i], bs[i..], bs[i + 1..];
    SplitAt(bs, i);
    HeldConcat(pre, post);
    HeldConcat(pre, mid);
    assert Held(mid) == BadgeOf(bs[i]) + Held(post);
  }

  lemma SplitAt(bs: seq<Binding>, i: nat)
    requires i < |bs|
    ensures bs == bs[..i] + bs[i..]
    ensures bs[i..][0] == bs[i] && bs[i..][1..] == bs[i + 1..]
  {
  }

  lemma {:induction false} HeldAllOther(vals: map<Key, Node>, keys: seq<Key>, k: Key, n: Node)
    requires k !in keys
    ensures HeldAll(vals[k := n], keys) == HeldAll(vals, keys)
  {
    if keys != [] {
      HeldAllOther(vals, keys[1..], k, n);
    }
  }

  lemma HeldAllCons(vals: map<Key, Node>, k: Key, keys: seq<Key>)
    ensures HeldAll(vals, [k] + keys) == HeldAt(vals, k) + HeldAll(vals, keys)
  {
    assert ([k] + keys)[1..] == keys;
  }

  /** Replacing one node's bindings swaps the badges they hold. */
  lemma {:induction false} HeldAllUpdate(vals: map<Key, Node>, keys: seq<Key>, k: Key, n: Node)
    requires NoDups(keys) && k in keys && k in vals
    ensures HeldAll(vals[k := n], keys) + Held(vals[k].bindings) == HeldAll(vals, keys) + Held(n.bindings)
  {
    assert keys == [keys[0]] + keys[1..];
    HeldAllCons(vals, keys[0], keys[1..]);
    HeldAllCons(vals[k := n], keys[0], keys[1..]);
    if keys[0] == k {
      assert k !in keys[1..] by {
        forall j | 0 <= j < |keys[1..]| ensures keys[1..][j] != k {
          assert keys[1..][j] == keys[j + 1];
        }
      }
      HeldAllOther(vals, keys[1..], k, n);
    } else {
      assert k in keys[1..] by {
        var j := IndexOf(keys, k);
        assert keys[1..][j - 1] == k;
      }
      HeldAllUpdate(vals, keys[1..], k, n);
      assert HeldAt(vals[k := n], keys[0]) == HeldAt(vals, keys[0]);
      UnionShift(HeldAt(vals, keys[0]), HeldAll(vals, keys[1..]), HeldAll(vals[k := n], keys[1..]),
        Held(vals[k].bindings), Held(n.bindings));
    }
  }

  /** Nodes whose key is not iterated hold nothing. */
  lemma {:induction false} HeldAllNewKey(vals: map<Key, Node>, keys: seq<Key>, k: Key, n: Node)
    requires k !in keys
    ensures HeldAll(vals[k := n], keys + [k]) == HeldAll(vals, keys) + Held(n.bindings)
  {
    if keys == [] {
      assert ([] + [k])[1..] == [];
    } else {
      assert (keys + [k])[1..] == keys[1..] + [k];
      HeldAllNewKey(vals, keys[1..], k, n);
    }
  }

  /** Nodes with no bindings hold no badges. */
  lemma {:induction false} HeldAllNone(vals: map<Key, Node>, keys: seq<Key>)
    requires forall k | k in vals :: vals[k].bindings == []
    ensures HeldAll(vals, keys) == multiset{}
  {
    if keys != [] {
      HeldAllNone(vals, keys[1..]);
    }
  }

  /** Nodes that keep their bindings keep their badges. */
  lemma {:induction false} HeldAllSameBindings(a: map<Key, Node>, b: map<Key, Node>, keys: seq<Key>)
    requires a.Keys == b.Keys && forall k | k in a :: a[k].bindings == b[k].bindings
    ensures HeldAll(a, keys) == HeldAll(b, keys)
  {
    if keys != [] {
      HeldAllSameBindings(a, b, keys[1..]);
    }
  }

  /** The badges of one node are among the badges of all nodes. */
  lemma {:induction false} HeldAtWithin(vals: map<Key, Node>, keys: seq<Key>, k: Key)
    requires k in keys
    ensures HeldAt(vals, k) <= HeldAll(vals, keys)
  {
    if keys[0] != k {
      HeldAtWithin(vals, keys[1..], k);
    }
  }

  /** A badge held by a binding of a node is not free as well. */
  lemma HeldNotFree(sys: System, k: Key, i: nat)
    requires Valid(sys.nodes) && BadgesOk(sys) && k in sys.nodes.vals
    requires i < |sys.nodes.vals[k].bindings| && sys.nodes.vals[k].bindings[i].badge.Some?
    ensures sys.nodes.vals[k].bindings[i].badge.value !in sys.pool.free
  {
    var bs := sys.nodes.vals[k].bindings;
    var h := bs[i].badge.value;
    HeldRemove(bs, i);
    HeldAtWithin(sys.nodes.vals, sys.nodes.keys, k);
    var held := HeldAll(sys.nodes.vals, sys.nodes.keys);
    assert h in held;
    assert AllBadges(sys)[h] == held[h] + multiset(sys.pool.free)[h];
    assert AllBadges(sys)[h] == 1;
    assert multiset(sys.pool.free)[h] == 0;
  }

  // ---------------------------------------------------------------- structure lemmas

  /** Two registries with the same keys, in the same order, and the same links. */
  ghost predicate SameLinks(a: OMap<Key, Node>, b: OMap<Key, Node>) {
    && a.keys == b.keys
    && a.vals.Keys == b.vals.Keys
    && forall k | k in a.vals :: b.vals[k].parent == a.vals[k].parent && b.vals[k].children == a.vals[k].children
  }

  lemma SameLinksPos(a: OMap<Key, Node>, b: OMap<Key, Node>)
    requires Valid(a) && SameLinks(a, b)
    ensures Valid(b)
    ensures forall k | k in a.vals :: Pos(b, k) == Pos(a, k)
  {
  }

  lemma SameLinksParents(a: OMap<Key, Node>, b: OMap<Key, Node>)
    requires Valid(a) && SameLinks(a, b) && ParentsPrecede(a)
    ensures Valid(b) && ParentsPrecede(b)
  {
    SameLinksPos(a, b);
    forall k | k in b.vals && b.vals[k].parent.Some?
      ensures b.vals[k].parent.value in b.vals && Pos(b, b.vals[k].parent.value) <= Pos(b, k)
    {
      assert b.vals[k].parent == a.vals[k].parent;
    }
  }

  lemma SameLinksChildren(a: OMap<Key, Node>, b: OMap<Key, Node>)
    requires Valid(a) && SameLinks(a, b) && ChildrenFollow(a)
    ensures Valid(b) && ChildrenFollow(b)
  {
    SameLinksPos(a, b);
    forall k | k in b.vals
      ensures NoDups(b.vals[k].children)
      ensures forall c | c in b.vals[k].children :: c in b.vals && Pos(b, k) <= Pos(b, c)
    {
      assert b.vals[k].children == a.vals[k].children;
    }
  }

  lemma SameLinksLinked(a: OMap<Key, Node>, b: OMap<Key, Node>)
    requires SameLinks(a, b) && Linked(a.vals)
    ensures Linked(b.vals)
  {
    forall x, c | x in b.vals && c in b.vals[x].children && x != c
      ensures c in b.vals && b.vals[c].parent == Some(x)
    {
      assert c in a.vals[x].children;
    }
  }

  /** The structural part of the invariant depends on keys and links only. */
  lemma SameLinksKeep(a: OMap<Key, Node>, b: OMap<Key, Node>)
    requires Valid(a) && SameLinks(a, b)
    ensures Valid(b)
    ensures ParentsPrecede(a) ==> ParentsPrecede(b)
    ensures ChildrenFollow(a) ==> ChildrenFollow(b)
    ensures Linked(a.vals) ==> Linked(b.vals)
  {
    SameLinksPos(a, b);
    if ParentsPrecede(a) {
      SameLinksParents(a, b);
    }
    if ChildrenFollow(a) {
      SameLinksChildren(a, b);
    }
    if Linked(a.vals) {
      SameLinksLinked(a, b);
    }
  }
}
