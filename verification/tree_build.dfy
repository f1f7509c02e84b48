/** `initRedDotTree` (RedDotSystem.ts lines 83-164): register one fresh node per configuration
    key, then walk the scratch priority tree depth-first and link parents and children. */
module TreeBuild {
  import opened Outcomes
  import opened OrderedMaps
  import opened RedDotModel
  import opened PriorityTree

  /** The keys of a configuration in iteration order. */
  function KeysOf(cfg: seq<Entry>): (ks: seq<Key>)
    ensures |ks| == |cfg| && forall i | 0 <= i < |cfg| :: ks[i] == cfg[i].key
  {
    seq(|cfg|, i requires 0 <= i < |cfg| => cfg[i].key)
  }

  /** What a parsed configuration object always satisfies: its keys are distinct (they are the
      property names of one object) and every path has a segment (`split` never returns []). */
  ghost predicate ValidConfig(cfg: seq<Entry>) {
    && (forall i, j | 0 <= i < j < |cfg| :: cfg[i].key != cfg[j].key)
    && (forall i | 0 <= i < |cfg| :: cfg[i].path != [])
  }

  /** Lines 113-122: a fresh unlinked node for every key, registered in configuration order. */
  function Register(cfg: seq<Entry>): (r: OMap<Key, Node>)
    requires forall i, j | 0 <= i < j < |cfg| :: cfg[i].key != cfg[j].key
    ensures Valid(r) && r.keys == KeysOf(cfg)
    ensures forall k | k in r.vals :: r.vals[k] == FreshNode(None)
  {
    if cfg == [] then Empty()
    else
      var n := |cfg| - 1;
      var m := Register(cfg[..n]);
      assert cfg[n].key !in m.keys;
      assert KeysOf(cfg) == KeysOf(cfg[..n]) + [cfg[n].key];
      Put(m, cfg[n].key, FreshNode(None))
  }

  // ---------------------------------------------------------------- linking

  /** Two registries that differ at most in the `parent` and `children` of their nodes. */
  ghost predicate SameButLinks(a: OMap<Key, Node>, b: OMap<Key, Node>) {
    && a.keys == b.keys
    && a.vals.Keys == b.vals.Keys
    && forall k | k in a.vals ::
         b.vals[k] == a.vals[k].(parent := b.vals[k].parent, children := b.vals[k].children)
  }

  lemma SameButLinksTrans(a: OMap<Key, Node>, b: OMap<Key, Node>, c: OMap<Key, Node>)
    requires SameButLinks(a, b) && SameButLinks(b, c)
    ensures SameButLinks(a, c)
  {
  }

  ghost predicate ChildrenNoDups(nodes: OMap<Key, Node>) {
    forall k | k in nodes.vals :: NoDups(nodes.vals[k].children)
  }

  /** `redDotNode.parent = parent` (line 142). */
  function SetParent(nodes: OMap<Key, Node>, k: Key, par: Option<Key>): (r: OMap<Key, Node>)
    requires Valid(nodes) && k in nodes.vals
    ensures Valid(r) && SameButLinks(nodes, r)
    ensures forall x | x in nodes.vals && x != k :: r.vals[x] == nodes.vals[x]
    ensures r.vals[k].parent == par && r.vals[k].children == nodes.vals[k].children
  {
    Put(nodes, k, nodes.vals[k].(parent := par))
  }

  /** `redDotNode.child.add(child)` (line 152): a `Set` ignores a member it already has. */
  function AddChild(nodes: OMap<Key, Node>, k: Key, c: Key): (r: OMap<Key, Node>)
    requires Valid(nodes) && k in nodes.vals
    ensures Valid(r) && SameButLinks(nodes, r)
    ensures forall x | x in nodes.vals :: r.vals[x].parent == nodes.vals[x].parent
    ensures forall x, y | x in nodes.vals ::
      y in r.vals[x].children <==> y in nodes.vals[x].children || (x == k && y == c)
    ensures ChildrenNoDups(nodes) ==> ChildrenNoDups(r)
  {
    Put(nodes, k, nodes.vals[k].(children := Adjoin(nodes.vals[k].children, c)))
  }

  /** `redDotChildInit` on a slot (lines 132-156): set the parent of the slot's owner, then link
      every kid slot in index order, holes skipped, adding each kid's owner to the owner's
      children after that kid's subtree is linked. */
  function LinkSlot(nodes: OMap<Key, Node>, s: Slot, par: Option<Key>): (r: OMap<Key, Node>)
    requires Valid(nodes) && Owners(s) <= nodes.vals.Keys
    ensures Valid(r) && SameButLinks(nodes, r)
    ensures forall k | k in nodes.vals && k !in Owners(s) :: r.vals[k].parent == nodes.vals[k].parent
    ensures forall k, c | k in nodes.vals ::
      c in r.vals[k].children <==> c in nodes.vals[k].children || (k, c) in KidPairs(s)
    ensures ChildrenNoDups(nodes) ==> ChildrenNoDups(r)
    decreases s, 1, 0
  {
    LinkFrom(SetParent(nodes, s.owner, par), s, 0)
  }

  /** The loop of lines 144-153, from kid index `i` on. */
  function LinkFrom(nodes: OMap<Key, Node>, s: Slot, i: nat): (r: OMap<Key, Node>)
    requires Valid(nodes) && s.owner in nodes.vals && OwnersFrom(s, i) <= nodes.vals.Keys
    ensures Valid(r) && SameButLinks(nodes, r)
    ensures forall k | k in nodes.vals && k !in OwnersFrom(s, i) :: r.vals[k].parent == nodes.vals[k].parent
    ensures forall k, c | k in nodes.vals ::
      c in r.vals[k].children <==> c in nodes.vals[k].children || (k, c) in KidPairsFrom(s, i)
    ensures ChildrenNoDups(nodes) ==> ChildrenNoDups(r)
    decreases s, 0, |s.kids| - i
  {
    if i >= |s.kids| then nodes
    else
      match s.kids[i]
      case None => LinkFrom(nodes, s, i + 1)
      case Some(c) =>
        var linked := LinkSlot(nodes, c, Some(s.owner));
        var added := AddChild(linked, s.owner, c.owner);
        var r := LinkFrom(added, s, i + 1);
        KidStep(s, i, c);
        SameButLinksTrans(nodes, linked, added);
        SameButLinksTrans(nodes, added, r);
        ParentsThrough(nodes, linked, added, r, Owners(c), OwnersFrom(s, i + 1));
        ChildrenThrough(nodes, linked, added, r, KidPairs(c), KidPairsFrom(s, i + 1), (s.owner, c.owner));
        r
  }

  /** What a present kid slot adds to the owners and pairs of the kids from its index on. */
  lemma KidStep(s: Slot, i: nat, c: Slot)
    requires i < |s.kids| && s.kids[i] == Some(c)
    ensures OwnersFrom(s, i) == Owners(c) + OwnersFrom(s, i + 1)
    ensures KidPairsFrom(s, i) == {(s.owner, c.owner)} + KidPairs(c) + KidPairsFrom(s, i + 1)
  {
  }

  /** Parents through the three steps of one kid: linking its subtree, adding it as a child,
      linking the kids after it. */
  lemma ParentsThrough(a: OMap<Key, Node>, b: OMap<Key, Node>, c: OMap<Key, Node>, d: OMap<Key, Node>,
                       xs: set<Key>, ys: set<Key>)
    requires a.vals.Keys == b.vals.Keys == c.vals.Keys == d.vals.Keys
    requires forall k | k in a.vals && k !in xs :: b.vals[k].parent == a.vals[k].parent
    requires forall k | k in b.vals :: c.vals[k].parent == b.vals[k].parent
    requires forall k | k in c.vals && k !in ys :: d.vals[k].parent == c.vals[k].parent
    ensures forall k | k in a.vals && k !in xs + ys :: d.vals[k].parent == a.vals[k].parent
  {
  }

  /** Children through the three steps of one kid. */
  lemma ChildrenThrough(a: OMap<Key, Node>, b: OMap<Key, Node>, c: OMap<Key, Node>, d: OMap<Key, Node>,
                        ps: set<(Key, Key)>, qs: set<(Key, Key)>, pair: (Key, Key))
    requires a.vals.Keys == b.vals.Keys == c.vals.Keys == d.vals.Keys
    requires forall k, x | k in a.vals :: x in b.vals[k].children <==> x in a.vals[k].children || (k, x) in ps
    requires forall k, x | k in b.vals :: x in c.vals[k].children <==> x in b.vals[k].children || (k == pair.0 && x == pair.1)
    requires forall k, x | k in c.vals :: x in d.vals[k].children <==> x in c.vals[k].children || (k, x) in qs
    ensures forall k, x | k in a.vals :: x in d.vals[k].children <==> x in a.vals[k].children || (k, x) in {pair} + ps + qs
  {
  }

  /** The pairs of the subtrees of the top-level slots from index `i` on (the placeholder root
      itself is not linked, so its own pairs do not count). */
  function TopPairsFrom(root: Slot, i: nat): set<(Key, Key)>
    decreases |root.kids| - i
  {
    if i >= |root.kids| then {}
    else (match root.kids[i] case None => {} case Some(c) => KidPairs(c)) + TopPairsFrom(root, i + 1)
  }

  /** The loop of lines 158-160: every top-level slot is linked with no parent. */
  function LinkTop(nodes: OMap<Key, Node>, root: Slot, i: nat): (r: OMap<Key, Node>)
    requires Valid(nodes) && OwnersFrom(root, i) <= nodes.vals.Keys
    ensures Valid(r) && SameButLinks(nodes, r)
    ensures forall k | k in nodes.vals && k !in OwnersFrom(root, i) :: r.vals[k].parent == nodes.vals[k].parent
    ensures forall k, c | k in nodes.vals ::
      c in r.vals[k].children <==> c in nodes.vals[k].children || (k, c) in TopPairsFrom(root, i)
    ensures ChildrenNoDups(nodes) ==> ChildrenNoDups(r)
    decreases |root.kids| - i
  {
    if i >= |root.kids| then nodes
    else
      match root.kids[i]
      case None => LinkTop(nodes, root, i + 1)
      case Some(c) => LinkTop(LinkSlot(nodes, c, None), root, i + 1)
  }

  // ---------------------------------------------------------------- the parent a slot walk leaves

  /** A kid slot away from the path `d` owns nothing of `k`'s when every slot of `k` is on `d`. */
  lemma NotOwnedKid(s: Slot, k: Key, j: nat, d: seq<nat>)
    requires forall r :: OwnerIn(s, r) == Some(k) ==> r <= d
    requires j < |s.kids| && s.kids[j].Some? && (d == [] || j != d[0])
    ensures k !in Owners(s.kids[j].value)
  {
    if k in Owners(s.kids[j].value) {
      var r := OwnerWitness(s.kids[j].value, k);
      SubPath(j, r, 0);
      assert OwnerIn(s, [j] + r) == Some(k);
      assert false;
    }
  }

  lemma NotOwnedFrom(s: Slot, k: Key, i: nat, d: seq<nat>)
    requires forall r :: OwnerIn(s, r) == Some(k) ==> r <= d
    requires d == [] || i > d[0]
    ensures k !in OwnersFrom(s, i)
  {
    if k in OwnersFrom(s, i) {
      var j, r := OwnerWitnessFrom(s, k, i);
      NotOwnedKid(s, k, j, d);
      OwnersFromContains(s, j, j);
      OwnerInOwners(s.kids[j].value, r);
      assert false;
    }
  }

  /** The slot of `k` a walk visits last decides `k`'s parent: when all of `k`'s slots lie on the
      path to its slot at `d`, the parent `k` ends with is the owner of the slot above `d`. */
  lemma {:induction false} LinkSlotParent(nodes: OMap<Key, Node>, s: Slot, par: Option<Key>, k: Key, d: seq<nat>)
    requires Valid(nodes) && Owners(s) <= nodes.vals.Keys
    requires OwnerIn(s, d) == Some(k)
    requires forall r :: OwnerIn(s, r) == Some(k) ==> r <= d
    ensures k in nodes.vals
    ensures LinkSlot(nodes, s, par).vals[k].parent == if d == [] then par else ParentAbove(s, Some(s.owner), d)
    decreases s, 1, 0
  {
    OwnerInOwners(s, d);
    var n1 := SetParent(nodes, s.owner, par);
    if d == [] {
      NotOwnedFrom(s, k, 0, d);
    } else {
      LinkFromParent(n1, s, 0, k, d);
    }
  }

  lemma {:induction false} LinkFromParent(nodes: OMap<Key, Node>, s: Slot, i: nat, k: Key, d: seq<nat>)
    requires Valid(nodes) && s.owner in nodes.vals && OwnersFrom(s, i) <= nodes.vals.Keys
    requires d != [] && i <= d[0]
    requires OwnerIn(s, d) == Some(k) && k in nodes.vals
    requires forall r :: OwnerIn(s, r) == Some(k) ==> r <= d
    ensures LinkFrom(nodes, s, i).vals[k].parent == ParentAbove(s, Some(s.owner), d)
    decreases s, 0, |s.kids| - i
  {
    assert KidAt(s, d[0]).Some?;
    match s.kids[i]
    case None =>
      LinkFromParent(nodes, s, i + 1, k, d);
    case Some(c) =>
      var linked := LinkSlot(nodes, c, Some(s.owner));
      var added := AddChild(linked, s.owner, c.owner);
      assert LinkFrom(nodes, s, i) == LinkFrom(added, s, i + 1);
      if i < d[0] {
        NotOwnedKid(s, k, i, d);
        assert added.vals[k].parent == nodes.vals[k].parent;
        LinkFromParent(added, s, i + 1, k, d);
      } else {
        LinkHit(nodes, s, Some(s.owner), i, k, d);
        NotOwnedFrom(s, k, i + 1, d);
        assert added.vals[k].parent == linked.vals[k].parent;
      }
  }

  /** The owner of the slot above position `d` of `s`, `above` when that is `s`'s own parent. */
  function ParentAbove(s: Slot, above: Option<Key>, d: seq<nat>): Option<Key>
    requires d != []
  {
    if |d| == 1 then above else OwnerIn(s, d[..|d| - 1])
  }

  /** Linking the kid on the path `d` leaves `k` with the parent the slot above `d` gives. */
  lemma {:induction false} LinkHit(nodes: OMap<Key, Node>, s: Slot, above: Option<Key>, i: nat, k: Key, d: seq<nat>)
    requires Valid(nodes) && d != [] && i == d[0] && i < |s.kids| && s.kids[i].Some?
    requires Owners(s.kids[i].value) <= nodes.vals.Keys
    requires OwnerIn(s, d) == Some(k)
    requires forall r :: OwnerIn(s, r) == Some(k) ==> r <= d
    ensures k in nodes.vals
    ensures LinkSlot(nodes, s.kids[i].value, above).vals[k].parent == ParentAbove(s, above, d)
    decreases s, 0, 0
  {
    var c := s.kids[i].value;
    KidOwnsOnPath(s, k, d);
    LinkSlotParent(nodes, c, above, k, d[1..]);
    if |d| > 1 {
      AboveInKid(s, d);
    }
  }

  /** Within the kid on the path `d`, every slot of `k` lies on the rest of `d`. */
  lemma KidOwnsOnPath(s: Slot, k: Key, d: seq<nat>)
    requires d != [] && d[0] < |s.kids| && s.kids[d[0]].Some?
    requires forall r :: OwnerIn(s, r) == Some(k) ==> r <= d
    ensures OwnerIn(s.kids[d[0]].value, d[1..]) == OwnerIn(s, d)
    ensures forall r :: OwnerIn(s.kids[d[0]].value, r) == Some(k) ==> r <= d[1..]
  {
    forall r | OwnerIn(s.kids[d[0]].value, r) == Some(k) ensures r <= d[1..] {
      SubPath(d[0], r, 0);
      assert OwnerIn(s, [d[0]] + r) == Some(k);
    }
  }

  /** The slot above position `d` seen from the kid on `d`'s path. */
  lemma AboveInKid(s: Slot, d: seq<nat>)
    requires |d| > 1 && d[0] < |s.kids| && s.kids[d[0]].Some?
    ensures OwnerIn(s, d[..|d| - 1]) == OwnerIn(s.kids[d[0]].value, d[1..][..|d| - 2])
  {
    var up := d[..|d| - 1];
    assert up[0] == d[0] && up[1..] == d[1..][..|d| - 2];
  }

  lemma {:induction false} LinkTopParent(nodes: OMap<Key, Node>, root: Slot, i: nat, k: Key, d: seq<nat>)
    requires Valid(nodes) && OwnersFrom(root, i) <= nodes.vals.Keys
    requires d != [] && i <= d[0]
    requires OwnerIn(root, d) == Some(k) && k in nodes.vals
    requires forall r :: OwnerIn(root, r) == Some(k) ==> r <= d
    ensures LinkTop(nodes, root, i).vals[k].parent == ParentAbove(root, None, d)
    decreases |root.kids| - i
  {
    assert KidAt(root, d[0]).Some?;
    match root.kids[i]
    case None =>
      LinkTopParent(nodes, root, i + 1, k, d);
    case Some(c) =>
      var linked := LinkSlot(nodes, c, None);
      if i < d[0] {
        NotOwnedKid(root, k, i, d);
        LinkTopParent(linked, root, i + 1, k, d);
      } else {
        LinkHit(nodes, root, None, i, k, d);
        NotOwnedFrom(root, k, i + 1, d);
      }
  }

  // ---------------------------------------------------------------- top-level pairs, by position

  lemma {:induction false} TopPairsContains(root: Slot, i: nat, j: nat)
    requires i <= j < |root.kids| && root.kids[j].Some?
    ensures KidPairs(root.kids[j].value) <= TopPairsFrom(root, i)
    decreases j - i
  {
    if i < j {
      TopPairsContains(root, i + 1, j);
    }
  }

  lemma {:induction false} TopPairWitness(root: Slot, a: Key, c: Key, i: nat) returns (q: seq<nat>, x: nat)
    requires (a, c) in TopPairsFrom(root, i)
    ensures q != [] && OwnerIn(root, q) == Some(a) && OwnerIn(root, q + [x]) == Some(c)
    decreases |root.kids| - i
  {
    if root.kids[i].Some? && (a, c) in KidPairs(root.kids[i].value) {
      var r, x' := KidPairWitness(root.kids[i].value, a, c);
      q, x := [i] + r, x';
      SubPath(i, r, x');
      assert (q + [x])[0] == i;
    } else {
      q, x := TopPairWitness(root, a, c, i + 1);
    }
  }

  lemma TopPairOf(root: Slot, q: seq<nat>, x: nat)
    requires q != [] && OwnerIn(root, q).Some? && OwnerIn(root, q + [x]).Some?
    ensures (OwnerIn(root, q).value, OwnerIn(root, q + [x]).value) in TopPairsFrom(root, 0)
  {
    var c := KidAt(root, q[0]).value;
    assert (q + [x])[0] == q[0] && (q + [x])[1..] == q[1..] + [x];
    KidPairOf(c, q[1..], x);
    TopPairsContains(root, 0, q[0]);
  }

  // ---------------------------------------------------------------- initRedDotTree

  /** A configuration key names exactly one entry. */
  lemma KeyNamesOneEntry(cfg: seq<Entry>, i: nat, j: nat)
    requires ValidConfig(cfg) && i < |cfg| && j < |cfg| && cfg[i].key == cfg[j].key
    ensures i == j
  {
  }

  /** The first entry below a prefix is also the first below every longer prefix of its path. */
  lemma FirstIndexUp(cfg: seq<Entry>, q: seq<nat>, r: seq<nat>, i: nat)
    requires FirstIndex(cfg, q) == Some(i) && q <= r && r <= cfg[i].path
    ensures FirstIndex(cfg, r) == Some(i)
  {
    match FirstIndex(cfg, r)
    case None =>
    case Some(j) =>
  }

  /** Every slot of an entry's key lies on that entry's path. */
  lemma OwnedOnlyOnPath(cfg: seq<Entry>, i: nat)
    requires ValidConfig(cfg) && i < |cfg|
    ensures forall r :: OwnerIn(Scratch(cfg), r) == Some(cfg[i].key) ==> r <= cfg[i].path
  {
    forall r | OwnerIn(Scratch(cfg), r) == Some(cfg[i].key) ensures r <= cfg[i].path {
      if r != [] {
        ScratchOwner(cfg, r);
        KeyNamesOneEntry(cfg, FirstIndex(cfg, r).value, i);
      }
    }
  }

  /** Every slot of the scratch tree belongs to a configuration key (lines 137-140 never return null). */
  lemma ScratchOwnersRegistered(cfg: seq<Entry>)
    requires ValidConfig(cfg)
    ensures OwnersFrom(Scratch(cfg), 0) <= Register(cfg).vals.Keys
  {
    var root := Scratch(cfg);
    forall k | k in OwnersFrom(root, 0) ensures k in Register(cfg).vals {
      var j, r := OwnerWitnessFrom(root, k, 0);
      SubPath(j, r, 0);
      assert OwnerIn(root, [j] + r) == Some(k);
      ScratchOwner(cfg, [j] + r);
      var m := FirstIndex(cfg, [j] + r).value;
      assert KeysOf(cfg)[m] == k;
    }
  }

  /** `initRedDotTree` on an engine whose registry is still empty. */
  function InitRedDotTree(sys: System, cfg: seq<Entry>): (r: System)
    requires ValidConfig(cfg) && sys.nodes == Empty()
    ensures r.events == sys.events && r.pool == sys.pool
    ensures Valid(r.nodes) && r.nodes.keys == KeysOf(cfg)
    ensures forall k | k in r.nodes.vals ::
      !r.nodes.vals[k].isOn && r.nodes.vals[k].count == 0 && r.nodes.vals[k].bindings == []
  {
    ScratchOwnersRegistered(cfg);
    sys.(nodes := LinkTop(Register(cfg), Scratch(cfg), 0))
  }

  /** The parent every key ends with: none when an earlier entry already took the slot at its
      path, otherwise the owner of the slot one level up (none at depth one). */
  lemma InitParent(sys: System, cfg: seq<Entry>, i: nat)
    requires ValidConfig(cfg) && sys.nodes == Empty() && i < |cfg|
    ensures var p := cfg[i].path;
      InitRedDotTree(sys, cfg).nodes.vals[cfg[i].key].parent ==
        if FirstIndex(cfg, p) == Some(i) then (if |p| == 1 then None else FirstKey(cfg, p[..|p| - 1]))
        else None
  {
    var root, reg, k, p := Scratch(cfg), Register(cfg), cfg[i].key, cfg[i].path;
    ScratchOwnersRegistered(cfg);
    assert KeysOf(cfg)[i] == k;
    OwnedOnlyOnPath(cfg, i);
    if FirstIndex(cfg, p) == Some(i) {
      ScratchOwner(cfg, p);
      LinkTopParent(reg, root, 0, k, p);
      if |p| > 1 {
        ScratchOwner(cfg, p[..|p| - 1]);
      }
    } else if k in OwnersFrom(root, 0) {
      var j, r := OwnerWitnessFrom(root, k, 0);
      SubPath(j, r, 0);
      assert OwnerIn(root, [j] + r) == Some(k);
      ScratchOwner(cfg, [j] + r);
      KeyNamesOneEntry(cfg, FirstIndex(cfg, [j] + r).value, i);
      FirstIndexUp(cfg, [j] + r, p, i);
      assert false;
    }
  }

  /** A linked pair of the scratch tree is a first-index pair of the configuration. */
  lemma TopPairIsFirst(cfg: seq<Entry>, i: nat, c: Key) returns (q: seq<nat>, x: nat)
    requires ValidConfig(cfg) && i < |cfg| && (cfg[i].key, c) in TopPairsFrom(Scratch(cfg), 0)
    ensures q != [] && FirstIndex(cfg, q) == Some(i) && FirstKey(cfg, q + [x]) == Some(c)
  {
    q, x := TopPairWitness(Scratch(cfg), cfg[i].key, c, 0);
    ScratchOwner(cfg, q);
    ScratchOwner(cfg, q + [x]);
    KeyNamesOneEntry(cfg, FirstIndex(cfg, q).value, i);
  }

  /** The children every key ends with: the owners of the kid slots of all the slots it owns. */
  lemma InitChildren(sys: System, cfg: seq<Entry>, i: nat, c: Key)
    requires ValidConfig(cfg) && sys.nodes == Empty() && i < |cfg|
    ensures c in InitRedDotTree(sys, cfg).nodes.vals[cfg[i].key].children <==>
      exists q, x :: q != [] && FirstIndex(cfg, q) == Some(i) && FirstKey(cfg, q + [x]) == Some(c)
  {
    if c in InitRedDotTree(sys, cfg).nodes.vals[cfg[i].key].children {
      var q, x := InitChildSound(sys, cfg, i, c);
    }
    if exists q, x :: q != [] && FirstIndex(cfg, q) == Some(i) && FirstKey(cfg, q + [x]) == Some(c) {
      var q, x :| q != [] && FirstIndex(cfg, q) == Some(i) && FirstKey(cfg, q + [x]) == Some(c);
      InitChildComplete(sys, cfg, i, c, q, x);
    }
  }

  lemma InitChildSound(sys: System, cfg: seq<Entry>, i: nat, c: Key) returns (q: seq<nat>, x: nat)
    requires ValidConfig(cfg) && sys.nodes == Empty() && i < |cfg|
    requires c in InitRedDotTree(sys, cfg).nodes.vals[cfg[i].key].children
    ensures q != [] && FirstIndex(cfg, q) == Some(i) && FirstKey(cfg, q + [x]) == Some(c)
  {
    assert KeysOf(cfg)[i] == cfg[i].key;
    assert (cfg[i].key, c) in TopPairsFrom(Scratch(cfg), 0);
    q, x := TopPairIsFirst(cfg, i, c);
  }

  lemma InitChildComplete(sys: System, cfg: seq<Entry>, i: nat, c: Key, q: seq<nat>, x: nat)
    requires ValidConfig(cfg) && sys.nodes == Empty() && i < |cfg|
    requires q != [] && FirstIndex(cfg, q) == Some(i) && FirstKey(cfg, q + [x]) == Some(c)
    ensures c in InitRedDotTree(sys, cfg).nodes.vals[cfg[i].key].children
  {
    var root := Scratch(cfg);
    assert KeysOf(cfg)[i] == cfg[i].key;
    ScratchOwner(cfg, q);
    ScratchOwner(cfg, q + [x]);
    TopPairOf(root, q, x);
    assert (cfg[i].key, c) in TopPairsFrom(root, 0);
  }

  /** Nodes are registered in configuration order. */
  lemma InitPos(sys: System, cfg: seq<Entry>, j: nat)
    requires ValidConfig(cfg) && sys.nodes == Empty() && j < |cfg|
    ensures var n := InitRedDotTree(sys, cfg).nodes;
      cfg[j].key in n.vals && Pos(n, cfg[j].key) == j
  {
    var n := InitRedDotTree(sys, cfg).nodes;
    assert n.keys[j] == cfg[j].key;
    IndexOfUnique(n.keys, j);
  }

  /** The first entry below a prefix comes no later than the first entry below an extension. */
  lemma FirstIndexMonotone(cfg: seq<Entry>, q: seq<nat>, r: seq<nat>)
    requires q <= r && FirstIndex(cfg, r).Some?
    ensures FirstIndex(cfg, q).Some? && FirstIndex(cfg, q).value <= FirstIndex(cfg, r).value
  {
    var i := FirstIndex(cfg, r).value;
    assert q <= cfg[i].path;
  }

  lemma InitParentsPrecede(sys: System, cfg: seq<Entry>)
    requires ValidConfig(cfg) && sys.nodes == Empty()
    ensures ParentsPrecede(InitRedDotTree(sys, cfg).nodes)
  {
    var n := InitRedDotTree(sys, cfg).nodes;
    forall k | k in n.vals && n.vals[k].parent.Some?
      ensures n.vals[k].parent.value in n.vals && Pos(n, n.vals[k].parent.value) <= Pos(n, k)
    {
      var i := IndexOf(n.keys, k);
      InitParent(sys, cfg, i);
      InitPos(sys, cfg, i);
      var p := cfg[i].path;
      FirstIndexMonotone(cfg, p[..|p| - 1], p);
      InitPos(sys, cfg, FirstIndex(cfg, p[..|p| - 1]).value);
    }
  }

  lemma InitChildFollows(sys: System, cfg: seq<Entry>, i: nat, c: Key)
    requires ValidConfig(cfg) && sys.nodes == Empty() && i < |cfg|
    requires c in InitRedDotTree(sys, cfg).nodes.vals[cfg[i].key].children
    ensures var n := InitRedDotTree(sys, cfg).nodes;
      c in n.vals && Pos(n, cfg[i].key) <= Pos(n, c)
  {
    var q, x := InitChildSound(sys, cfg, i, c);
    FirstIndexMonotone(cfg, q, q + [x]);
    InitPos(sys, cfg, i);
    InitPos(sys, cfg, FirstIndex(cfg, q + [x]).value);
  }

  lemma InitChildrenNoDups(sys: System, cfg: seq<Entry>)
    requires ValidConfig(cfg) && sys.nodes == Empty()
    ensures ChildrenNoDups(InitRedDotTree(sys, cfg).nodes)
  {
    assert ChildrenNoDups(Register(cfg));
  }

  lemma InitChildrenFollow(sys: System, cfg: seq<Entry>)
    requires ValidConfig(cfg) && sys.nodes == Empty()
    ensures ChildrenFollow(InitRedDotTree(sys, cfg).nodes)
  {
    var n := InitRedDotTree(sys, cfg).nodes;
    InitChildrenNoDups(sys, cfg);
    forall k | k in n.vals
      ensures forall c | c in n.vals[k].children :: c in n.vals && Pos(n, k) <= Pos(n, c)
    {
      var i := IndexOf(n.keys, k);
      assert cfg[i].key == k;
      forall c | c in n.vals[k].children ensures c in n.vals && Pos(n, k) <= Pos(n, c) {
        InitChildFollows(sys, cfg, i, c);
      }
    }
  }

  /** The tree built into an empty engine satisfies the engine invariant. */
  lemma InitWf(sys: System, cfg: seq<Entry>)
    requires ValidConfig(cfg) && sys.nodes == Empty() && Wf(sys)
    ensures Wf(InitRedDotTree(sys, cfg))
  {
    var r := InitRedDotTree(sys, cfg);
    InitParentsPrecede(sys, cfg);
    InitChildrenFollow(sys, cfg);
    HeldAllNone(r.nodes.vals, r.nodes.keys);
    assert AllBadges(r) == AllBadges(sys);
  }

  /** Some entry before the `i`-th has exactly the path `q`. */
  ghost predicate EarlierPath(cfg: seq<Entry>, i: int, q: seq<nat>) {
    exists j :: 0 <= j < i && j < |cfg| && cfg[j].path == q
  }

  /** A configuration in which every proper prefix of a path is the path of an earlier entry. */
  ghost predicate Layered(cfg: seq<Entry>) {
    forall i, n | 0 <= i < |cfg| && 0 < n < |cfg[i].path| :: EarlierPath(cfg, i, cfg[i].path[..n])
  }

  lemma LayeredPrefix(cfg: seq<Entry>, i: nat, n: nat) returns (j: nat)
    requires Layered(cfg) && i < |cfg| && 0 < n < |cfg[i].path|
    ensures j < i && cfg[j].path == cfg[i].path[..n]
  {
    assert EarlierPath(cfg, i, cfg[i].path[..n]);
    j :| 0 <= j < i && j < |cfg| && cfg[j].path == cfg[i].path[..n];
  }

  /** In a layered configuration the first entry below an entry's path has exactly that path. */
  lemma LayeredFirst(cfg: seq<Entry>, q: seq<nat>, f: nat)
    requires Layered(cfg) && FirstIndex(cfg, q) == Some(f) && q != []
    ensures cfg[f].path == q
  {
    ShorterPrefixEarlier(cfg, f, q);
  }

  /** A proper non-empty prefix of an entry's path is the path of an earlier entry. */
  lemma ShorterPrefixEarlier(cfg: seq<Entry>, f: int, q: seq<nat>)
    ensures Layered(cfg) && 0 <= f < |cfg| && q != [] && |q| < |cfg[f].path| && q <= cfg[f].path
      ==> EarlierPath(cfg, f, q)
  {
    if Layered(cfg) && 0 <= f < |cfg| && q != [] && |q| < |cfg[f].path| && q <= cfg[f].path {
      var j := LayeredPrefix(cfg, f, |q|);
      assert cfg[f].path[..|q|] == q;
    }
  }

  lemma InitLayeredParent(sys: System, cfg: seq<Entry>, i: nat)
    requires ValidConfig(cfg) && sys.nodes == Empty() && Layered(cfg) && i < |cfg|
    requires FirstIndex(cfg, cfg[i].path) == Some(i)
    ensures var p, node := cfg[i].path, InitRedDotTree(sys, cfg).nodes.vals[cfg[i].key];
      && (|p| == 1 ==> node.parent == None)
      && (|p| > 1 ==> exists j :: 0 <= j < i && cfg[j].path == p[..|p| - 1] && node.parent == Some(cfg[j].key))
  {
    var p := cfg[i].path;
    InitParent(sys, cfg, i);
    if |p| > 1 {
      var q := p[..|p| - 1];
      var j := LayeredPrefix(cfg, i, |p| - 1);
      var f := FirstIndex(cfg, q).value;
      LayeredFirst(cfg, q, f);
    }
  }

  lemma InitLayeredChildIs(sys: System, cfg: seq<Entry>, i: nat, c: Key) returns (m: nat, x: nat)
    requires ValidConfig(cfg) && sys.nodes == Empty() && Layered(cfg) && i < |cfg|
    requires FirstIndex(cfg, cfg[i].path) == Some(i)
    requires c in InitRedDotTree(sys, cfg).nodes.vals[cfg[i].key].children
    ensures m < |cfg| && cfg[m].path == cfg[i].path + [x] && FirstIndex(cfg, cfg[m].path) == Some(m)
    ensures c == cfg[m].key
  {
    var p := cfg[i].path;
    var q, x' := InitChildSound(sys, cfg, i, c);
    LayeredFirst(cfg, q, i);
    m, x := FirstIndex(cfg, q + [x']).value, x';
    LayeredFirst(cfg, q + [x], m);
  }

  /** In a layered configuration a node's children name it as their parent. */
  lemma InitLinked(sys: System, cfg: seq<Entry>)
    requires ValidConfig(cfg) && sys.nodes == Empty() && Layered(cfg)
    ensures Linked(InitRedDotTree(sys, cfg).nodes.vals)
  {
    var vals := InitRedDotTree(sys, cfg).nodes.vals;
    forall a | a in vals
      ensures LinkedBelow(vals, a)
    {
      forall c | c in vals[a].children && a != c
        ensures c in vals && vals[c].parent == Some(a)
      {
        InitLinkedOne(sys, cfg, a, c);
      }
    }
    LinkedFrom(vals);
  }

  /** The children `a` lists name it as their parent. */
  ghost predicate LinkedBelow(vals: map<Key, Node>, a: Key)
    requires a in vals
  {
    forall c | c in vals[a].children && a != c :: c in vals && vals[c].parent == Some(a)
  }

  lemma LinkedFrom(vals: map<Key, Node>)
    requires forall a | a in vals :: LinkedBelow(vals, a)
    ensures Linked(vals)
  {
    forall a, c | a in vals && c in vals[a].children && a != c
      ensures c in vals && vals[c].parent == Some(a)
    {
      assert LinkedBelow(vals, a);
    }
  }

  lemma InitLinkedOne(sys: System, cfg: seq<Entry>, a: Key, c: Key)
    requires ValidConfig(cfg) && sys.nodes == Empty() && Layered(cfg)
    requires a in InitRedDotTree(sys, cfg).nodes.vals && c in InitRedDotTree(sys, cfg).nodes.vals[a].children
    ensures c in InitRedDotTree(sys, cfg).nodes.vals && InitRedDotTree(sys, cfg).nodes.vals[c].parent == Some(a)
  {
    var nodes := InitRedDotTree(sys, cfg).nodes;
    var i := IndexOf(nodes.keys, a);
    assert cfg[i].key == a;
    var q, x := InitChildSound(sys, cfg, i, c);
    var m := LayeredChildPaths(cfg, i, q, x);
    assert KeysOf(cfg)[m] == c;
    InitParent(sys, cfg, m);
  }

  /** In a layered configuration, the first entry below a child slot of an entry's slot sits
      exactly one level below that entry, whose key owns the slot above it. */
  lemma LayeredChildPaths(cfg: seq<Entry>, i: nat, q: seq<nat>, x: nat) returns (m: nat)
    requires Layered(cfg) && i < |cfg| && q != [] && FirstIndex(cfg, q) == Some(i) && FirstKey(cfg, q + [x]).Some?
    ensures m < |cfg| && FirstKey(cfg, q + [x]) == Some(cfg[m].key)
    ensures var p := cfg[m].path;
      FirstIndex(cfg, p) == Some(m) && |p| > 1 && FirstKey(cfg, p[..|p| - 1]) == Some(cfg[i].key)
  {
    LayeredFirst(cfg, q, i);
    m := FirstIndex(cfg, q + [x]).value;
    LayeredFirst(cfg, q + [x], m);
    assert (q + [x])[..|q|] == q;
  }

  /** In a layered configuration, for an entry whose path no earlier entry shares, the parent is
      the entry whose path is its own minus the last segment, and the children are the entries
      one segment below it. */
  lemma InitLayered(sys: System, cfg: seq<Entry>, i: nat, c: Key)
    requires ValidConfig(cfg) && sys.nodes == Empty() && Layered(cfg) && i < |cfg|
    requires FirstIndex(cfg, cfg[i].path) == Some(i)
    ensures var p, node := cfg[i].path, InitRedDotTree(sys, cfg).nodes.vals[cfg[i].key];
      && (|p| == 1 ==> node.parent == None)
      && (|p| > 1 ==> exists j :: 0 <= j < i && cfg[j].path == p[..|p| - 1] && node.parent == Some(cfg[j].key))
      && (c in node.children <==>
            exists m, x :: 0 <= m < |cfg| && cfg[m].path == p + [x] && FirstIndex(cfg, cfg[m].path) == Some(m)
              && c == cfg[m].key)
  {
    var p := cfg[i].path;
    InitLayeredParent(sys, cfg, i);
    if c in InitRedDotTree(sys, cfg).nodes.vals[cfg[i].key].children {
      var m, x := InitLayeredChildIs(sys, cfg, i, c);
    }
    if exists m, x :: 0 <= m < |cfg| && cfg[m].path == p + [x] && FirstIndex(cfg, cfg[m].path) == Some(m)
         && c == cfg[m].key {
      var m, x :| 0 <= m < |cfg| && cfg[m].path == p + [x] && FirstIndex(cfg, cfg[m].path) == Some(m)
        && c == cfg[m].key;
      assert FirstKey(cfg, p + [x]) == Some(c);
      InitChildComplete(sys, cfg, i, c, p, x);
    }
  }

  /** A slot still absent before the `i`-th entry's walk, on that entry's path, is created by it. */
  lemma CreatedBy(cfg: seq<Entry>, i: nat, q: seq<nat>)
    requires i < |cfg| && q != [] && q <= cfg[i].path && OwnerIn(Scratch(cfg[..i]), q) == None
    ensures FirstIndex(cfg, q) == Some(i)
  {
    ScratchOwner(cfg[..i], q);
    assert forall j | 0 <= j < i :: cfg[..i][j] == cfg[j];
  }

  /** An entry first below a prefix of its path is first below every longer prefix. */
  lemma FirstFromPrefix(cfg: seq<Entry>, i: nat, n: nat, m: nat)
    requires i < |cfg| && n <= m <= |cfg[i].path| && FirstIndex(cfg, cfg[i].path[..n]) == Some(i)
    ensures FirstIndex(cfg, cfg[i].path[..m]) == Some(i)
  {
    var p := cfg[i].path;
    assert p[..n] <= p[..m];
    FirstIndexUp(cfg, p[..n], p[..m], i);
  }

  lemma SelfParentOf(sys: System, cfg: seq<Entry>, i: nat, n: nat)
    requires ValidConfig(cfg) && sys.nodes == Empty() && i < |cfg| && 0 < n < |cfg[i].path|
    requires FirstIndex(cfg, cfg[i].path[..n]) == Some(i)
    ensures InitRedDotTree(sys, cfg).nodes.vals[cfg[i].key].parent == Some(cfg[i].key)
  {
    SelfParentPaths(cfg, i, n);
    InitParent(sys, cfg, i);
  }

  lemma SelfParentPaths(cfg: seq<Entry>, i: nat, n: nat)
    requires i < |cfg| && 0 < n < |cfg[i].path| && FirstIndex(cfg, cfg[i].path[..n]) == Some(i)
    ensures var p := cfg[i].path;
      FirstIndex(cfg, p) == Some(i) && FirstKey(cfg, p[..|p| - 1]) == Some(cfg[i].key)
  {
    var p := cfg[i].path;
    WholePrefix(p);
    FirstFromPrefix(cfg, i, n, |p|);
    FirstFromPrefix(cfg, i, n, |p| - 1);
  }

  lemma WholePrefix(p: seq<nat>)
    ensures p[..|p|] == p
  {
  }

  lemma SelfChildOf(sys: System, cfg: seq<Entry>, i: nat, n: nat)
    requires ValidConfig(cfg) && sys.nodes == Empty() && i < |cfg| && 0 < n < |cfg[i].path|
    requires FirstIndex(cfg, cfg[i].path[..n]) == Some(i)
    ensures cfg[i].key in InitRedDotTree(sys, cfg).nodes.vals[cfg[i].key].children
  {
    var q, x := cfg[i].path[..n], cfg[i].path[n];
    SelfChildPaths(cfg, i, n);
    InitChildComplete(sys, cfg, i, cfg[i].key, q, x);
  }

  lemma SelfChildPaths(cfg: seq<Entry>, i: nat, n: nat)
    requires i < |cfg| && 0 < n < |cfg[i].path| && FirstIndex(cfg, cfg[i].path[..n]) == Some(i)
    ensures var p := cfg[i].path;
      FirstKey(cfg, p[..n] + [p[n]]) == Some(cfg[i].key)
  {
    var p := cfg[i].path;
    PrefixSnoc(p, n);
    FirstFromPrefix(cfg, i, n, n + 1);
  }

  lemma PrefixSnoc(p: seq<nat>, n: nat)
    requires n < |p|
    ensures p[..n] + [p[n]] == p[..n + 1]
  {
  }

  /** When an entry's walk creates the slot at depth `n` above its last segment, it creates every
      slot below it too, so the entry is registered as its own parent and its own child. */
  lemma InitSelfParent(sys: System, cfg: seq<Entry>, i: nat, n: nat)
    requires ValidConfig(cfg) && sys.nodes == Empty() && i < |cfg| && 0 < n < |cfg[i].path|
    requires OwnerIn(Scratch(cfg[..i]), cfg[i].path[..n]) == None
    ensures var k := cfg[i].key;
      InitRedDotTree(sys, cfg).nodes.vals[k].parent == Some(k) &&
      k in InitRedDotTree(sys, cfg).nodes.vals[k].children
  {
    CreatedBy(cfg, i, cfg[i].path[..n]);
    SelfParentOf(sys, cfg, i, n);
    SelfChildOf(sys, cfg, i, n);
  }
}
