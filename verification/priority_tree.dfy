/** The scratch priority tree `initRedDotTree` builds from the configuration before it links
    any red dot (RedDotSystem.ts lines 84-110): one slot per path prefix, tagged with the key of
    the entry whose walk created it. */
module PriorityTree {
  import opened Outcomes
  import opened RedDotModel

  /** An `IPriorityNode`: the key it was created for and its child array, a sparse JavaScript
      array whose holes are `None`. */
  datatype Slot = Slot(owner: Key, kids: seq<Option<Slot>>)

  /** One configuration entry: a key and its priority path, `"1.2.0"` read as [1, 2, 0]. */
  datatype Entry = Entry(key: Key, path: seq<nat>)

  /** `parent.child[i]`: a hole, or an index past the end, reads as absent. */
  function KidAt(s: Slot, i: nat): Option<Slot> {
    if i < |s.kids| then s.kids[i] else None
  }

  /** JavaScript array assignment `kids[i] = c`: an array too short grows, leaving holes. */
  function Place(kids: seq<Option<Slot>>, i: nat, c: Slot): (r: seq<Option<Slot>>)
    ensures |r| == if i < |kids| then |kids| else i + 1
    ensures r[i] == Some(c)
    ensures forall j | 0 <= j < |r| && j != i :: r[j] == if j < |kids| then kids[j] else None
  {
    if i < |kids| then kids[i := Some(c)] else kids + seq(i - |kids|, _ => None) + [Some(c)]
  }

  /** One entry's walk down the tree (lines 99-110): at each index an absent slot is created
      for `key`; an existing slot is entered as it is. */
  function Insert(s: Slot, path: seq<nat>, key: Key): (r: Slot)
    ensures r.owner == s.owner
    decreases path
  {
    if path == [] then s
    else
      var c := match KidAt(s, path[0]) case Some(c) => c case None => Slot(key, []);
      s.(kids := Place(s.kids, path[0], Insert(c, path[1..], key)))
  }

  /** The owner of the slot reached from `s` along the relative path `r`, if there is one. */
  function OwnerIn(s: Slot, r: seq<nat>): Option<Key>
    decreases |r|
  {
    if r == [] then Some(s.owner)
    else match KidAt(s, r[0]) case None => None case Some(c) => OwnerIn(c, r[1..])
  }

  /** Inserting a path keeps every existing slot and its owner, creates exactly the slots on the
      path that were missing, and tags each of them with the inserted key. */
  lemma {:induction false} InsertOwner(s: Slot, p: seq<nat>, k: Key, r: seq<nat>)
    ensures OwnerIn(Insert(s, p, k), r) ==
      if OwnerIn(s, r).Some? then OwnerIn(s, r) else if r <= p then Some(k) else None
    decreases p
  {
    if r != [] && p != [] {
      var c := match KidAt(s, p[0]) case Some(c) => c case None => Slot(k, []);
      var t := Insert(s, p, k);
      if r[0] == p[0] {
        assert KidAt(t, r[0]) == Some(Insert(c, p[1..], k));
        InsertOwner(c, p[1..], k, r[1..]);
        assert r <= p <==> r[1..] <= p[1..];
        if KidAt(s, p[0]).None? {
          assert OwnerIn(c, r[1..]) == if r[1..] == [] then Some(k) else None;
        }
      } else {
        assert KidAt(t, r[0]) == KidAt(s, r[0]);
        assert !(r <= p);
      }
    }
  }

  /** The scratch tree after the walks of all entries, in configuration order; the root is the
      `tmpPriorityRoot` placeholder with the empty key. */
  function Scratch(cfg: seq<Entry>): (root: Slot)
    ensures root.owner == ""
  {
    if cfg == [] then Slot("", [])
    else
      var n := |cfg| - 1;
      Insert(Scratch(cfg[..n]), cfg[n].path, cfg[n].key)
  }

  /** The index of the first entry whose path extends `q`: a reference definition of slot
      ownership that does not mention the tree. */
  function FirstIndex(cfg: seq<Entry>, q: seq<nat>): (r: Option<nat>)
    ensures r.Some? ==> r.value < |cfg| && q <= cfg[r.value].path
    ensures r.Some? ==> forall j | 0 <= j < r.value :: !(q <= cfg[j].path)
    ensures r.None? ==> forall j | 0 <= j < |cfg| :: !(q <= cfg[j].path)
  {
    if cfg == [] then None
    else
      var n := |cfg| - 1;
      match FirstIndex(cfg[..n], q)
      case Some(i) => Some(i)
      case None => if q <= cfg[n].path then Some(n) else None
  }

  /** The key of the first entry whose path extends `q`. */
  function FirstKey(cfg: seq<Entry>, q: seq<nat>): Option<Key> {
    match FirstIndex(cfg, q) case Some(i) => Some(cfg[i].key) case None => None
  }

  /** A slot exists at `q` exactly when some entry's path extends `q`, and it belongs to the
      first such entry: a slot is created only when absent and is never retagged. */
  lemma {:induction false} ScratchOwner(cfg: seq<Entry>, q: seq<nat>)
    requires q != []
    ensures OwnerIn(Scratch(cfg), q) == FirstKey(cfg, q)
  {
    if cfg != [] {
      var n := |cfg| - 1;
      ScratchOwner(cfg[..n], q);
      InsertOwner(Scratch(cfg[..n]), cfg[n].path, cfg[n].key, q);
    }
  }

  // ---------------------------------------------------------------- owners and parent-child pairs

  /** The keys that own some slot of the subtree of `s`, `s` itself included. */
  function Owners(s: Slot): set<Key>
    decreases s, 1, 0
  {
    {s.owner} + OwnersFrom(s, 0)
  }

  /** The owners within the subtrees of the kids of `s` from index `i` on. */
  function OwnersFrom(s: Slot, i: nat): set<Key>
    decreases s, 0, |s.kids| - i
  {
    if i >= |s.kids| then {}
    else (match s.kids[i] case None => {} case Some(c) => Owners(c)) + OwnersFrom(s, i + 1)
  }

  /** The (owner of a slot, owner of one of its kids) pairs of the subtree of `s`. */
  function KidPairs(s: Slot): set<(Key, Key)>
    decreases s, 1, 0
  {
    KidPairsFrom(s, 0)
  }

  /** The pairs contributed by the kids of `s` from index `i` on, and their subtrees. */
  function KidPairsFrom(s: Slot, i: nat): set<(Key, Key)>
    decreases s, 0, |s.kids| - i
  {
    if i >= |s.kids| then {}
    else
      (match s.kids[i] case None => {} case Some(c) => {(s.owner, c.owner)} + KidPairs(c))
      + KidPairsFrom(s, i + 1)
  }

  lemma SubPath(j: nat, r: seq<nat>, x: nat)
    ensures ([j] + r)[1..] == r
    ensures ([j] + r + [x])[1..] == r + [x]
  {
  }

  /** A key among the owners owns the slot at some position. */
  lemma {:induction false} OwnerWitness(s: Slot, k: Key) returns (r: seq<nat>)
    requires k in Owners(s)
    ensures OwnerIn(s, r) == Some(k)
    decreases s, 1, 0
  {
    if k == s.owner {
      r := [];
    } else {
      var j, r' := OwnerWitnessFrom(s, k, 0);
      r := [j] + r';
      SubPath(j, r', 0);
    }
  }

  lemma {:induction false} OwnerWitnessFrom(s: Slot, k: Key, i: nat) returns (j: nat, r: seq<nat>)
    requires k in OwnersFrom(s, i)
    ensures i <= j < |s.kids| && s.kids[j].Some? && OwnerIn(s.kids[j].value, r) == Some(k)
    decreases s, 0, |s.kids| - i
  {
    if s.kids[i].Some? && k in Owners(s.kids[i].value) {
      j := i;
      r := OwnerWitness(s.kids[i].value, k);
    } else {
      j, r := OwnerWitnessFrom(s, k, i + 1);
    }
  }

  lemma {:induction false} OwnersFromContains(s: Slot, i: nat, j: nat)
    requires i <= j < |s.kids| && s.kids[j].Some?
    ensures Owners(s.kids[j].value) <= OwnersFrom(s, i)
    ensures {(s.owner, s.kids[j].value.owner)} + KidPairs(s.kids[j].value) <= KidPairsFrom(s, i)
    decreases j - i
  {
    if i < j {
      OwnersFromContains(s, i + 1, j);
    }
  }

  /** The owner of every slot is among the owners. */
  lemma {:induction false} OwnerInOwners(s: Slot, r: seq<nat>)
    requires OwnerIn(s, r).Some?
    ensures OwnerIn(s, r).value in Owners(s)
    decreases |r|
  {
    if r != [] {
      var c := KidAt(s, r[0]).value;
      OwnerInOwners(c, r[1..]);
      OwnersFromContains(s, 0, r[0]);
    }
  }

  /** A pair is in `KidPairs` exactly when its keys own a slot and one of that slot's kids. */
  lemma {:induction false} KidPairWitness(s: Slot, a: Key, c: Key) returns (r: seq<nat>, x: nat)
    requires (a, c) in KidPairs(s)
    ensures OwnerIn(s, r) == Some(a) && OwnerIn(s, r + [x]) == Some(c)
    decreases s, 1, 0
  {
    r, x := KidPairWitnessFrom(s, a, c, 0);
  }

  lemma {:induction false} KidPairWitnessFrom(s: Slot, a: Key, c: Key, i: nat) returns (r: seq<nat>, x: nat)
    requires (a, c) in KidPairsFrom(s, i)
    ensures OwnerIn(s, r) == Some(a) && OwnerIn(s, r + [x]) == Some(c)
    decreases s, 0, |s.kids| - i
  {
    if s.kids[i].Some? && (a, c) == (s.owner, s.kids[i].value.owner) {
      r, x := [], i;
      assert ([] + [i])[1..] == [];
    } else if s.kids[i].Some? && (a, c) in KidPairs(s.kids[i].value) {
      var r', x' := KidPairWitness(s.kids[i].value, a, c);
      r, x := [i] + r', x';
      SubPath(i, r', x');
      assert (r + [x])[0] == i;
    } else {
      r, x := KidPairWitnessFrom(s, a, c, i + 1);
    }
  }

  lemma {:induction false} KidPairOf(s: Slot, r: seq<nat>, x: nat)
    requires OwnerIn(s, r).Some? && OwnerIn(s, r + [x]).Some?
    ensures (OwnerIn(s, r).value, OwnerIn(s, r + [x]).value) in KidPairs(s)
    decreases |r|
  {
    if r == [] {
      assert ([] + [x])[1..] == [];
      assert r + [x] == [x];
      OwnersFromContains(s, 0, x);
    } else {
      var c := KidAt(s, r[0]).value;
      assert (r + [x])[0] == r[0] && (r + [x])[1..] == r[1..] + [x];
      KidPairOf(c, r[1..], x);
      OwnersFromContains(s, 0, r[0]);
    }
  }
}
