/** JavaScript `Map` objects: keyed lookup plus insertion-ordered iteration. */
module OrderedMaps {

  /** A `Map` as the pair of its iteration order and its contents. */
  datatype OMap<K, V> = OMap(keys: seq<K>, vals: map<K, V>)

  ghost predicate NoDups<K>(s: seq<K>) {
    forall i, j :: 0 <= i < j < |s| ==> s[i] != s[j]
  }

  /** Every key is iterated exactly once and only present keys are iterated. */
  ghost predicate Valid<K(!new), V>(m: OMap<K, V>) {
    && NoDups(m.keys)
    && (forall k :: k in m.vals <==> k in m.keys)
  }

  function Empty<K(!new), V>(): (m: OMap<K, V>)
    ensures Valid(m) && m.keys == [] && m.vals == map[]
  {
    OMap([], map[])
  }

  /** `Map.prototype.set`: a present key keeps its place in the iteration order, a new key goes last. */
  function Put<K(!new), V>(m: OMap<K, V>, k: K, v: V): (r: OMap<K, V>)
    requires Valid(m)
    ensures Valid(r)
    ensures r.vals == m.vals[k := v]
    ensures k in m.vals ==> r.keys == m.keys
    ensures k !in m.vals ==> r.keys == m.keys + [k]
  {
    if k in m.vals then OMap(m.keys, m.vals[k := v])
    else
      assert forall i :: 0 <= i < |m.keys| ==> m.keys[i] != k;
      OMap(m.keys + [k], m.vals[k := v])
  }

  /** The position of `k` in `s`: its first occurrence. */
  function IndexOf<K(==)>(s: seq<K>, k: K): (i: nat)
    requires k in s
    ensures i < |s| && s[i] == k
    ensures forall j :: 0 <= j < i ==> s[j] != k
  {
    if s[0] == k then 0 else 1 + IndexOf(s[1..], k)
  }

  /** In a duplicate-free sequence, the position of an element is the only index holding it. */
  lemma IndexOfUnique<K>(s: seq<K>, j: nat)
    requires NoDups(s) && j < |s|
    ensures IndexOf(s, s[j]) == j
  {
  }

  /** The position of a key in the iteration order of a valid map. */
  function Pos<K(!new), V>(m: OMap<K, V>, k: K): (i: nat)
    requires Valid(m) && k in m.vals
    ensures i < |m.keys| && m.keys[i] == k
  {
    IndexOf(m.keys, k)
  }

  /** Appending a key leaves the positions of the old keys alone and puts the new one last. */
  lemma PosAfterAppend<K(!new), V>(m: OMap<K, V>, k: K, v: V, x: K)
    requires Valid(m) && k !in m.vals && (x in m.vals || x == k)
    ensures x in Put(m, k, v).vals
    ensures Pos(Put(m, k, v), x) == if x == k then |m.keys| else Pos(m, x)
  {
    var r := Put(m, k, v);
    if x == k {
      IndexOfUnique(r.keys, |m.keys|);
    } else {
      IndexOfUnique(r.keys, Pos(m, x));
    }
  }
}
