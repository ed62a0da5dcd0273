/**
 * The insertion-ordered, name-keyed collections that hold a robot's links, joints and
 * materials. An entry sequence with pairwise distinct keys stands for an `IndexMap`:
 * `Insert` of a new key appends it, `Insert` of a present key overwrites the value in
 * its original slot, and `SwapRemove` (what `IndexMap::remove` does) moves the last
 * entry into the vacated slot.
 */
module IndexMaps {
  import opened Base

  predicate UniqueKeys<V>(m: seq<(string, V)>) {
    forall i, j :: 0 <= i < j < |m| ==> m[i].0 != m[j].0
  }

  type IndexMap<V> = m: seq<(string, V)> | UniqueKeys(m) witness []

  function Keys<V>(m: seq<(string, V)>): (ks: seq<string>)
    ensures |ks| == |m|
    ensures forall i :: 0 <= i < |m| ==> ks[i] == m[i].0
  {
    seq(|m|, i requires 0 <= i < |m| => m[i].0)
  }

  function Values<V>(m: seq<(string, V)>): (vs: seq<V>)
    ensures |vs| == |m|
    ensures forall i :: 0 <= i < |m| ==> vs[i] == m[i].1
  {
    seq(|m|, i requires 0 <= i < |m| => m[i].1)
  }

  /** The keys of a non-empty entry sequence: those of all but the last entry, then the last key. */
  lemma KeysSnoc<V>(m: seq<(string, V)>)
    requires m != []
    ensures Keys(m) == Keys(m[..|m| - 1]) + [m[|m| - 1].0]
  {
  }

  /** The keys of an index map never repeat. */
  lemma KeysDistinct<V>(m: IndexMap<V>)
    ensures Distinct(Keys(m))
  {
  }

  /** Slot of key `k`. */
  function IndexOf<V>(m: IndexMap<V>, k: string): (i: nat)
    requires k in Keys(m)
    ensures i < |m| && m[i].0 == k
    ensures forall j :: 0 <= j < |m| && m[j].0 == k ==> j == i
  {
    if m[0].0 == k then 0
    else
      assert k in Keys(m[1..]);
      1 + IndexOf(m[1..], k)
  }

  /** `IndexMap::get`. */
  function Get<V>(m: IndexMap<V>, k: string): (r: Option<V>)
    ensures r.Some? <==> k in Keys(m)
    ensures r.Some? ==> (k, r.value) in m
    ensures forall i :: 0 <= i < |m| && m[i].0 == k ==> r == Some(m[i].1)
  {
    if k in Keys(m) then Some(m[IndexOf(m, k)].1) else None
  }

  /** `IndexMap::insert`: a new key is appended; a present key keeps its slot and takes the new value. */
  function Insert<V>(m: IndexMap<V>, k: string, v: V): (r: IndexMap<V>)
    ensures Keys(r) == if k in Keys(m) then Keys(m) else Keys(m) + [k]
    ensures Get(r, k) == Some(v)
    ensures forall k' :: k' != k ==> Get(r, k') == Get(m, k')
    ensures k in Keys(m) ==> r[IndexOf(m, k)] == (k, v)
    ensures forall i :: 0 <= i < |m| && m[i].0 != k ==> r[i] == m[i]
  {
    if k in Keys(m) then
      var r := m[IndexOf(m, k) := (k, v)];
      assert Keys(r) == Keys(m);
      r
    else
      var r := m + [(k, v)];
      assert Keys(r) == Keys(m) + [k];
      r
  }

  /**
   * `IndexMap::swap_remove`: the entry for `k` disappears and, unless it was the last
   * one, the last entry takes its slot; every other entry keeps its slot.
   */
  function SwapRemove<V>(m: IndexMap<V>, k: string): (r: IndexMap<V>)
    ensures k !in Keys(m) ==> r == m
    ensures k in Keys(m) ==> |r| == |m| - 1
    ensures k in Keys(m) && IndexOf(m, k) < |m| - 1 ==> r[IndexOf(m, k)] == m[|m| - 1]
    ensures forall i :: 0 <= i < |r| && m[i].0 != k ==> r[i] == m[i]
    ensures k !in Keys(r)
    ensures forall k' :: k' != k ==> (k' in Keys(r) <==> k' in Keys(m))
    ensures Get(r, k) == None
    ensures forall k' :: k' != k ==> Get(r, k') == Get(m, k')
  {
    if k !in Keys(m) then m
    else
      SwapRemovedKeys(m, k);
      SwapRemovedGet(m, k);
      SwapRemoved(m, k)
  }

  /** The slots after `swap_remove` of a present key: the last entry moved into the removed one's slot. */
  function SwapRemoved<V>(m: IndexMap<V>, k: string): seq<(string, V)>
    requires k in Keys(m)
  {
    var i, last := IndexOf(m, k), |m| - 1;
    if i == last then m[..last] else m[..last][i := m[last]]
  }

  lemma SwapRemovedKeys<V>(m: IndexMap<V>, k: string)
    requires k in Keys(m)
    ensures var r := SwapRemoved(m, k);
      && UniqueKeys(r) && |r| == |m| - 1
      && (IndexOf(m, k) < |m| - 1 ==> r[IndexOf(m, k)] == m[|m| - 1])
      && (forall i :: 0 <= i < |r| && m[i].0 != k ==> r[i] == m[i])
      && k !in Keys(r)
      && (forall k' :: k' != k ==> (k' in Keys(r) <==> k' in Keys(m)))
  {
    var i, last := IndexOf(m, k), |m| - 1;
    var r := SwapRemoved(m, k);
    assert forall k' :: k' in Keys(r) ==> k' in Keys(m) && k' != k;
    forall j | 0 <= j < |m| && m[j].0 != k ensures m[j].0 in Keys(r) {
      if j == last { assert r[i].0 == m[j].0; } else { assert r[j].0 == m[j].0; }
    }
  }

  lemma SwapRemovedGet<V>(m: IndexMap<V>, k: string)
    requires k in Keys(m)
    ensures var r := SwapRemoved(m, k);
      UniqueKeys(r) && forall k' :: k' != k ==> Get(r, k') == Get(m, k')
  {
    SwapRemovedKeys(m, k);
    var r: IndexMap<V> := SwapRemoved(m, k);
    forall k' | k' != k ensures Get(r, k') == Get(m, k') {
      if k' in Keys(m) {
        var j := IndexOf(m, k');
        if j == |m| - 1 && IndexOf(m, k) < |m| - 1 {
          assert r[IndexOf(m, k)] == m[j];
        } else {
          assert r[j] == m[j];
        }
      }
    }
  }

  /** Rewriting values slot by slot, keeping every key, keeps the result an index map. */
  function MapValues<V>(m: IndexMap<V>, f: V -> V): (r: IndexMap<V>)
    ensures Keys(r) == Keys(m)
    ensures forall i :: 0 <= i < |m| ==> r[i] == (m[i].0, f(m[i].1))
  {
    var r := seq(|m|, i requires 0 <= i < |m| => (m[i].0, f(m[i].1)));
    assert Keys(r) == Keys(m);
    r
  }
}
