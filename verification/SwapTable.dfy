/** Tables that keep one entry per key in an unordered prefix of an array and remove an entry by
    moving the last one into its place, as src/ipdefrag.c and src/fragtrack.c do. */
module SwapTable {

  ghost predicate Distinct<K, V>(ps: seq<(K, V)>) {
    forall i, j :: 0 <= i < j < |ps| ==> ps[i].0 != ps[j].0
  }

  ghost predicate HasKey<K, V>(ps: seq<(K, V)>, k: K) {
    exists i :: 0 <= i < |ps| && ps[i].0 == k
  }

  /** The map that a table of keys with values stands for. */
  function ToMap<K, V>(ps: seq<(K, V)>): map<K, V> {
    if ps == [] then map[] else ToMap(ps[..|ps| - 1])[ps[|ps| - 1].0 := ps[|ps| - 1].1]
  }

  /** The last element takes the place of element i. */
  function SwapOut<T>(s: seq<T>, i: nat): (r: seq<T>)
    requires i < |s|
    ensures |r| == |s| - 1
  {
    seq(|s| - 1, j requires 0 <= j < |s| - 1 => if j == i then s[|s| - 1] else s[j])
  }

  /** One entry per key: the map has exactly the table's keys, each with its own value. */
  lemma {:induction false} MapOf<K, V>(ps: seq<(K, V)>)
    requires Distinct(ps)
    ensures |ToMap(ps)| == |ps|
    ensures forall i :: 0 <= i < |ps| ==> ps[i].0 in ToMap(ps) && ToMap(ps)[ps[i].0] == ps[i].1
    ensures forall k :: k in ToMap(ps) ==> HasKey(ps, k)
  {
    if ps != [] {
      var n := |ps| - 1;
      MapOf(ps[..n]);
      assert forall k :: HasKey(ps[..n], k) ==> HasKey(ps, k);
      assert ps[n].0 !in ToMap(ps[..n]);
    }
  }

  /** A map with exactly the table's keys and values is the table's map. */
  lemma {:induction false} IsMapOf<K, V>(ps: seq<(K, V)>, m: map<K, V>)
    requires Distinct(ps)
    requires forall i :: 0 <= i < |ps| ==> ps[i].0 in m && m[ps[i].0] == ps[i].1
    requires forall k :: k in m ==> HasKey(ps, k)
    ensures ToMap(ps) == m
  {
    MapOf(ps);
  }

  lemma {:induction false} Added<K, V>(ps: seq<(K, V)>, k: K, v: V)
    requires Distinct(ps) && k !in ToMap(ps)
    ensures Distinct(ps + [(k, v)]) && ToMap(ps + [(k, v)]) == ToMap(ps)[k := v]
  {
    MapOf(ps);
    assert (ps + [(k, v)])[..|ps|] == ps;
  }

  lemma {:induction false} Changed<K, V>(ps: seq<(K, V)>, i: nat, v: V)
    requires Distinct(ps) && i < |ps|
    ensures Distinct(ps[i := (ps[i].0, v)]) && ToMap(ps[i := (ps[i].0, v)]) == ToMap(ps)[ps[i].0 := v]
  {
    MapOf(ps);
    var ps' := ps[i := (ps[i].0, v)];
    forall k | HasKey(ps, k) ensures HasKey(ps', k) {
      var j :| 0 <= j < |ps| && ps[j].0 == k;
      assert ps'[j].0 == k;
    }
    assert HasKey(ps', ps[i].0);
    IsMapOf(ps', ToMap(ps)[ps[i].0 := v]);
  }

  lemma {:induction false} SwapOutKeeps<K, V>(ps: seq<(K, V)>, i: nat, k: K)
    requires i < |ps| && HasKey(ps, k) && k != ps[i].0
    ensures HasKey(SwapOut(ps, i), k)
  {
    var j :| 0 <= j < |ps| && ps[j].0 == k;
    assert SwapOut(ps, i)[if j == |ps| - 1 then i else j].0 == k;
  }

  lemma {:induction false} Removed<K, V>(ps: seq<(K, V)>, i: nat)
    requires Distinct(ps) && i < |ps|
    ensures Distinct(SwapOut(ps, i)) && ToMap(SwapOut(ps, i)) == ToMap(ps) - {ps[i].0}
  {
    MapOf(ps);
    var m := ToMap(ps) - {ps[i].0};
    forall k | k in m ensures HasKey(SwapOut(ps, i), k) { SwapOutKeeps(ps, i, k); }
    IsMapOf(SwapOut(ps, i), m);
  }
}
