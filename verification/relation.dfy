/** One action of a composition and its place in the dependency graph
    (action-relation.cpp). A relation holds a key and a value; its value is
    empty until the action has run. Its dependencies are the relations whose
    values it needs, and its depth is one more than the deepest of them. */
module ActionRelation {

  /** The dependencies are recorded by key: inside a manifest every key names
      exactly one relation, so a key identifies the shared object the source
      points at. */
  datatype Relation = Relation(key: string, value: string, path: string, deps: seq<string>, depth: nat)

  /** `Relation()`: empty key, value and path, no dependencies, depth 0. */
  const Default := Relation("", "", "", [], 0)

  /** A relation is complete once its value is non-empty. */
  predicate Complete(r: Relation)
  {
    r.value != []
  }

  /** The constructor's loop: starting from `depth`, every dependency at
      least as deep lifts it to one more than that dependency. */
  function DepthLoop(depth: nat, ds: seq<nat>): (d: nat)
    ensures d >= depth
    ensures forall i :: 0 <= i < |ds| ==> ds[i] < d
    decreases |ds|
  {
    if |ds| == 0 then depth
    else DepthLoop(if ds[0] >= depth then ds[0] + 1 else depth, ds[1..])
  }

  /** The depth of a relation whose dependencies have the depths `ds`. */
  function Depth(ds: seq<nat>): (d: nat)
    ensures d >= 1
    ensures forall i :: 0 <= i < |ds| ==> ds[i] < d
  {
    DepthLoop(1, ds)
  }

  /** The largest element, 0 for none: the reference definition the loop is
      compared with. */
  function Max(ds: seq<nat>): (m: nat)
    ensures forall i :: 0 <= i < |ds| ==> ds[i] <= m
    ensures |ds| > 0 ==> exists i :: 0 <= i < |ds| && ds[i] == m
  {
    if |ds| == 0 then 0
    else
      var m := Max(ds[1..]);
      assert forall i :: 1 <= i < |ds| ==> ds[i] == ds[1..][i - 1];
      if ds[0] >= m then ds[0] else m
  }

  lemma {:induction false} DepthLoopMax(depth: nat, ds: seq<nat>)
    ensures DepthLoop(depth, ds) == if |ds| > 0 && Max(ds) >= depth then Max(ds) + 1 else depth
    decreases |ds|
  {
    if |ds| > 0 {
      var next := if ds[0] >= depth then ds[0] + 1 else depth;
      DepthLoopMax(next, ds[1..]);
      assert forall i :: 1 <= i < |ds| ==> ds[i] == ds[1..][i - 1];
    }
  }

  /** The depth is exactly one more than the deepest dependency, and 1 when
      there is none. */
  lemma DepthIsMaxPlusOne(ds: seq<nat>)
    ensures Depth(ds) == Max(ds) + 1
  {
    DepthLoopMax(1, ds);
  }

  function Depths(rs: seq<Relation>): (ds: seq<nat>)
    ensures |ds| == |rs| && forall i :: 0 <= i < |rs| ==> ds[i] == rs[i].depth
  {
    seq(|rs|, i requires 0 <= i < |rs| => rs[i].depth)
  }

  function Keys(rs: seq<Relation>): (ks: seq<string>)
    ensures |ks| == |rs| && forall i :: 0 <= i < |rs| ==> ks[i] == rs[i].key
  {
    seq(|rs|, i requires 0 <= i < |rs| => rs[i].key)
  }

  /** The four constructors `Relation(key, [value,] path, dependencies)`: the
      two without a value pass the empty string, and copying or moving the
      arguments makes no difference to the result. */
  function Make(key: string, value: string, path: string, deps: seq<Relation>): (r: Relation)
    ensures r.key == key && r.value == value && r.path == path
    ensures r.deps == Keys(deps)
    ensures r.depth >= 1 && forall i :: 0 <= i < |deps| ==> deps[i].depth < r.depth
    ensures |deps| == 0 ==> r.depth == 1
    ensures |deps| > 0 ==> exists i :: 0 <= i < |deps| && r.depth == deps[i].depth + 1
  {
    var ds := Depths(deps);
    assert forall i :: 0 <= i < |deps| ==> ds[i] == deps[i].depth;
    DepthIsMaxPlusOne(ds);
    Relation(key, value, path, Keys(deps), Depth(ds))
  }
}
