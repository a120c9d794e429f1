/** An execution context (execution-context.cpp): one /init or /run request
    in flight, with its id, its manifest of relations, the stack of execution
    indices and the controls of the threads that run its actions. */
module ExecutionContext {
  import opened Wrappers
  import Uuid
  import opened ActionRelation
  import opened ActionManifest
  import opened ThreadControl

  datatype Route = Init | Run

  datatype Context = Context(id: Uuid.Uuid, route: Route, manifest: seq<Relation>, stack: seq<nat>,
                             threads: seq<Control>)

  /** The environment the Run constructor reads: `__OW_ACTIONS`,
      `__OW_ACTION_EXT` and `__OW_ACTION_ENTRY_POINT`, each possibly unset. */
  datatype Env = Env(actions: Option<string>, ext: Option<string>, entry: Option<string>)

  /** What is found at `<actions>/action-manifest.json`: no file, a file
      that does not parse as a JSON object of members, or its members. */
  datatype ManifestFile = Absent | Malformed | Parsed(members: seq<Entry>)

  /** `ExecutionContext(init)`, with the id the v4 constructor produced. */
  function InitContext(id: Uuid.Uuid): (c: Context)
    ensures c.id == id && c.route == Init && c.stack == [0]
    ensures c.manifest == [] && c.threads == []
  {
    Context(id, Init, [], [0], [])
  }

  // ---------------------------------------------------------------------------
  // Counting keys

  lemma {:induction false} UniqueCard(ks: seq<string>)
    requires Unique(ks)
    ensures |set x | x in ks| == |ks|
    decreases |ks|
  {
    if |ks| > 0 {
      var rest := ks[1..];
      assert Unique(rest) by {
        forall i, j | 0 <= i < j < |rest| ensures rest[i] != rest[j] {
          assert rest[i] == ks[i + 1] && rest[j] == ks[j + 1];
        }
      }
      UniqueCard(rest);
      assert ks[0] !in rest by {
        forall j | 0 <= j < |rest| ensures rest[j] != ks[0] {
          assert rest[j] == ks[j + 1];
        }
      }
      assert (set x | x in ks) == {ks[0]} + (set x | x in rest) by {
        assert ks == [ks[0]] + rest;
      }
    }
  }

  lemma SubsetCard(a: set<string>, b: set<string>)
    requires a <= b
    ensures |a| <= |b|
  {
    assert b == a + (b - a);
  }

  /** Distinct keys drawn from a list of distinct keys are no more than the
      list, and as many only when every key of the list is drawn. */
  lemma Pigeonhole(ks: seq<string>, ms: seq<string>)
    requires Unique(ks) && Unique(ms)
    requires forall i :: 0 <= i < |ks| ==> ks[i] in ms
    ensures |ks| <= |ms|
    ensures |ks| >= |ms| ==> forall j :: 0 <= j < |ms| ==> ms[j] in ks
    ensures (forall j :: 0 <= j < |ms| ==> ms[j] in ks) ==> |ks| >= |ms|
  {
    var a, b := set x | x in ks, set x | x in ms;
    UniqueCard(ks);
    UniqueCard(ms);
    SubsetCard(a, b);
    if forall j :: 0 <= j < |ms| ==> ms[j] in ks {
      SubsetCard(b, a);
    }
    if |ks| >= |ms| {
      forall j | 0 <= j < |ms| ensures ms[j] in ks {
        if ms[j] !in ks {
          SubsetCard(a, b - {ms[j]});
        }
      }
    }
  }

  /** `std::find_if` over the manifest for a member whose key is not yet
      indexed. */
  function FirstMissing(ms: seq<string>, ks: seq<string>, from: nat): (r: Option<nat>)
    ensures r.Some? ==> from <= r.value < |ms| && ms[r.value] !in ks
    ensures r.None? ==> forall j :: from <= j < |ms| ==> ms[j] in ks
    decreases |ms| - from
  {
    if from >= |ms| then None
    else if ms[from] !in ks then Some(from)
    else FirstMissing(ms, ks, from + 1)
  }

  lemma AtIn(idx: seq<Relation>, k: string)
    ensures At(idx, k).Some? <==> k in Keys(idx)
  {
    if k in Keys(idx) {
      var j :| 0 <= j < |Keys(idx)| && Keys(idx)[j] == k;
    }
  }

  lemma BuiltKeys(idx: seq<Relation>, m: seq<Entry>, dir: string)
    requires forall i :: 0 <= i < |idx| ==> Built(idx[i], m, dir)
    ensures forall i :: 0 <= i < |idx| ==> Keys(idx)[i] in EntryKeys(m)
  {
    forall i | 0 <= i < |idx| ensures Keys(idx)[i] in EntryKeys(m) {
      var e := IndexOf(EntryKeys(m), idx[i].key).value;
      assert EntryKeys(m)[e] == idx[i].key;
    }
  }

  // ---------------------------------------------------------------------------
  // The manifest loop (execution-context.cpp:40-51)

  /** While the index holds fewer relations than the manifest has members,
      emplace the first member not yet indexed. A "depends" entry naming no
      member makes `manifest.at` throw. */
  method Build(m: seq<Entry>, dir: string, ghost rank: string -> nat) returns (r: Result<seq<Relation>>)
    requires Acyclic(m, rank) && Unique(EntryKeys(m))
    ensures r.Success? ==> |r.value| == |m| && Unique(Keys(r.value)) && Ordered(r.value)
    ensures r.Success? ==> forall i :: 0 <= i < |m| ==> At(r.value, m[i].key).Some?
    ensures r.Success? ==> forall i :: 0 <= i < |r.value| ==> Built(r.value[i], m, dir)
    ensures Closed(m) ==> r.Success?
  {
    var idx: seq<Relation> := [];
    while |idx| < |m|
      invariant Partial(idx, m, dir)
      decreases |m| - |idx|
    {
      var found := FirstMissing(EntryKeys(m), Keys(idx), 0);
      if found.None? {
        MissingFound(idx, m, dir);
        assert false;
      }
      var key := m[found.value].key;
      var e := Emplace(idx, key, m, dir, rank);
      if e.Failure? {
        if Closed(m) {
          EmplaceSucceeds(idx, key, m, dir, rank);
        }
        return Failure(e.error);
      }
      BuildStep(idx, key, m, dir, rank);
      idx := e.value;
    }
    BuildDone(idx, m, dir);
    return Success(idx);
  }

  /** The invariant of the manifest loop. */
  predicate Partial(idx: seq<Relation>, m: seq<Entry>, dir: string)
  {
    Unique(Keys(idx)) && Ordered(idx) && |idx| <= |m|
    && forall i :: 0 <= i < |idx| ==> Built(idx[i], m, dir)
  }

  /** While the index is short of the manifest, some member is missing. */
  lemma MissingFound(idx: seq<Relation>, m: seq<Entry>, dir: string)
    requires Unique(EntryKeys(m)) && Partial(idx, m, dir) && |idx| < |m|
    ensures FirstMissing(EntryKeys(m), Keys(idx), 0).Some?
  {
    BuiltKeys(idx, m, dir);
    Pigeonhole(Keys(idx), EntryKeys(m));
  }

  /** Emplacing a missing member keeps the invariant and lengthens the index. */
  lemma BuildStep(idx: seq<Relation>, key: string, m: seq<Entry>, dir: string, rank: string -> nat)
    requires Acyclic(m, rank) && Unique(EntryKeys(m)) && Partial(idx, m, dir)
    requires key !in Keys(idx) && Emplace(idx, key, m, dir, rank).Success?
    ensures var e := Emplace(idx, key, m, dir, rank).value; Partial(e, m, dir) && |e| > |idx|
  {
    var e := Emplace(idx, key, m, dir, rank).value;
    AtIn(idx, key);
    EmplaceKeeps(idx, key, m, dir, rank);
    assert Unique(Keys(e)) && Ordered(e);
    forall i | 0 <= i < |e| ensures Built(e[i], m, dir) {
      if i < |idx| {
        assert e[i] == e[..|idx|][i];
      }
    }
    BuiltKeys(e, m, dir);
    Pigeonhole(Keys(e), EntryKeys(m));
  }

  lemma BuildDone(idx: seq<Relation>, m: seq<Entry>, dir: string)
    requires Unique(EntryKeys(m)) && Partial(idx, m, dir) && |idx| >= |m|
    ensures |idx| == |m| && forall i :: 0 <= i < |m| ==> At(idx, m[i].key).Some?
  {
    BuiltKeys(idx, m, dir);
    Pigeonhole(Keys(idx), EntryKeys(m));
    forall i | 0 <= i < |m| ensures At(idx, m[i].key).Some? {
      assert EntryKeys(m)[i] == m[i].key;
      AtIn(idx, m[i].key);
    }
  }

  // ---------------------------------------------------------------------------
  // The depth sort (execution-context.cpp:53-55)

  /** Depth never increases along the manifest. */
  predicate DepthSorted(s: seq<Relation>)
  {
    forall i, j :: 0 <= i < j < |s| ==> s[i].depth >= s[j].depth
  }

  /** Every dependency sits at a later position than its dependent. */
  predicate DepsLater(s: seq<Relation>)
  {
    forall i, k :: 0 <= i < |s| && 0 <= k < |s[i].deps| ==>
      At(s, s[i].deps[k]).Some? && At(s, s[i].deps[k]).value > i
  }

  function Insert(x: Relation, t: seq<Relation>): (r: seq<Relation>)
    requires DepthSorted(t)
    ensures multiset(r) == multiset(t) + multiset{x} && DepthSorted(r)
  {
    if |t| == 0 || x.depth >= t[0].depth then [x] + t
    else
      var rest := Insert(x, t[1..]);
      assert t == [t[0]] + t[1..];
      RestBelow(x, t, rest);
      SortedCons(t[0], rest);
      [t[0]] + rest
  }

  /** What is inserted after the head of a sorted sequence is no deeper. */
  lemma RestBelow(x: Relation, t: seq<Relation>, rest: seq<Relation>)
    requires |t| > 0 && DepthSorted(t) && x.depth < t[0].depth
    requires multiset(rest) == multiset(t[1..]) + multiset{x}
    ensures forall y :: y in rest ==> y.depth <= t[0].depth
  {
    forall y | y in rest ensures y.depth <= t[0].depth {
      assert y in multiset(rest);
      if y != x {
        assert y in multiset(t[1..]);
        var i :| 0 <= i < |t[1..]| && t[1..][i] == y;
        assert y == t[i + 1];
      }
    }
  }

  lemma SortedCons(h: Relation, rest: seq<Relation>)
    requires DepthSorted(rest) && forall y :: y in rest ==> y.depth <= h.depth
    ensures DepthSorted([h] + rest)
  {
    var r := [h] + rest;
    forall i, j | 0 <= i < j < |r| ensures r[i].depth >= r[j].depth {
      assert r[j] == rest[j - 1];
      if i > 0 {
        assert r[i] == rest[i - 1];
      } else {
        assert rest[j - 1] in rest;
      }
    }
  }

  /** `std::sort` with `a->depth() > b->depth()`, as an insertion sort: the
      relations are rearranged, never added or lost, deepest first. */
  function SortByDepth(s: seq<Relation>): (r: seq<Relation>)
    ensures multiset(r) == multiset(s) && DepthSorted(r)
  {
    if |s| == 0 then []
    else
      assert s == [s[0]] + s[1..];
      Insert(s[0], SortByDepth(s[1..]))
  }

  /** A relation occurring once, and no other with its key. */
  lemma CountOnce(a: seq<Relation>, p: nat)
    requires Unique(Keys(a)) && p < |a|
    ensures multiset(a)[a[p]] == 1
  {
    var x := a[p];
    assert a == a[..p] + [x] + a[p + 1..];
    assert x !in a[..p] by {
      forall q | 0 <= q < p ensures a[..p][q] != x {
        assert Keys(a)[q] != Keys(a)[p];
      }
    }
    var tail := a[p + 1..];
    assert x !in tail by {
      forall q | 0 <= q < |tail| ensures tail[q] != x {
        assert Keys(a)[p + 1 + q] != Keys(a)[p];
      }
    }
    assert multiset(a) == multiset(a[..p]) + multiset{x} + multiset(a[p + 1..]);
  }

  /** A relation at two positions occurs at least twice. */
  lemma CountTwice(b: seq<Relation>, i: nat, j: nat)
    requires i < j < |b| && b[i] == b[j]
    ensures multiset(b)[b[i]] >= 2
  {
    assert b == b[..j] + b[j..];
    assert b[..j][i] == b[i] && b[j..][0] == b[i];
    assert multiset(b) == multiset(b[..j]) + multiset(b[j..]);
  }

  /** A rearrangement of an index with distinct keys has distinct keys. */
  lemma UniquePerm(a: seq<Relation>, b: seq<Relation>)
    requires multiset(a) == multiset(b) && Unique(Keys(a))
    ensures Unique(Keys(b))
  {
    forall i, j | 0 <= i < j < |b| ensures Keys(b)[i] != Keys(b)[j] {
      if b[i].key == b[j].key {
        assert b[i] in multiset(a) && b[j] in multiset(a);
        SameKey(a, b[i], b[j]);
        CountTwice(b, i, j);
        var p :| 0 <= p < |a| && a[p] == b[i];
        CountOnce(a, p);
        assert false;
      }
    }
  }

  /** Two relations of an index with distinct keys that share a key are the
      same relation. */
  lemma SameKey(s: seq<Relation>, x: Relation, y: Relation)
    requires Unique(Keys(s)) && x in s && y in s && x.key == y.key
    ensures x == y
  {
    var p :| 0 <= p < |s| && s[p] == x;
    var q :| 0 <= q < |s| && s[q] == y;
    assert Keys(s)[p] == Keys(s)[q];
  }

  /** Sorting an index with distinct keys whose dependencies are shallower
      keeps the keys distinct, keeps every key, and moves every dependency
      behind its dependent. */
  lemma SortLayers(s: seq<Relation>)
    requires Unique(Keys(s)) && Layered(s)
    ensures var r := SortByDepth(s);
            Unique(Keys(r)) && Layered(r) && DepsLater(r)
            && |r| == |s| && forall k :: k in Keys(s) <==> k in Keys(r)
  {
    var r := SortByDepth(s);
    UniquePerm(s, r);
    assert |r| == |s| by {
      assert |multiset(r)| == |multiset(s)|;
    }
    PermKeys(s, r);
    forall i, k | 0 <= i < |r| && 0 <= k < |r[i].deps|
      ensures At(r, r[i].deps[k]).Some? && r[At(r, r[i].deps[k]).value].depth < r[i].depth
              && At(r, r[i].deps[k]).value > i
    {
      DepAfter(s, r, i, k);
    }
  }

  lemma PermKeys(s: seq<Relation>, r: seq<Relation>)
    requires multiset(r) == multiset(s)
    ensures forall k :: k in Keys(s) <==> k in Keys(r)
  {
    forall k ensures k in Keys(s) <==> k in Keys(r) {
      if k in Keys(s) {
        var p :| 0 <= p < |s| && Keys(s)[p] == k;
        assert s[p] in multiset(r);
        var j :| 0 <= j < |r| && r[j] == s[p];
        assert Keys(r)[j] == k;
      }
      if k in Keys(r) {
        var j :| 0 <= j < |r| && Keys(r)[j] == k;
        assert r[j] in multiset(s);
        var p :| 0 <= p < |s| && s[p] == r[j];
        assert Keys(s)[p] == k;
      }
    }
  }

  /** In the sorted index a dependency is found, shallower and later. */
  lemma DepAfter(s: seq<Relation>, r: seq<Relation>, i: nat, k: nat)
    requires Unique(Keys(s)) && Layered(s) && multiset(r) == multiset(s) && DepthSorted(r)
    requires i < |r| && k < |r[i].deps|
    ensures At(r, r[i].deps[k]).Some? && r[At(r, r[i].deps[k]).value].depth < r[i].depth
            && At(r, r[i].deps[k]).value > i
  {
    var d := r[i].deps[k];
    assert r[i] in multiset(s);
    var p :| 0 <= p < |s| && s[p] == r[i];
    assert s[p].deps[k] == d;
    var q := At(s, d).value;
    assert s[q].key == d;
    AtIn(s, d);
    PermKeys(s, r);
    AtIn(r, d);
    var j := At(r, d).value;
    assert r[j].key == d;
    assert r[j] in multiset(s);
    SameKey(s, r[j], s[q]);
  }

  // ---------------------------------------------------------------------------
  // Construction (execution-context.cpp:16-79, 81-144)

  /** One relation per manifest key, and no other. */
  predicate OneEach(idx: seq<Relation>, m: seq<Entry>)
  {
    |idx| == |m| && Unique(Keys(idx)) && forall i :: 0 <= i < |m| ==> At(idx, m[i].key).Some?
  }

  /** The index `emplace` built, sorted deepest first, still holds one built
      relation per manifest key, and every dependency now lies later. */
  lemma SortedIndex(idx: seq<Relation>, m: seq<Entry>, dir: string)
    requires |idx| == |m| && Unique(Keys(idx)) && Ordered(idx)
    requires forall i :: 0 <= i < |m| ==> At(idx, m[i].key).Some?
    requires forall i :: 0 <= i < |idx| ==> Built(idx[i], m, dir)
    ensures var sorted := SortByDepth(idx);
            OneEach(sorted, m) && DepthSorted(sorted) && Layered(sorted) && DepsLater(sorted)
            && forall i :: 0 <= i < |sorted| ==> Built(sorted[i], m, dir)
  {
    var sorted := SortByDepth(idx);
    OrderedLayered(idx);
    SortLayers(idx);
    forall i | 0 <= i < |m| ensures At(sorted, m[i].key).Some? {
      AtIn(idx, m[i].key);
      AtIn(sorted, m[i].key);
    }
    forall i | 0 <= i < |sorted| ensures Built(sorted[i], m, dir) {
      assert sorted[i] in multiset(sorted);
      var p :| 0 <= p < |idx| && idx[p] == sorted[i];
    }
  }

  /** `ExecutionContext(run[, uuid])`. `__OW_ACTIONS` unset, an unparsable or
      empty manifest, or (without a manifest) `__OW_ACTION_EXT` unset throw.
      A manifest is indexed by `emplace` and sorted deepest first; without
      one, the context holds the single entry point (default "main") with the
      file `main.<ext>` and no dependencies. */
  method RunContext(id: Uuid.Uuid, env: Env, file: ManifestFile, ghost rank: string -> nat)
    returns (r: Result<Context>)
    requires file.Parsed? ==> Acyclic(file.members, rank) && Unique(EntryKeys(file.members))
    ensures env.actions.None? || file.Malformed? || file == Parsed([]) ==> r.Failure?
    ensures file.Absent? && env.ext.None? ==> r.Failure?
    ensures r.Success? ==> r.value.id == id && r.value.route == Run && r.value.stack == [0] && r.value.threads == []
    ensures r.Success? && file.Parsed? ==>
              OneEach(r.value.manifest, file.members) && DepthSorted(r.value.manifest)
              && Layered(r.value.manifest) && DepsLater(r.value.manifest)
              && forall i :: 0 <= i < |r.value.manifest| ==> Built(r.value.manifest[i], file.members, env.actions.value)
    ensures r.Success? && file.Absent? ==>
              |r.value.manifest| == 1 && r.value.manifest[0].key == env.entry.GetOr("main")
              && r.value.manifest[0].value == [] && r.value.manifest[0].deps == []
              && r.value.manifest[0].depth == 1
              && r.value.manifest[0].path == Join(env.actions.value, "main." + env.ext.value)
    ensures env.actions.Some? && file.Parsed? && |file.members| > 0 && Closed(file.members) ==> r.Success?
    ensures env.actions.Some? && file.Absent? && env.ext.Some? ==> r.Success?
  {
    if env.actions.None? {
      return Failure("Environment variable __OW_ACTIONS not defined!");
    }
    var dir := env.actions.value;
    match file {
      case Malformed =>
        return Failure("boost json parse failed.");
      case Parsed(m) =>
        if |m| == 0 {
          return Failure("action-manifest.json can't be empty.");
        }
        var built := Build(m, dir, rank);
        if built.Failure? {
          return Failure(built.error);
        }
        var idx := built.value;
        var sorted := SortByDepth(idx);
        SortedIndex(idx, m, dir);
        return Success(Context(id, Run, sorted, [0], []));
      case Absent =>
        if env.ext.None? {
          return Failure("Environment variable __OW_ACTION_EXT is not defined!");
        }
        var entry := env.entry.GetOr("main");
        var rel := Make(entry, [], Join(dir, "main." + env.ext.value), []);
        return Success(Context(id, Run, [rel], [0], []));
    }
  }

  // ---------------------------------------------------------------------------
  // Members (execution-context.cpp:146-171)

  /** `operator==`: contexts are the same exactly when their ids are. */
  method Same(a: Context, b: Context) returns (r: bool)
    ensures r <==> a.id == b.id
  {
    r := Uuid.Equal(a.id, b.id);
  }

  /** Every thread control of the context is stopped; true for none. */
  predicate AllStopped(c: Context)
  {
    forall i :: 0 <= i < |c.threads| ==> Stopped(c.threads[i])
  }

  /** `is_stopped()`, the loop over the thread controls. */
  method IsStopped(c: Context) returns (r: bool)
    ensures r <==> AllStopped(c)
  {
    var i := 0;
    while i < |c.threads|
      invariant 0 <= i <= |c.threads|
      invariant forall j :: 0 <= j < i ==> Stopped(c.threads[j])
    {
      if !Stopped(c.threads[i]) {
        return false;
      }
      i := i + 1;
    }
    return true;
  }

  /** `push_execution_idx(idx)`. */
  function Push(c: Context, idx: nat): (r: Context)
    ensures r.stack == c.stack + [idx]
    ensures r == c.(stack := r.stack)
  {
    c.(stack := c.stack + [idx])
  }

  /** `pop_execution_idx()`: the last index and the context without it; an
      empty stack throws. */
  function Pop(c: Context): (r: Result<(Context, nat)>)
    ensures c.stack == [] <==> r.Failure?
    ensures r.Success? ==> r.value.0.stack + [r.value.1] == c.stack
    ensures r.Success? ==> r.value.0 == c.(stack := r.value.0.stack)
  {
    if |c.stack| == 0 then Failure("Execution Context idx stack shouldn't be empty when calling pop.")
    else Success((c.(stack := c.stack[..|c.stack| - 1]), c.stack[|c.stack| - 1]))
  }

  /** A pop after `push(i)` returns i and restores the stack. */
  lemma PopPush(c: Context, idx: nat)
    ensures Pop(Push(c, idx)) == Success((c, idx))
  {
    assert (c.stack + [idx])[..|c.stack|] == c.stack;
  }
}
