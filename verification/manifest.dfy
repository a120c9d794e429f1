/** The action manifest (action-manifest.cpp): an index of relations built
    from the JSON manifest by a recursive topological insertion, and the
    scheduler's choice of the next relation that is ready to run. */
module ActionManifest {
  import opened Wrappers
  import opened ActionRelation
  import opened Power

  /** One member of the JSON manifest: its key, its "depends" array and its
      "file". A JSON object keeps its members in order with distinct keys. */
  datatype Entry = Entry(key: string, depends: seq<string>, file: string)

  function EntryKeys(m: seq<Entry>): (ks: seq<string>)
    ensures |ks| == |m| && forall i :: 0 <= i < |m| ==> ks[i] == m[i].key
  {
    seq(|m|, i requires 0 <= i < |m| => m[i].key)
  }

  /** `std::find_if` by key: the first position holding `k`. */
  function IndexOf(ks: seq<string>, k: string): (r: Option<nat>)
    ensures r.Some? ==> r.value < |ks| && ks[r.value] == k
    ensures r.Some? ==> forall j :: 0 <= j < r.value ==> ks[j] != k
    ensures r.None? <==> forall j :: 0 <= j < |ks| ==> ks[j] != k
  {
    if |ks| == 0 then None
    else if ks[0] == k then Some(0)
    else
      match IndexOf(ks[1..], k)
      case None => assert forall j :: 1 <= j < |ks| ==> ks[j] == ks[1..][j - 1]; None
      case Some(j) => assert forall i :: 1 <= i < |ks| ==> ks[i] == ks[1..][i - 1]; Some(j + 1)
  }

  predicate Unique(ks: seq<string>)
  {
    forall i, j :: 0 <= i < j < |ks| ==> ks[i] != ks[j]
  }

  /** Where a key sits in the index. */
  function At(idx: seq<Relation>, k: string): Option<nat>
  {
    IndexOf(Keys(idx), k)
  }

  /** Appending keeps the positions of the keys already present. */
  lemma AtExtend(idx: seq<Relation>, more: seq<Relation>, k: string)
    requires At(idx, k).Some?
    ensures At(idx + more, k) == At(idx, k)
  {
    var i := At(idx, k).value;
    assert Keys(idx + more)[i] == k;
  }

  /** `std::filesystem::path::operator/=` on POSIX: an absolute right side
      replaces the path; otherwise a separator is added when the left side
      is non-empty and does not already end in one. */
  function Join(dir: string, f: string): (p: string)
    ensures |f| > 0 && f[0] == '/' ==> p == f
    ensures !(|f| > 0 && f[0] == '/') ==> |p| >= |f| && p[|p| - |f|..] == f
  {
    if |f| > 0 && f[0] == '/' then f
    else if |dir| == 0 || dir[|dir| - 1] == '/' then dir + f
    else dir + "/" + f
  }

  // ---------------------------------------------------------------------------
  // Well-formed manifests and indexes

  /** The "depends" entries only lead to strictly lower ranks: the manifest has
      no dependency cycle. */
  predicate Acyclic(m: seq<Entry>, rank: string -> nat)
  {
    forall i, j :: 0 <= i < |m| && 0 <= j < |m[i].depends| ==> rank(m[i].depends[j]) < rank(m[i].key)
  }

  /** Every "depends" entry names a member of the manifest. */
  predicate Closed(m: seq<Entry>)
  {
    forall i, j :: 0 <= i < |m| && 0 <= j < |m[i].depends| ==> IndexOf(EntryKeys(m), m[i].depends[j]).Some?
  }

  /** A relation as `emplace` builds it from its manifest member. */
  predicate Built(r: Relation, m: seq<Entry>, dir: string)
  {
    match IndexOf(EntryKeys(m), r.key)
    case None => false
    case Some(i) => r.value == [] && r.deps == m[i].depends && r.path == Join(dir, m[i].file)
  }

  /** Every dependency sits at an earlier position than its dependent and is
      shallower. */
  predicate Ordered(idx: seq<Relation>)
  {
    forall i, k :: 0 <= i < |idx| && 0 <= k < |idx[i].deps| ==>
      At(idx, idx[i].deps[k]).Some? && At(idx, idx[i].deps[k]).value < i
      && idx[At(idx, idx[i].deps[k]).value].depth < idx[i].depth
  }

  /** Every dependency is indexed and shallower than its dependent; the
      positions may be in any order. */
  predicate Layered(idx: seq<Relation>)
  {
    forall i, k :: 0 <= i < |idx| && 0 <= k < |idx[i].deps| ==>
      At(idx, idx[i].deps[k]).Some? && idx[At(idx, idx[i].deps[k]).value].depth < idx[i].depth
  }

  lemma OrderedLayered(idx: seq<Relation>)
    requires Ordered(idx)
    ensures Layered(idx)
  {
  }

  /** The relations the keys name, in order. */
  function Resolve(idx: seq<Relation>, ks: seq<string>): (rs: seq<Relation>)
    requires forall k :: 0 <= k < |ks| ==> At(idx, ks[k]).Some?
    ensures |rs| == |ks| && forall k :: 0 <= k < |ks| ==> rs[k] == idx[At(idx, ks[k]).value]
  {
    seq(|ks|, k requires 0 <= k < |ks| => idx[At(idx, ks[k]).value])
  }

  // ---------------------------------------------------------------------------
  // emplace (action-manifest.cpp:15-51)

  /** `emplace(key, manifest)`: a key already in the index changes nothing;
      otherwise its dependencies are emplaced in "depends" order, and then the
      relation itself is appended with its dependencies and its path under
      the actions directory `dir`. A key missing from the manifest makes
      `manifest.at` throw. */
  function Emplace(idx: seq<Relation>, key: string, m: seq<Entry>, dir: string, ghost rank: string -> nat)
    : (r: Result<seq<Relation>>)
    requires Acyclic(m, rank)
    ensures r.Success? ==> |idx| <= |r.value| && r.value[..|idx|] == idx
    ensures r.Success? ==> At(r.value, key).Some?
    ensures r.Success? && At(idx, key).Some? ==> r.value == idx
    ensures r.Success? ==> forall i :: |idx| <= i < |r.value| ==> Built(r.value[i], m, dir)
    ensures r.Success? ==> forall i :: |idx| <= i < |r.value| ==> rank(r.value[i].key) <= rank(key)
    ensures At(idx, key).None? && IndexOf(EntryKeys(m), key).None? ==> r.Failure?
    decreases rank(key), 1, 0
  {
    if At(idx, key).Some? then Success(idx)
    else
      match IndexOf(EntryKeys(m), key)
      case None => Failure("key not in manifest")
      case Some(e) =>
        var entry := m[e];
        assert forall j :: 0 <= j < |entry.depends| ==> rank(entry.depends[j]) < rank(key);
        var after :- EmplaceAll(idx, entry.depends, m, dir, rank, key);
        var rel := Make(key, [], Join(dir, entry.file), Resolve(after, entry.depends));
        assert Built(rel, m, dir) by {
          ResolvedKeys(after, entry.depends);
        }
        Appended(idx, after, rel, m, dir, rank);
        Success(after + [rel])
  }

  /** Resolving keys and reading the keys back gives the keys. */
  lemma ResolvedKeys(idx: seq<Relation>, ks: seq<string>)
    requires forall k :: 0 <= k < |ks| ==> At(idx, ks[k]).Some?
    ensures Keys(Resolve(idx, ks)) == ks
  {
    var rs := Resolve(idx, ks);
    forall k | 0 <= k < |ks| ensures Keys(rs)[k] == ks[k] {
      assert Keys(idx)[At(idx, ks[k]).value] == ks[k];
    }
  }

  /** Appending a built relation after what its dependencies added. */
  lemma Appended(idx: seq<Relation>, after: seq<Relation>, rel: Relation, m: seq<Entry>, dir: string,
                 rank: string -> nat)
    requires |idx| <= |after| && after[..|idx|] == idx
    requires forall i :: |idx| <= i < |after| ==> Built(after[i], m, dir) && rank(after[i].key) < rank(rel.key)
    requires Built(rel, m, dir)
    ensures var r := after + [rel];
            |idx| <= |r| && r[..|idx|] == idx && At(r, rel.key).Some?
            && (forall i :: |idx| <= i < |r| ==> Built(r[i], m, dir))
            && (forall i :: |idx| <= i < |r| ==> rank(r[i].key) <= rank(rel.key))
  {
    var r := after + [rel];
    assert r[..|idx|] == after[..|idx|];
    assert Keys(r)[|after|] == rel.key;
    forall i | |idx| <= i < |r| ensures Built(r[i], m, dir) && rank(r[i].key) <= rank(rel.key) {
      if i < |after| {
        assert r[i] == after[i];
      }
    }
  }

  /** The loop over the "depends" array. */
  function EmplaceAll(idx: seq<Relation>, deps: seq<string>, m: seq<Entry>, dir: string,
                      ghost rank: string -> nat, ghost owner: string)
    : (r: Result<seq<Relation>>)
    requires Acyclic(m, rank)
    requires forall j :: 0 <= j < |deps| ==> rank(deps[j]) < rank(owner)
    ensures r.Success? ==> |idx| <= |r.value| && r.value[..|idx|] == idx
    ensures r.Success? ==> forall j :: 0 <= j < |deps| ==> At(r.value, deps[j]).Some?
    ensures r.Success? ==> forall i :: |idx| <= i < |r.value| ==> Built(r.value[i], m, dir)
    ensures r.Success? ==> forall i :: |idx| <= i < |r.value| ==> rank(r.value[i].key) < rank(owner)
    decreases rank(owner), 0, |deps|
  {
    if |deps| == 0 then Success(idx)
    else
      var once :- Emplace(idx, deps[0], m, dir, rank);
      var rest :- EmplaceAll(once, deps[1..], m, dir, rank, owner);
      Chained(idx, once, rest, deps, m, dir, rank, owner);
      Success(rest)
  }

  /** Emplacing the first dependency and then the others adds up to
      emplacing them all. */
  lemma Chained(idx: seq<Relation>, once: seq<Relation>, rest: seq<Relation>, deps: seq<string>,
                m: seq<Entry>, dir: string, rank: string -> nat, owner: string)
    requires |deps| > 0 && rank(deps[0]) < rank(owner)
    requires |idx| <= |once| && once[..|idx|] == idx && At(once, deps[0]).Some?
    requires forall i :: |idx| <= i < |once| ==> Built(once[i], m, dir) && rank(once[i].key) <= rank(deps[0])
    requires |once| <= |rest| && rest[..|once|] == once
    requires forall j :: 0 <= j < |deps[1..]| ==> At(rest, deps[1..][j]).Some?
    requires forall i :: |once| <= i < |rest| ==> Built(rest[i], m, dir) && rank(rest[i].key) < rank(owner)
    ensures |idx| <= |rest| && rest[..|idx|] == idx
    ensures forall j :: 0 <= j < |deps| ==> At(rest, deps[j]).Some?
    ensures forall i :: |idx| <= i < |rest| ==> Built(rest[i], m, dir)
    ensures forall i :: |idx| <= i < |rest| ==> rank(rest[i].key) < rank(owner)
  {
    assert rest[..|idx|] == once[..|idx|];
    forall j | 0 <= j < |deps| ensures At(rest, deps[j]).Some? {
      if j == 0 {
        AtExtend(once, rest[|once|..], deps[0]);
        assert once + rest[|once|..] == rest;
      } else {
        assert deps[j] == deps[1..][j - 1];
      }
    }
    forall i | |idx| <= i < |rest| ensures Built(rest[i], m, dir) && rank(rest[i].key) < rank(owner) {
      if i < |once| {
        assert rest[i] == once[i];
      }
    }
  }

  /** The keys of the index stay distinct and its dependencies stay earlier
      and shallower than their dependents. */
  lemma {:induction false} EmplaceKeeps(idx: seq<Relation>, key: string, m: seq<Entry>, dir: string,
                                        rank: string -> nat)
    requires Acyclic(m, rank) && Unique(Keys(idx)) && Ordered(idx)
    ensures var r := Emplace(idx, key, m, dir, rank); r.Success? ==> Unique(Keys(r.value)) && Ordered(r.value)
    decreases rank(key), 1, 0
  {
    if At(idx, key).None? && IndexOf(EntryKeys(m), key).Some? {
      var entry := m[IndexOf(EntryKeys(m), key).value];
      assert forall j :: 0 <= j < |entry.depends| ==> rank(entry.depends[j]) < rank(key);
      var a := EmplaceAll(idx, entry.depends, m, dir, rank, key);
      EmplaceAllKeeps(idx, entry.depends, m, dir, rank, key);
      if a.Success? {
        var after := a.value;
        var rel := Make(key, [], Join(dir, entry.file), Resolve(after, entry.depends));
        assert Emplace(idx, key, m, dir, rank) == Success(after + [rel]);
        NewKey(idx, after, key);
        AppendKeeps(after, key, Join(dir, entry.file), entry.depends);
      }
    }
  }

  /** Appending a new key's relation, built over dependencies already in the
      index, keeps the index unique and ordered. */
  lemma AppendKeeps(after: seq<Relation>, key: string, path: string, deps: seq<string>)
    requires Unique(Keys(after)) && Ordered(after) && At(after, key).None?
    requires forall k :: 0 <= k < |deps| ==> At(after, deps[k]).Some?
    ensures var rel := Make(key, [], path, Resolve(after, deps));
            Unique(Keys(after + [rel])) && Ordered(after + [rel])
  {
    var rs := Resolve(after, deps);
    var rel := Make(key, [], path, rs);
    ResolvedKeys(after, deps);
    AppendUnique(after, rel);
    AppendOrdered(after, rel, rs);
  }

  lemma {:induction false} EmplaceAllKeeps(idx: seq<Relation>, deps: seq<string>, m: seq<Entry>, dir: string,
                                           rank: string -> nat, owner: string)
    requires Acyclic(m, rank) && Unique(Keys(idx)) && Ordered(idx)
    requires forall j :: 0 <= j < |deps| ==> rank(deps[j]) < rank(owner)
    ensures var r := EmplaceAll(idx, deps, m, dir, rank, owner); r.Success? ==> Unique(Keys(r.value)) && Ordered(r.value)
    decreases rank(owner), 0, |deps|
  {
    if |deps| > 0 {
      EmplaceKeeps(idx, deps[0], m, dir, rank);
      var once := Emplace(idx, deps[0], m, dir, rank);
      if once.Success? {
        EmplaceAllKeeps(once.value, deps[1..], m, dir, rank, owner);
      }
    }
  }

  /** A key absent from the index, whose additions all rank below it, is
      still absent afterwards. */
  lemma NewKey(idx: seq<Relation>, after: seq<Relation>, key: string)
    requires At(idx, key).None? && |idx| <= |after| && after[..|idx|] == idx
    requires forall i :: |idx| <= i < |after| ==> after[i].key != key
    ensures At(after, key).None?
  {
    forall j | 0 <= j < |after| ensures Keys(after)[j] != key {
      if j < |idx| {
        assert after[j] == idx[j];
        assert Keys(idx)[j] != key;
      }
    }
  }

  lemma AppendUnique(idx: seq<Relation>, rel: Relation)
    requires Unique(Keys(idx)) && At(idx, rel.key).None?
    ensures Unique(Keys(idx + [rel]))
  {
    var ks := Keys(idx + [rel]);
    forall i, j | 0 <= i < j < |ks| ensures ks[i] != ks[j] {
      if j < |idx| {
        assert ks[i] == Keys(idx)[i] && ks[j] == Keys(idx)[j];
      } else {
        assert ks[i] == Keys(idx)[i];
      }
    }
  }

  lemma AppendOrdered(idx: seq<Relation>, rel: Relation, deps: seq<Relation>)
    requires Ordered(idx)
    requires rel.deps == Keys(deps) && forall k :: 0 <= k < |deps| ==> deps[k].depth < rel.depth
    requires forall k :: 0 <= k < |rel.deps| ==> At(idx, rel.deps[k]).Some? && deps[k] == idx[At(idx, rel.deps[k]).value]
    ensures Ordered(idx + [rel])
  {
    var r := idx + [rel];
    forall i, k | 0 <= i < |r| && 0 <= k < |r[i].deps|
      ensures At(r, r[i].deps[k]).Some? && At(r, r[i].deps[k]).value < i
              && r[At(r, r[i].deps[k]).value].depth < r[i].depth
    {
      var d := r[i].deps[k];
      AtExtend(idx, [rel], d);
      if i < |idx| {
        assert r[i] == idx[i];
      } else {
        assert deps[k].key == d;
      }
    }
  }

  /** On a manifest whose "depends" entries all name members, emplacing a
      member or an indexed key succeeds. */
  lemma {:induction false} EmplaceSucceeds(idx: seq<Relation>, key: string, m: seq<Entry>, dir: string,
                                           rank: string -> nat)
    requires Acyclic(m, rank) && Closed(m)
    requires At(idx, key).Some? || IndexOf(EntryKeys(m), key).Some?
    ensures Emplace(idx, key, m, dir, rank).Success?
    decreases rank(key), 1, 0
  {
    if At(idx, key).None? {
      var entry := m[IndexOf(EntryKeys(m), key).value];
      assert forall j :: 0 <= j < |entry.depends| ==> rank(entry.depends[j]) < rank(key);
      EmplaceAllSucceeds(idx, entry.depends, m, dir, rank, key);
    }
  }

  lemma {:induction false} EmplaceAllSucceeds(idx: seq<Relation>, deps: seq<string>, m: seq<Entry>, dir: string,
                                              rank: string -> nat, owner: string)
    requires Acyclic(m, rank) && Closed(m)
    requires forall j :: 0 <= j < |deps| ==> rank(deps[j]) < rank(owner)
    requires forall j :: 0 <= j < |deps| ==> IndexOf(EntryKeys(m), deps[j]).Some?
    ensures EmplaceAll(idx, deps, m, dir, rank, owner).Success?
    decreases rank(owner), 0, |deps|
  {
    if |deps| > 0 {
      EmplaceSucceeds(idx, deps[0], m, dir, rank);
      var once := Emplace(idx, deps[0], m, dir, rank);
      var rest := deps[1..];
      assert forall j :: 0 <= j < |rest| ==> rest[j] == deps[j + 1];
      assert forall j :: 0 <= j < |rest| ==> rank(rest[j]) < rank(owner);
      assert forall j :: 0 <= j < |rest| ==> IndexOf(EntryKeys(m), rest[j]).Some?;
      EmplaceAllSucceeds(once.value, rest, m, dir, rank, owner);
      EmplaceAllStep(idx, deps, m, dir, rank, owner);
    }
  }

  /** Once the first dependency is emplaced, the loop goes on with the rest. */
  lemma EmplaceAllStep(idx: seq<Relation>, deps: seq<string>, m: seq<Entry>, dir: string,
                       rank: string -> nat, owner: string)
    requires Acyclic(m, rank) && |deps| > 0
    requires forall j :: 0 <= j < |deps| ==> rank(deps[j]) < rank(owner)
    requires Emplace(idx, deps[0], m, dir, rank).Success?
    ensures EmplaceAll(Emplace(idx, deps[0], m, dir, rank).value, deps[1..], m, dir, rank, owner).Success? ==>
              EmplaceAll(idx, deps, m, dir, rank, owner).Success?
  {
  }

  // ---------------------------------------------------------------------------
  // next (action-manifest.cpp:53-117)

  predicate AllComplete(idx: seq<Relation>)
  {
    forall i :: 0 <= i < |idx| ==> Complete(idx[i])
  }

  /** With distinct keys, the key at a position is found at that position. */
  lemma UniqueAt(idx: seq<Relation>, q: nat)
    requires Unique(Keys(idx)) && q < |idx|
    ensures At(idx, idx[q].key) == Some(q)
  {
    assert Keys(idx)[q] == idx[q].key;
  }

  /** The first incomplete position at or after `p`. */
  function FirstIncomplete(idx: seq<Relation>, p: nat): (r: Option<nat>)
    ensures r.Some? ==> p <= r.value < |idx| && !Complete(idx[r.value])
    ensures r.Some? ==> forall j :: p <= j < r.value ==> Complete(idx[j])
    ensures r.None? ==> forall j :: p <= j < |idx| ==> Complete(idx[j])
    decreases |idx| - p
  {
    if p >= |idx| then None
    else if !Complete(idx[p]) then Some(p)
    else FirstIncomplete(idx, p + 1)
  }

  /** How many steps of `(i + 1) % size` lead from `p` to an incomplete
      relation. */
  function Dist(idx: seq<Relation>, p: nat): nat
    requires p < |idx| && !AllComplete(idx)
  {
    match FirstIncomplete(idx, p)
    case Some(q) => q - p
    case None =>
      assert FirstIncomplete(idx, 0).Some?;
      |idx| - p + FirstIncomplete(idx, 0).value
  }

  lemma DistStep(idx: seq<Relation>, p: nat)
    requires p < |idx| && !AllComplete(idx) && Complete(idx[p])
    ensures Dist(idx, (p + 1) % |idx|) + 1 == Dist(idx, p)
  {
    var n := |idx|;
    var here := FirstIncomplete(idx, p);
    assert here == FirstIncomplete(idx, p + 1);
    if p + 1 < n {
      ModBelow(p + 1, n);
      match here {
        case Some(q) =>
          assert Dist(idx, p) == q - p;
          assert Dist(idx, p + 1) == q - (p + 1);
        case None =>
      }
    } else {
      assert p + 1 == n && (p + 1) % n == 0;
      assert here == None;
      var first := FirstIncomplete(idx, 0);
      assert first.Some?;
      assert Dist(idx, p) == n - p + first.value;
      assert Dist(idx, 0) == first.value;
    }
  }

  function MaxDepth(idx: seq<Relation>): (d: nat)
    ensures forall i :: 0 <= i < |idx| ==> idx[i].depth <= d
  {
    Max(Depths(idx))
  }

  /** The termination measure of `next`: a completed key is followed by
      stepping to the next incomplete relation, an incomplete one by
      descending to a shallower dependency. */
  function Phase(idx: seq<Relation>, key: string): nat
  {
    match At(idx, key)
    case None => 0
    case Some(p) => if Complete(idx[p]) then MaxDepth(idx) + 1 else idx[p].depth
  }

  function Gap(idx: seq<Relation>, key: string): nat
  {
    if AllComplete(idx) then 0
    else
      match At(idx, key)
      case None => 0
      case Some(p) => Dist(idx, p)
  }

  /** Passing on from a completed key lowers the measure. */
  lemma AdvanceDecreases(idx: seq<Relation>, key: string, p: nat)
    requires Unique(Keys(idx)) && !AllComplete(idx)
    requires At(idx, key) == Some(p) && Complete(idx[p])
    ensures var k := idx[(p + 1) % |idx|].key;
            Phase(idx, k) < Phase(idx, key) || (Phase(idx, k) == Phase(idx, key) && Gap(idx, k) < Gap(idx, key))
  {
    var q := (p + 1) % |idx|;
    UniqueAt(idx, q);
    DistStep(idx, p);
  }

  /** Descending into an incomplete dependency lowers the measure. */
  lemma DescendDecreases(idx: seq<Relation>, key: string, p: nat, k: nat)
    requires Unique(Keys(idx)) && Layered(idx)
    requires At(idx, key) == Some(p) && !Complete(idx[p])
    requires k < |idx[p].deps| && !DepComplete(idx, idx[p].deps[k])
    ensures Phase(idx, idx[p].deps[k]) < Phase(idx, key)
  {
  }

  /** Every dependency of `deps` is indexed. */
  predicate Present(idx: seq<Relation>, deps: seq<string>)
  {
    forall k :: 0 <= k < |deps| ==> At(idx, deps[k]).Some?
  }

  predicate DepComplete(idx: seq<Relation>, d: string)
    requires At(idx, d).Some?
  {
    Complete(idx[At(idx, d).value])
  }

  /** Position `(start + o) % n` of the dependency scan. */
  function Sel(start: nat, o: nat, n: nat): (s: nat)
    requires n > 0
    ensures s < n
  {
    (start + o) % n
  }

  /** The dependency loop of `next`: offsets `off..` from `start`, wrapping
      modulo the number of dependencies; the offset of the first incomplete
      one is selected. */
  function ScanDeps(idx: seq<Relation>, deps: seq<string>, start: nat, off: nat): (r: Option<nat>)
    requires Present(idx, deps) && start < |deps| && off <= |deps|
    ensures r.Some? ==> off <= r.value < |deps| && !DoneAt(idx, deps, start, r.value)
    ensures r.Some? ==> forall o :: off <= o < r.value ==> DoneAt(idx, deps, start, o)
    ensures r.None? ==> forall o :: off <= o < |deps| ==> DoneAt(idx, deps, start, o)
    decreases |deps| - off
  {
    if off == |deps| then None
    else if !DoneAt(idx, deps, start, off) then Some(off)
    else ScanDeps(idx, deps, start, off + 1)
  }

  /** The dependency the scan from `start` meets at offset `o` is complete. */
  predicate DoneAt(idx: seq<Relation>, deps: seq<string>, start: nat, o: nat)
    requires Present(idx, deps) && start < |deps|
  {
    var s := Sel(start, o, |deps|);
    DepComplete(idx, deps[s])
  }

  /** The offset at which the scan from `start` reaches position `s`. */
  function Offset(start: nat, s: nat, n: nat): (o: nat)
    requires start < n && s < n
    ensures o < n && Sel(start, o, n) == s
  {
    if s >= start then
      ModBelow(s, n);
      s - start
    else
      ModOnce(s + n, n);
      s + n - start
  }

  /** `next(key, idx)`. With every relation complete it returns the default
      relation; a key not in the index throws; a completed key passes on to
      the key at the following position (modulo the size); otherwise it
      descends into the first incomplete dependency, scanning from
      `i % number of dependencies`, and returns the relation once all its
      dependencies are complete. */
  function Next(idx: seq<Relation>, key: string, i: nat): (r: Result<Relation>)
    requires Unique(Keys(idx)) && Layered(idx)
    ensures AllComplete(idx) ==> r == Success(Default)
    ensures r.Failure? <==> !AllComplete(idx) && At(idx, key).None?
    ensures !AllComplete(idx) && r.Success? ==>
              At(idx, r.value.key).Some? && r.value == idx[At(idx, r.value.key).value]
              && !Complete(r.value)
              && Present(idx, r.value.deps)
              && forall k :: 0 <= k < |r.value.deps| ==> DepComplete(idx, r.value.deps[k])
    decreases Phase(idx, key), Gap(idx, key)
  {
    if AllComplete(idx) then Success(Default)
    else
      match At(idx, key)
      case None => Failure("Key not in index!")
      case Some(p) =>
        var rel := idx[p];
        if Complete(rel) then
          AdvanceDecreases(idx, key, p);
          Next(idx, idx[(p + 1) % |idx|].key, i)
        else
          UniqueAt(idx, p);
          assert Present(idx, rel.deps) by {
            assert forall k :: 0 <= k < |rel.deps| ==> At(idx, rel.deps[k]).Some?;
          }
          if |rel.deps| == 0 then Success(rel)
          else
            var start := i % |rel.deps|;
            match ScanDeps(idx, rel.deps, start, 0)
            case Some(o) =>
              var s := Sel(start, o, |rel.deps|);
              DescendDecreases(idx, key, p, s);
              Next(idx, rel.deps[s], i)
            case None =>
              assert forall k :: 0 <= k < |rel.deps| ==> DepComplete(idx, rel.deps[k]) by {
                forall k | 0 <= k < |rel.deps| ensures DepComplete(idx, rel.deps[k]) {
                  var o := Offset(start, k, |rel.deps|);
                  assert DoneAt(idx, rel.deps, start, o);
                }
              }
              Success(rel)
  }

  /** On an index built by `emplace` (every depth at least 1) the default
      relation comes back exactly when every relation is complete. */
  lemma NextDefaultIff(idx: seq<Relation>, key: string, i: nat)
    requires Unique(Keys(idx)) && Layered(idx)
    requires forall q :: 0 <= q < |idx| ==> idx[q].depth >= 1
    ensures Next(idx, key, i) == Success(Default) <==> AllComplete(idx)
  {
    var r := Next(idx, key, i);
    if !AllComplete(idx) && r.Success? {
      assert r.value.depth >= 1;
    }
  }

  /** The first incomplete position met by stepping `(i + 1) % size` from
      `p`. */
  function Target(idx: seq<Relation>, p: nat): (q: nat)
    requires p < |idx| && !AllComplete(idx)
    ensures q < |idx| && !Complete(idx[q])
  {
    match FirstIncomplete(idx, p)
    case Some(q) => q
    case None =>
      assert FirstIncomplete(idx, 0).Some?;
      FirstIncomplete(idx, 0).value
  }

  lemma CompleteStep(idx: seq<Relation>, key: string, p: nat, i: nat)
    requires Unique(Keys(idx)) && Layered(idx) && !AllComplete(idx)
    requires At(idx, key) == Some(p) && Complete(idx[p])
    ensures Next(idx, key, i) == Next(idx, idx[(p + 1) % |idx|].key, i)
  {
  }

  lemma DescendStep(idx: seq<Relation>, key: string, p: nat, i: nat)
    requires Unique(Keys(idx)) && Layered(idx) && !AllComplete(idx)
    requires At(idx, key) == Some(p) && !Complete(idx[p])
    requires Present(idx, idx[p].deps) && |idx[p].deps| > 0
    requires ScanDeps(idx, idx[p].deps, i % |idx[p].deps|, 0).Some?
    ensures var n := |idx[p].deps|;
            var o := ScanDeps(idx, idx[p].deps, i % n, 0).value;
            Next(idx, key, i) == Next(idx, idx[p].deps[Sel(i % n, o, n)], i)
  {
  }

  /** A completed key hands over to the first incomplete relation after it,
      wrapping round the index. */
  lemma {:induction false} NextFromComplete(idx: seq<Relation>, key: string, p: nat, i: nat)
    requires Unique(Keys(idx)) && Layered(idx) && !AllComplete(idx)
    requires At(idx, key) == Some(p)
    ensures Next(idx, key, i) == Next(idx, idx[Target(idx, p)].key, i)
    decreases Dist(idx, p)
  {
    if Complete(idx[p]) {
      var q := (p + 1) % |idx|;
      UniqueAt(idx, q);
      DistStep(idx, p);
      CompleteStep(idx, key, p, i);
      NextFromComplete(idx, idx[q].key, q, i);
      TargetStep(idx, p);
    } else {
      assert Target(idx, p) == p;
    }
  }

  lemma TargetStep(idx: seq<Relation>, p: nat)
    requires p < |idx| && !AllComplete(idx) && Complete(idx[p])
    ensures Target(idx, (p + 1) % |idx|) == Target(idx, p)
  {
    if p + 1 < |idx| {
      assert (p + 1) % |idx| == p + 1;
      assert FirstIncomplete(idx, p) == FirstIncomplete(idx, p + 1);
    } else {
      assert (p + 1) % |idx| == 0;
      assert FirstIncomplete(idx, p) == FirstIncomplete(idx, p + 1) == None;
    }
  }

  /** An incomplete relation whose scan, starting at `i % n`, first meets an
      incomplete dependency at offset `o` continues with that dependency. */
  lemma NextDescends(idx: seq<Relation>, key: string, p: nat, i: nat, o: nat)
    requires Unique(Keys(idx)) && Layered(idx) && !AllComplete(idx)
    requires At(idx, key) == Some(p) && !Complete(idx[p])
    requires Present(idx, idx[p].deps) && o < |idx[p].deps|
    requires var n := |idx[p].deps|;
             !DepComplete(idx, idx[p].deps[Sel(i % n, o, n)])
             && forall o' :: 0 <= o' < o ==> DepComplete(idx, idx[p].deps[Sel(i % n, o', n)])
    ensures var n := |idx[p].deps|; Next(idx, key, i) == Next(idx, idx[p].deps[Sel(i % n, o, n)], i)
  {
    var n := |idx[p].deps|;
    var deps := idx[p].deps;
    var start := i % n;
    assert !DoneAt(idx, deps, start, o);
    forall o' | 0 <= o' < o ensures DoneAt(idx, deps, start, o') {
      assert DepComplete(idx, deps[Sel(start, o', n)]);
    }
    ScanFinds(idx, deps, start, o);
    DescendStep(idx, key, p, i);
  }

  /** The scan selects the first offset whose dependency is incomplete. */
  lemma ScanFinds(idx: seq<Relation>, deps: seq<string>, start: nat, o: nat)
    requires Present(idx, deps) && start < |deps| && o < |deps|
    requires !DoneAt(idx, deps, start, o)
    requires forall o' :: 0 <= o' < o ==> DoneAt(idx, deps, start, o')
    ensures ScanDeps(idx, deps, start, 0) == Some(o)
  {
  }
}
