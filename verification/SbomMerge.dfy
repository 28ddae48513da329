/** Merging the collected packages and their dependencies into a CycloneDX bill of materials. */
module SbomMerge {
  import opened Bytes
  import opened StringOrder
  import opened DepClosure

  // ----- References

  const PURL_PREFIX: string := "pkg:deb/ubuntu/"
  const NO_ASSERTION: string := "NOASSERTION"

  function CdxRef(name: Name, version: string): string
  {
    if version == "" || version == NO_ASSERTION then PURL_PREFIX + name
    else PURL_PREFIX + name + "@" + version
  }

  /** The version of the first package of that name. */
  function VersionOf(packages: seq<Package>, name: Name): string
  {
    if packages == [] then NO_ASSERTION
    else if packages[0].name == name then packages[0].version
    else VersionOf(packages[1..], name)
  }

  function RefOf(packages: seq<Package>, name: Name): string
  {
    CdxRef(name, VersionOf(packages, name))
  }

  /** What follows the name in a reference. */
  function VersionSuffix(version: string): (r: string)
    ensures r == "" || r[0] == '@'
  {
    if version == "" || version == NO_ASSERTION then "" else "@" + version
  }

  lemma RefParts(name: Name, version: string)
    ensures CdxRef(name, version) == PURL_PREFIX + (name + VersionSuffix(version))
  {
    assert PURL_PREFIX + name + "@" + version == PURL_PREFIX + (name + ("@" + version));
    assert name + "" == name;
  }

  lemma SamePrefix(p: string, a: string, b: string)
    requires p + a == p + b
    ensures a == b
  {
    assert (p + a)[|p|..] == a && (p + b)[|p|..] == b;
  }

  lemma SameHead(a: string, s: string, b: string, t: string)
    requires '@' !in a && '@' !in b && (s == "" || s[0] == '@') && (t == "" || t[0] == '@') && a + s == b + t
    ensures a == b
  {
    var u := a + s;
    assert forall i | 0 <= i < |a| :: u[i] == a[i] && a[i] in a;
    assert forall i | 0 <= i < |b| :: u[i] == b[i] && b[i] in b;
    assert |a| < |u| ==> u[|a|] == '@';
    assert |b| < |u| ==> u[|b|] == '@';
    assert u[..|a|] == a && u[..|b|] == b;
  }

  /** References tell names apart when names hold no at sign. */
  lemma CdxRefTellsNamesApart(name: Name, version: string, name': Name, version': string)
    requires '@' !in name && '@' !in name' && CdxRef(name, version) == CdxRef(name', version')
    ensures name == name'
  {
    hide CdxRef;
    RefParts(name, version);
    RefParts(name', version');
    SamePrefix(PURL_PREFIX, name + VersionSuffix(version), name' + VersionSuffix(version'));
    SameHead(name, VersionSuffix(version), name', VersionSuffix(version'));
  }

  // ----- Components

  /** What a component holds besides its reference and its name. */
  datatype Details =
    | Other(json: string)
    | Ubuntu(version: string, scope: string, purl: string, roles: string)

  datatype Component = Component(bomRef: Option<string>, name: Option<string>, details: Details)

  function PackageRef(p: Package): string
  {
    CdxRef(p.name, p.version)
  }

  function Join(words: seq<string>): string
  {
    if words == [] then "" else if |words| == 1 then words[0] else words[0] + "," + Join(words[1..])
  }

  /** Joined lists are joined by a comma. */
  lemma {:induction false} JoinSplits(a: seq<string>, b: seq<string>)
    requires a != [] && b != []
    ensures Join(a + b) == Join(a) + "," + Join(b)
  {
    assert (a + b)[0] == a[0] && (a + b)[1..] == a[1..] + b;
    if |a| > 1 {
      JoinSplits(a[1..], b);
      assert a[0] + "," + (Join(a[1..]) + "," + Join(b)) == (a[0] + "," + Join(a[1..])) + "," + Join(b);
    } else {
      assert a[1..] + b == b;
    }
  }

  function NewComponent(p: Package): Component
  {
    Component(Some(PackageRef(p)), Some(p.name),
              Ubuntu(p.version, if BUILD_TOOL in p.roles then "excluded" else "required", PackageRef(p), Join(p.roles)))
  }

  /** The components whose reference is not one of these, in order. */
  function Without(cs: seq<Component>, refs: set<string>): seq<Component>
  {
    if cs == [] then []
    else if cs[0].bomRef.Some? && cs[0].bomRef.value in refs then Without(cs[1..], refs)
    else [cs[0]] + Without(cs[1..], refs)
  }

  /** Each package in turn replaces the components that have its reference. */
  function FoldComponents(cs: seq<Component>, packages: seq<Package>): seq<Component>
    decreases |packages|
  {
    if packages == [] then cs
    else FoldComponents(Without(cs, {PackageRef(packages[0])}) + [NewComponent(packages[0])], packages[1..])
  }

  function PackageRefs(packages: seq<Package>): set<string>
  {
    set p | p in packages :: PackageRef(p)
  }

  lemma {:induction false} WithoutAppend(cs: seq<Component>, ds: seq<Component>, refs: set<string>)
    ensures Without(cs + ds, refs) == Without(cs, refs) + Without(ds, refs)
  {
    if cs == [] {
      assert cs + ds == ds;
    } else {
      assert (cs + ds)[1..] == cs[1..] + ds;
      WithoutAppend(cs[1..], ds, refs);
    }
  }

  lemma {:induction false} WithoutTwice(cs: seq<Component>, refs: set<string>, more: set<string>)
    ensures Without(Without(cs, refs), more) == Without(cs, refs + more)
  {
    if cs != [] {
      WithoutTwice(cs[1..], refs, more);
      if !(cs[0].bomRef.Some? && cs[0].bomRef.value in refs) {
        assert Without(cs, refs)[1..] == Without(cs[1..], refs);
      }
    }
  }

  lemma {:induction false} InWithout(cs: seq<Component>, refs: set<string>, c: Component)
    ensures c in Without(cs, refs) <==> c in cs && !(c.bomRef.Some? && c.bomRef.value in refs)
  {
    if cs != [] {
      InWithout(cs[1..], refs, c);
    }
  }

  lemma {:induction false} WithoutAllOrNone(cs: seq<Component>, refs: set<string>)
    ensures (forall c | c in cs :: c.bomRef.Some? && c.bomRef.value in refs) ==> Without(cs, refs) == []
    ensures (forall c | c in cs :: !(c.bomRef.Some? && c.bomRef.value in refs)) ==> Without(cs, refs) == cs
  {
    if cs != [] {
      WithoutAllOrNone(cs[1..], refs);
      assert forall c | c in cs[1..] :: c in cs;
    }
  }

  lemma FoldStep(cs: seq<Component>, packages: seq<Package>)
    requires packages != []
    ensures var p, rest := packages[0], packages[1..];
            && FoldComponents(cs, packages) == FoldComponents(Without(cs, {PackageRef(p)}) + [NewComponent(p)], rest)
            && PackageRefs(packages) == {PackageRef(p)} + PackageRefs(rest)
  {
    assert forall q :: q in packages <==> q == packages[0] || q in packages[1..];
  }

  /**
    * The fold keeps the old components that no package replaces, in their order, and puts after them what it makes
    * of the packages alone.
    */
  lemma {:induction false} FoldSplits(cs: seq<Component>, packages: seq<Package>)
    ensures FoldComponents(cs, packages) == Without(cs, PackageRefs(packages)) + FoldComponents([], packages)
    decreases |packages|
  {
    if packages == [] {
      WithoutAllOrNone(cs, {});
      assert PackageRefs(packages) == {};
    } else {
      FoldSplitsStep(cs, packages);
    }
  }

  lemma {:induction false} FoldSplitsStep(cs: seq<Component>, packages: seq<Package>)
    requires packages != []
    ensures FoldComponents(cs, packages) == Without(cs, PackageRefs(packages)) + FoldComponents([], packages)
    decreases |packages|, 0
  {
    hide FoldComponents, Without, PackageRef, PackageRefs, NewComponent;
    var p, rest := packages[0], packages[1..];
    var r, n, later := {PackageRef(p)}, [NewComponent(p)], PackageRefs(rest);
    var made := FoldComponents([], rest);
    FoldStep(cs, packages);
    FoldStep([], packages);
    WithoutAllOrNone([], r);
    assert Without([], r) + n == n;
    FoldSplits(Without(cs, r) + n, rest);
    FoldSplits(n, rest);
    WithoutAppend(Without(cs, r), n, later);
    WithoutTwice(cs, r, later);
    assert (Without(Without(cs, r), later) + Without(n, later)) + made
        == Without(Without(cs, r), later) + (Without(n, later) + made);
  }

  /** One more package in front of a fold that starts from nothing. */
  lemma FoldFromNothing(p: Package, rest: seq<Package>)
    ensures FoldComponents([], [p] + rest)
         == (if PackageRef(p) in PackageRefs(rest) then [] else [NewComponent(p)]) + FoldComponents([], rest)
  {
    var n := [NewComponent(p)];
    assert ([p] + rest)[1..] == rest && Without([], {PackageRef(p)}) + n == n;
    FoldSplits(n, rest);
    assert n[1..] == [];
  }

  /** Started from nothing, the fold makes all its components of packages. */
  lemma {:induction false} MadeOfPackages(packages: seq<Package>)
    ensures forall c | c in FoldComponents([], packages) :: exists p :: p in packages && c == NewComponent(p)
    decreases |packages|
  {
    if packages != [] {
      var p, rest := packages[0], packages[1..];
      assert packages == [p] + rest;
      FoldFromNothing(p, rest);
      MadeOfPackages(rest);
    }
  }

  /** It makes at least one for every reference. */
  lemma {:induction false} EveryRefMade(packages: seq<Package>)
    ensures forall p | p in packages :: exists c :: c in FoldComponents([], packages) && c.bomRef == Some(PackageRef(p))
    decreases |packages|
  {
    hide FoldComponents, NewComponent, PackageRef;
    if packages != [] {
      var p, rest := packages[0], packages[1..];
      assert packages == [p] + rest;
      EveryRefMade(rest);
      forall q | q in packages
        ensures exists c :: c in FoldComponents([], packages) && c.bomRef == Some(PackageRef(q))
      {
        FoldedRefOf(p, rest, q);
      }
    }
  }

  lemma FoldedRefOf(p: Package, rest: seq<Package>, q: Package)
    requires forall p | p in rest :: exists c :: c in FoldComponents([], rest) && c.bomRef == Some(PackageRef(p))
    requires q == p || q in rest
    ensures exists c :: c in FoldComponents([], [p] + rest) && c.bomRef == Some(PackageRef(q))
  {
    FoldFromNothing(p, rest);
    hide FoldComponents, PackageRef;
    if PackageRef(q) in PackageRefs(rest) {
      var q' :| q' in rest && PackageRef(q') == PackageRef(q);
      var c :| c in FoldComponents([], rest) && c.bomRef == Some(PackageRef(q'));
      assert c in FoldComponents([], [p] + rest);
    } else {
      assert NewComponent(p) in FoldComponents([], [p] + rest);
    }
  }

  /** Merging the same packages again changes nothing. */
  lemma ComponentsIdempotent(cs: seq<Component>, packages: seq<Package>)
    ensures var once := FoldComponents(cs, packages); FoldComponents(once, packages) == once
  {
    hide FoldComponents, Without, PackageRefs, NewComponent;
    var refs, made := PackageRefs(packages), FoldComponents([], packages);
    var kept := Without(cs, refs);
    FoldSplits(cs, packages);
    FoldSplits(kept + made, packages);
    WithoutAppend(kept, made, refs);
    WithoutTwice(cs, refs, refs);
    assert refs + refs == refs;
    MadeIsReplaced(packages);
  }

  lemma MadeIsReplaced(packages: seq<Package>)
    ensures Without(FoldComponents([], packages), PackageRefs(packages)) == []
  {
    hide FoldComponents, Without;
    MadeOfPackages(packages);
    WithoutAllOrNone(FoldComponents([], packages), PackageRefs(packages));
  }

  predicate RefsDiffer(packages: seq<Package>)
  {
    forall i, j | 0 <= i < j < |packages| :: PackageRef(packages[i]) != PackageRef(packages[j])
  }

  predicate NamesDiffer(packages: seq<Package>)
  {
    forall i, j | 0 <= i < j < |packages| :: packages[i].name != packages[j].name
  }

  /** Packages with different names all get their component if and only if their references differ. */
  lemma {:induction false} AllPackagesKept(cs: seq<Component>, packages: seq<Package>)
    requires NamesDiffer(packages)
    ensures (forall p | p in packages :: NewComponent(p) in FoldComponents(cs, packages)) <==> RefsDiffer(packages)
    decreases |packages|
  {
    hide FoldComponents, PackageRef;
    FoldSplits(cs, packages);
    forall p | p in packages
      ensures NewComponent(p) in FoldComponents(cs, packages) <==> NewComponent(p) in FoldComponents([], packages)
    {
      InWithout(cs, PackageRefs(packages), NewComponent(p));
    }
    MadeForAll(packages);
  }

  lemma {:induction false} MadeForAll(packages: seq<Package>)
    requires NamesDiffer(packages)
    ensures (forall p | p in packages :: NewComponent(p) in FoldComponents([], packages)) <==> RefsDiffer(packages)
    decreases |packages|
  {
    if packages != [] {
      MadeForAll(packages[1..]);
      FirstIsMade(packages);
      FirstRefDiffers(packages);
    }
  }

  /** The first of several packages gets its component if no later one has its reference; the others do not need it. */
  lemma FirstIsMade(packages: seq<Package>)
    requires packages != [] && NamesDiffer(packages)
    ensures var p, rest := packages[0], packages[1..];
            && (forall q | q in rest ::
                  NewComponent(q) in FoldComponents([], packages) <==> NewComponent(q) in FoldComponents([], rest))
            && (NewComponent(p) in FoldComponents([], packages) <==> PackageRef(p) !in PackageRefs(rest))
  {
    hide FoldComponents, PackageRef, PackageRefs;
    var p, rest := packages[0], packages[1..];
    assert packages == [p] + rest;
    FoldFromNothing(p, rest);
    MadeOfPackages(rest);
    assert forall q | q in rest :: q.name != p.name;
    assert NewComponent(p) !in FoldComponents([], rest);
  }

  lemma FirstRefDiffers(packages: seq<Package>)
    requires packages != []
    ensures RefsDiffer(packages) <==>
            RefsDiffer(packages[1..]) && PackageRef(packages[0]) !in PackageRefs(packages[1..])
  {
    hide PackageRef;
    var rest := packages[1..];
    if RefsDiffer(packages) {
      assert forall i | 0 <= i < |rest| :: rest[i] == packages[i + 1];
    }
    if RefsDiffer(rest) && PackageRef(packages[0]) !in PackageRefs(rest) {
      forall i, j | 0 <= i < j < |packages|
        ensures PackageRef(packages[i]) != PackageRef(packages[j])
      {
        assert packages[j] == rest[j - 1] && packages[j] in rest;
        if i > 0 {
          assert packages[i] == rest[i - 1];
        }
      }
    }
  }

  /** With an at sign in a name two packages can share a reference, and one of them loses its component. */
  lemma AtSignCanCollide()
    ensures var p, q := Package("a", "1", []), Package("a@1", "", []);
            NamesDiffer([p, q]) && NewComponent(p) !in FoldComponents([], [p, q])
  {
    hide FoldComponents;
    var p, q := Package("a", "1", []), Package("a@1", "", []);
    assert PackageRef(p) == PackageRef(q) == "pkg:deb/ubuntu/a@1";
    assert [p, q][0].name == "a" && [p, q][1].name == "a@1" && |p.name| == 1;
    FirstIsMade([p, q]);
    assert [p, q][1..] == [q] && q in [q];
  }

  // ----- Dependencies

  datatype Dep = Dep(ref: Option<string>, dependsOn: Option<seq<string>>, others: string)

  function UpsertEntry(d: Dep, ref: string, more: seq<string>): Dep
  {
    if d.ref == Some(ref) then d.(dependsOn := Some(UniqueSort(more + d.dependsOn.GetOr([])))) else d
  }

  predicate HasRef(ds: seq<Dep>, ref: string)
  {
    exists i :: 0 <= i < |ds| && ds[i].ref == Some(ref)
  }

  /** Adds dependencies to every entry of a reference, or a new entry if there is none. */
  function Upsert(ds: seq<Dep>, ref: string, more: seq<string>): seq<Dep>
  {
    seq(|ds|, i requires 0 <= i < |ds| => UpsertEntry(ds[i], ref, more))
    + if HasRef(ds, ref) then [] else [Dep(Some(ref), Some(UniqueSort(more)), "")]
  }

  function UpsertAll(ds: seq<Dep>, edges: seq<(string, string)>): seq<Dep>
    decreases |edges|
  {
    if edges == [] then ds else UpsertAll(Upsert(ds, edges[0].0, [edges[0].1]), edges[1..])
  }

  ghost predicate Edge(ds: seq<Dep>, from: string, to: string)
  {
    exists i :: 0 <= i < |ds| && ds[i].ref == Some(from) && to in ds[i].dependsOn.GetOr([])
  }

  lemma UpsertAddsEdges(ds: seq<Dep>, ref: string, more: seq<string>, from: string, to: string)
    ensures Edge(Upsert(ds, ref, more), from, to) <==> Edge(ds, from, to) || (from == ref && to in more)
  {
    hide UniqueSort;
    var us := Upsert(ds, ref, more);
    UniqueSortIs(more);
    forall i | 0 <= i < |ds|
      ensures us[i].ref == ds[i].ref
      ensures to in us[i].dependsOn.GetOr([]) <==>
              to in ds[i].dependsOn.GetOr([]) || (ds[i].ref == Some(ref) && to in more)
    {
      UniqueSortIs(more + ds[i].dependsOn.GetOr([]));
    }
    if Edge(ds, from, to) {
      var i :| 0 <= i < |ds| && ds[i].ref == Some(from) && to in ds[i].dependsOn.GetOr([]);
      assert us[i].ref == Some(from) && to in us[i].dependsOn.GetOr([]);
    }
    if from == ref && to in more {
      if HasRef(ds, ref) {
        var i :| 0 <= i < |ds| && ds[i].ref == Some(ref);
        assert us[i].ref == Some(from) && to in us[i].dependsOn.GetOr([]);
      } else {
        assert us[|ds|].ref == Some(from) && to in us[|ds|].dependsOn.GetOr([]);
      }
    }
  }

  /** After any number of upserts the edges are the old ones and the new ones. */
  lemma {:induction false} UpsertAllIsUnion(ds: seq<Dep>, edges: seq<(string, string)>, from: string, to: string)
    ensures Edge(UpsertAll(ds, edges), from, to) <==> Edge(ds, from, to) || (from, to) in edges
    decreases |edges|
  {
    hide Edge, Upsert;
    if edges != [] {
      UpsertAddsEdges(ds, edges[0].0, [edges[0].1], from, to);
      UpsertAllIsUnion(Upsert(ds, edges[0].0, [edges[0].1]), edges[1..], from, to);
    }
  }

  /** The old entries stay where they are; those of references that gain nothing stay as they are. */
  lemma {:induction false} UpsertAllKeepsEntries(ds: seq<Dep>, edges: seq<(string, string)>, i: nat)
    requires i < |ds|
    ensures var us := UpsertAll(ds, edges);
            && i < |us| && us[i].ref == ds[i].ref && us[i].others == ds[i].others
            && ((forall e | e in edges :: ds[i].ref != Some(e.0)) ==> us[i] == ds[i])
    decreases |edges|
  {
    if edges != [] {
      var next := Upsert(ds, edges[0].0, [edges[0].1]);
      assert next[i] == UpsertEntry(ds[i], edges[0].0, [edges[0].1]);
      hide Upsert, UniqueSort;
      UpsertAllKeepsEntries(next, edges[1..], i);
    }
  }

  /** There is an entry for the edge, and every entry of its reference is in order and has it. */
  ghost predicate Settled(ds: seq<Dep>, e: (string, string))
  {
    && HasRef(ds, e.0)
    && forall i | 0 <= i < |ds| && ds[i].ref == Some(e.0) ::
         ds[i].dependsOn.Some? && Canonical(ds[i].dependsOn.value) && e.1 in ds[i].dependsOn.value
  }

  lemma SettledIsKept(ds: seq<Dep>, e: (string, string))
    requires Settled(ds, e)
    ensures Upsert(ds, e.0, [e.1]) == ds
  {
    hide UniqueSort, Canonical;
    forall i | 0 <= i < |ds|
      ensures UpsertEntry(ds[i], e.0, [e.1]) == ds[i]
    {
      if ds[i].ref == Some(e.0) {
        var before := ds[i].dependsOn.value;
        UniqueSortIs([e.1] + before);
        CanonicalIsUnique(UniqueSort([e.1] + before), before);
      }
    }
  }

  lemma UpsertSettles(ds: seq<Dep>, e: (string, string))
    ensures Settled(Upsert(ds, e.0, [e.1]), e)
  {
    hide UniqueSort, Canonical;
    var us := Upsert(ds, e.0, [e.1]);
    UniqueSortIs([e.1]);
    forall i | 0 <= i < |ds|
      ensures us[i].ref == ds[i].ref
      ensures ds[i].ref == Some(e.0) ==> var on := us[i].dependsOn; on.Some? && Canonical(on.value) && e.1 in on.value
    {
      UniqueSortIs([e.1] + ds[i].dependsOn.GetOr([]));
    }
    if HasRef(ds, e.0) {
      var i :| 0 <= i < |ds| && ds[i].ref == Some(e.0);
      assert us[i].ref == Some(e.0);
    } else {
      assert us[|ds|].ref == Some(e.0);
    }
  }

  lemma SettledStays(ds: seq<Dep>, e: (string, string), ref: string, more: seq<string>)
    requires Settled(ds, e)
    ensures Settled(Upsert(ds, ref, more), e)
  {
    hide UniqueSort, Canonical;
    var us := Upsert(ds, ref, more);
    forall i | 0 <= i < |ds|
      ensures us[i].ref == ds[i].ref
      ensures ds[i].ref == Some(e.0) ==> var on := us[i].dependsOn; on.Some? && Canonical(on.value) && e.1 in on.value
    {
      UniqueSortIs(more + ds[i].dependsOn.GetOr([]));
    }
    var i :| 0 <= i < |ds| && ds[i].ref == Some(e.0);
    assert us[i].ref == Some(e.0);
  }

  lemma {:induction false} SettledStaysThroughout(ds: seq<Dep>, e: (string, string), edges: seq<(string, string)>)
    requires Settled(ds, e)
    ensures Settled(UpsertAll(ds, edges), e)
    decreases |edges|
  {
    hide Settled, Upsert;
    if edges != [] {
      SettledStays(ds, e, edges[0].0, [edges[0].1]);
      SettledStaysThroughout(Upsert(ds, edges[0].0, [edges[0].1]), e, edges[1..]);
    }
  }

  lemma {:induction false} UpsertAllSettles(ds: seq<Dep>, edges: seq<(string, string)>)
    ensures forall e | e in edges :: Settled(UpsertAll(ds, edges), e)
    decreases |edges|
  {
    hide Settled, Upsert;
    if edges != [] {
      var next := Upsert(ds, edges[0].0, [edges[0].1]);
      UpsertSettles(ds, edges[0]);
      SettledStaysThroughout(next, edges[0], edges[1..]);
      UpsertAllSettles(next, edges[1..]);
    }
  }

  lemma {:induction false} SettledAllKept(ds: seq<Dep>, edges: seq<(string, string)>)
    requires forall e | e in edges :: Settled(ds, e)
    ensures UpsertAll(ds, edges) == ds
    decreases |edges|
  {
    hide Settled, Upsert;
    if edges != [] {
      SettledIsKept(ds, edges[0]);
      SettledAllKept(ds, edges[1..]);
    }
  }

  // ----- What is settled after the upserts, seen from before

  /** The references that gain something. */
  ghost predicate Touched(edges: seq<(string, string)>, ref: string)
  {
    exists i :: 0 <= i < |edges| && edges[i].0 == ref
  }

  /**
    * The edge is one of those added; or its reference gains others, has entries already, and all of them list it; or
    * its reference gains nothing and the edge is settled as it is.
    */
  ghost predicate WillBeSettled(ds: seq<Dep>, edges: seq<(string, string)>, e: (string, string))
  {
    || e in edges
    || (if Touched(edges, e.0) then
          && HasRef(ds, e.0)
          && forall i | 0 <= i < |ds| && ds[i].ref == Some(e.0) :: e.1 in ds[i].dependsOn.GetOr([])
        else Settled(ds, e))
  }

  /** What becomes of an old entry. */
  lemma {:induction false} UpsertAllEntry(ds: seq<Dep>, edges: seq<(string, string)>, i: nat, ref: string)
    requires i < |ds| && ds[i].ref == Some(ref)
    ensures var us := UpsertAll(ds, edges);
            && i < |us| && us[i].ref == Some(ref)
            && (forall x :: x in us[i].dependsOn.GetOr([]) <==> x in ds[i].dependsOn.GetOr([]) || (ref, x) in edges)
            && (Touched(edges, ref) ==> us[i].dependsOn.Some? && Canonical(us[i].dependsOn.value))
    ensures ds[i].dependsOn.Some? && Canonical(ds[i].dependsOn.value) ==>
              var us := UpsertAll(ds, edges); us[i].dependsOn.Some? && Canonical(us[i].dependsOn.value)
    decreases |edges|
  {
    if edges != [] {
      var (from, to) := edges[0];
      var next := Upsert(ds, from, [to]);
      assert next[i] == UpsertEntry(ds[i], from, [to]);
      UniqueSortIs([to] + ds[i].dependsOn.GetOr([]));
      hide Upsert, UniqueSort, Canonical;
      UpsertAllEntry(next, edges[1..], i, ref);
      assert edges == [edges[0]] + edges[1..];
      assert Touched(edges, ref) ==> from == ref || Touched(edges[1..], ref) by {
        if Touched(edges, ref) {
          var k :| 0 <= k < |edges| && edges[k].0 == ref;
          assert k > 0 ==> edges[1..][k - 1] == edges[k];
        }
      }
    }
  }

  /** New entries are for references that had none and gain something. */
  lemma {:induction false} UpsertAllNewEntry(ds: seq<Dep>, edges: seq<(string, string)>, k: nat)
    requires |ds| <= k < |UpsertAll(ds, edges)|
    ensures var ref := UpsertAll(ds, edges)[k].ref; ref.Some? && !HasRef(ds, ref.value) && Touched(edges, ref.value)
    decreases |edges|
  {
    var us := UpsertAll(ds, edges);
    var (from, to) := edges[0];
    var next := Upsert(ds, from, [to]);
    assert Touched(edges, from);
    assert forall i | 0 <= i < |ds| :: next[i].ref == ds[i].ref;
    hide UniqueSort;
    if k < |next| {
      assert k == |ds| && next[k].ref == Some(from);
      UpsertAllKeepsEntries(next, edges[1..], k);
    } else {
      UpsertAllNewEntry(next, edges[1..], k);
      hide Upsert, HasRef;
      var ref := us[k].ref.value;
      var i :| 0 <= i < |edges[1..]| && edges[1..][i].0 == ref;
      assert edges[i + 1].0 == ref;
      if HasRef(ds, ref) {
        RefStays(ds, from, to, ref);
      }
    }
  }

  lemma RefStays(ds: seq<Dep>, from: string, to: string, ref: string)
    requires HasRef(ds, ref)
    ensures HasRef(Upsert(ds, from, [to]), ref)
  {
    var i :| 0 <= i < |ds| && ds[i].ref == Some(ref);
    assert Upsert(ds, from, [to])[i].ref == Some(ref);
  }

  /** With old entries for a reference, the entries after the upserts are those. */
  lemma EntriesOfRef(ds: seq<Dep>, edges: seq<(string, string)>, ref: string)
    requires HasRef(ds, ref) || !Touched(edges, ref)
    ensures var us := UpsertAll(ds, edges);
            && (HasRef(us, ref) <==> HasRef(ds, ref))
            && forall i | 0 <= i < |us| && us[i].ref == Some(ref) :: i < |ds| && ds[i].ref == Some(ref)
  {
    hide UpsertAll;
    var us := UpsertAll(ds, edges);
    forall i | 0 <= i < |us| && us[i].ref == Some(ref)
      ensures i < |ds| && ds[i].ref == Some(ref)
    {
      if i < |ds| {
        UpsertAllKeepsEntries(ds, edges, i);
      } else {
        UpsertAllNewEntry(ds, edges, i);
      }
    }
    if i :| 0 <= i < |ds| && ds[i].ref == Some(ref) {
      UpsertAllKeepsEntries(ds, edges, i);
      assert us[i].ref == Some(ref);
    }
  }

  /** What is settled after the upserts can be told before them. */
  lemma SettledExactly(ds: seq<Dep>, edges: seq<(string, string)>, e: (string, string))
    ensures Settled(UpsertAll(ds, edges), e) <==> WillBeSettled(ds, edges, e)
  {
    hide UpsertAll, Canonical;
    if e in edges {
      UpsertAllSettles(ds, edges);
    } else if !Touched(edges, e.0) {
      UntouchedSettled(ds, edges, e);
    } else if HasRef(ds, e.0) {
      EntriesOfRef(ds, edges, e.0);
      forall i | 0 <= i < |ds| && ds[i].ref == Some(e.0)
        ensures var us := UpsertAll(ds, edges);
                && i < |us| && us[i].ref == Some(e.0) && us[i].dependsOn.Some? && Canonical(us[i].dependsOn.value)
                && (e.1 in us[i].dependsOn.value <==> e.1 in ds[i].dependsOn.GetOr([]))
      {
        UpsertAllEntry(ds, edges, i, e.0);
      }
    } else {
      NoEdgeNotSettled(UpsertAll(ds, edges), e);
      UpsertAllIsUnion(ds, edges, e.0, e.1);
    }
  }

  lemma UntouchedSettled(ds: seq<Dep>, edges: seq<(string, string)>, e: (string, string))
    requires !Touched(edges, e.0)
    ensures Settled(UpsertAll(ds, edges), e) <==> Settled(ds, e)
  {
    hide UpsertAll, Canonical;
    EntriesOfRef(ds, edges, e.0);
    forall i | 0 <= i < |ds| && ds[i].ref == Some(e.0)
      ensures i < |UpsertAll(ds, edges)| && UpsertAll(ds, edges)[i] == ds[i]
    {
      assert forall f | f in edges :: f.0 != e.0;
      UpsertAllKeepsEntries(ds, edges, i);
    }
  }

  lemma {:induction false} UpsertAllAppend(ds: seq<Dep>, edges: seq<(string, string)>, more: seq<(string, string)>)
    ensures UpsertAll(ds, edges + more) == UpsertAll(UpsertAll(ds, edges), more)
    decreases |edges|
  {
    if edges == [] {
      assert edges + more == more;
    } else {
      assert (edges + more)[1..] == edges[1..] + more;
      UpsertAllAppend(Upsert(ds, edges[0].0, [edges[0].1]), edges[1..], more);
    }
  }

  // ----- The document

  /** A member of the document: absent or null, an array, or something else. */
  datatype Member<T> = Missing | Items(items: seq<T>) | NotAnArray

  datatype Bom = Bom(saltRef: string, components: Member<Component>, dependencies: Member<Dep>)

  const BUILD_TOOL: string := "salt-build-tool"

  predicate ForSalt(role: string)
  {
    role == BUILD_TOOL
  }

  predicate ForSodium(role: string)
  {
    role == "libsodium-runtime" || role == "libsodium-build"
  }

  /** The edges between packages. */
  function PackageEdges(doc: DepsDoc): (r: seq<(string, string)>)
    ensures |r| == |doc.dependencies|
  {
    seq(|doc.dependencies|, i requires 0 <= i < |doc.dependencies| =>
      (RefOf(doc.packages, doc.dependencies[i].0), RefOf(doc.packages, doc.dependencies[i].1)))
  }

  /** The edges from a component to the roots whose role concerns it. */
  function RootEdges(packages: seq<Package>, roots: seq<(Name, string)>, ref: string,
                     concerns: string -> bool): seq<(string, string)>
  {
    if roots == [] then []
    else (if concerns(roots[0].1) then [(ref, RefOf(packages, roots[0].0))] else [])
         + RootEdges(packages, roots[1..], ref, concerns)
  }

  /** The merge, given the references of salt and libsodium; it fails if the document has no proper component list. */
  function Merge(bom: Bom, doc: DepsDoc, saltRef: string, sodiumRef: string): Option<Bom>
  {
    if !bom.components.Items? || bom.dependencies.NotAnArray? then None
    else
      var start := if bom.dependencies.Missing? then [] else bom.dependencies.items;
      var packaged := UpsertAll(start, PackageEdges(doc));
      var salted := UpsertAll(packaged, RootEdges(doc.packages, doc.roots, saltRef, ForSalt));
      var done := UpsertAll(salted, RootEdges(doc.packages, doc.roots, sodiumRef, ForSodium));
      Some(bom.(components := Items(FoldComponents(bom.components.items, doc.packages)), dependencies := Items(done)))
  }

  /** All the edges of a merge, in the order in which they are added. */
  function AddedEdges(doc: DepsDoc, saltRef: string, sodiumRef: string): seq<(string, string)>
  {
    PackageEdges(doc) + RootEdges(doc.packages, doc.roots, saltRef, ForSalt)
    + RootEdges(doc.packages, doc.roots, sodiumRef, ForSodium)
  }

  /** The old and new edges of a document. */
  function Entries(bom: Bom): seq<Dep>
  {
    if bom.dependencies.Items? then bom.dependencies.items else []
  }

  lemma MergedEntries(bom: Bom, doc: DepsDoc, saltRef: string, sodiumRef: string)
    requires Merge(bom, doc, saltRef, sodiumRef).Some?
    ensures Entries(Merge(bom, doc, saltRef, sodiumRef).value) == UpsertAll(Entries(bom),
            AddedEdges(doc, saltRef, sodiumRef))
  {
    hide UpsertAll, FoldComponents, PackageEdges, RootEdges;
    var e := PackageEdges(doc);
    var f := RootEdges(doc.packages, doc.roots, saltRef, ForSalt);
    var g := RootEdges(doc.packages, doc.roots, sodiumRef, ForSodium);
    UpsertAllAppend(Entries(bom), e + f, g);
    UpsertAllAppend(Entries(bom), e, f);
  }

  lemma {:induction false} RootEdgesAre(packages: seq<Package>, roots: seq<(Name, string)>, ref: string,
                                        concerns: string -> bool, from: string, to: string)
    ensures (from, to) in RootEdges(packages, roots, ref, concerns) <==>
            from == ref && exists r :: r in roots && concerns(r.1) && to == RefOf(packages, r.0)
  {
    if roots != [] {
      RootEdgesAre(packages, roots[1..], ref, concerns, from, to);
      assert roots == [roots[0]] + roots[1..];
    }
  }

  /** The document asks for this edge. */
  ghost predicate Asked(doc: DepsDoc, saltRef: string, sodiumRef: string, from: string, to: string)
  {
    || (exists d :: d in doc.dependencies && from == RefOf(doc.packages, d.0) && to == RefOf(doc.packages, d.1))
    || (from == saltRef && exists r :: r in doc.roots && ForSalt(r.1) && to == RefOf(doc.packages, r.0))
    || (from == sodiumRef && exists r :: r in doc.roots && ForSodium(r.1) && to == RefOf(doc.packages, r.0))
  }

  /** After the merge the dependency edges are exactly the old ones and the ones asked for. */
  lemma MergeIsUnion(bom: Bom, doc: DepsDoc, saltRef: string, sodiumRef: string, from: string, to: string)
    requires Merge(bom, doc, saltRef, sodiumRef).Some?
    ensures Edge(Entries(Merge(bom, doc, saltRef, sodiumRef).value), from, to) <==>
            Edge(Entries(bom), from, to) || Asked(doc, saltRef, sodiumRef, from, to)
  {
    hide Merge, Edge, RefOf, UpsertAll, RootEdges, ForSalt, ForSodium;
    MergedEntries(bom, doc, saltRef, sodiumRef);
    UpsertAllIsUnion(Entries(bom), AddedEdges(doc, saltRef, sodiumRef), from, to);
    RootEdgesAre(doc.packages, doc.roots, saltRef, ForSalt, from, to);
    RootEdgesAre(doc.packages, doc.roots, sodiumRef, ForSodium, from, to);
    PackageEdgesAre(doc, from, to);
  }

  lemma PackageEdgesAre(doc: DepsDoc, from: string, to: string)
    ensures (from, to) in PackageEdges(doc) <==>
            exists d :: d in doc.dependencies && from == RefOf(doc.packages, d.0) && to == RefOf(doc.packages, d.1)
  {
    hide RefOf;
    var es := PackageEdges(doc);
    if d :| d in doc.dependencies && from == RefOf(doc.packages, d.0) && to == RefOf(doc.packages, d.1) {
      var i :| 0 <= i < |doc.dependencies| && doc.dependencies[i] == d;
      assert es[i] == (from, to);
    }
  }

  /** Merging the same input twice gives the same document as merging it once. */
  lemma MergeIsIdempotent(bom: Bom, doc: DepsDoc, saltRef: string, sodiumRef: string)
    requires Merge(bom, doc, saltRef, sodiumRef).Some?
    ensures var once := Merge(bom, doc, saltRef, sodiumRef); Merge(once.value, doc, saltRef, sodiumRef) == once
  {
    var once := Merge(bom, doc, saltRef, sodiumRef).value;
    ComponentsIdempotent(bom.components.items, doc.packages);
    MergedEntries(bom, doc, saltRef, sodiumRef);
    MergedEntries(once, doc, saltRef, sodiumRef);
    hide UpsertAll, FoldComponents, PackageEdges, RootEdges, Settled;
    UpsertAllSettles(Entries(bom), AddedEdges(doc, saltRef, sodiumRef));
    SettledAllKept(Entries(once), AddedEdges(doc, saltRef, sodiumRef));
  }

  // ----- The whole step: the references come from the document itself

  /** The reference of the first component named libsodium, or nothing. */
  function SodiumRef(cs: seq<Component>): string
  {
    if cs == [] then ""
    else if cs[0].name == Some("libsodium") then cs[0].bomRef.GetOr("")
    else SodiumRef(cs[1..])
  }

  /** It is the first: no component before it has that name. */
  lemma {:induction false} SodiumRefIsFirst(cs: seq<Component>, i: nat)
    requires i < |cs| && cs[i].name == Some("libsodium")
    requires forall j | 0 <= j < i :: cs[j].name != Some("libsodium")
    ensures SodiumRef(cs) == cs[i].bomRef.GetOr("")
  {
    if i > 0 {
      assert cs[1..][i - 1] == cs[i] && forall j | 0 <= j < i - 1 :: cs[1..][j] == cs[j + 1];
      SodiumRefIsFirst(cs[1..], i - 1);
    }
  }

  function MergeDocument(bom: Bom, doc: DepsDoc): Option<Bom>
  {
    if bom.saltRef == "" || !bom.components.Items? || SodiumRef(bom.components.items) == "" then None
    else Merge(bom, doc, bom.saltRef, SodiumRef(bom.components.items))
  }

  /** Some component is the first named libsodium, and it has a reference. */
  ghost predicate KnowsSodium(cs: seq<Component>)
  {
    exists i :: 0 <= i < |cs| && cs[i].name == Some("libsodium") && cs[i].bomRef.GetOr("") != ""
                && forall j | 0 <= j < i :: cs[j].name != Some("libsodium")
  }

  /** The documents that are accepted, and no others. */
  lemma DocumentAccepted(bom: Bom, doc: DepsDoc)
    ensures MergeDocument(bom, doc).Some? <==>
              && bom.saltRef != "" && bom.components.Items? && (bom.dependencies.Missing? || bom.dependencies.Items?)
              && KnowsSodium(bom.components.items)
  {
    if bom.components.Items? {
      SodiumKnown(bom.components.items);
    }
  }

  lemma {:induction false} SodiumKnown(cs: seq<Component>)
    ensures SodiumRef(cs) != "" <==> KnowsSodium(cs)
  {
    if KnowsSodium(cs) {
      var i :| 0 <= i < |cs| && cs[i].name == Some("libsodium") && cs[i].bomRef.GetOr("") != ""
               && forall j | 0 <= j < i :: cs[j].name != Some("libsodium");
      SodiumRefIsFirst(cs, i);
    }
    if SodiumRef(cs) != "" && cs[0].name != Some("libsodium") {
      SodiumKnown(cs[1..]);
      var i :| 0 <= i < |cs[1..]| && cs[1..][i].name == Some("libsodium") && cs[1..][i].bomRef.GetOr("") != ""
               && forall j | 0 <= j < i :: cs[1..][j].name != Some("libsodium");
      assert forall j | 0 < j <= i :: cs[j] == cs[1..][j - 1];
      assert cs[i + 1] == cs[1..][i];
    }
  }

  lemma {:induction false} SodiumRefKept(cs: seq<Component>, refs: set<string>, more: seq<Component>)
    requires SodiumRef(cs) != "" && SodiumRef(cs) !in refs
    ensures SodiumRef(Without(cs, refs) + more) == SodiumRef(cs)
  {
    if cs[0].name == Some("libsodium") {
      assert (Without(cs, refs) + more)[0] == cs[0];
    } else {
      SodiumRefKept(cs[1..], refs, more);
      if !(cs[0].bomRef.Some? && cs[0].bomRef.value in refs) {
        assert (Without(cs, refs) + more)[1..] == Without(cs[1..], refs) + more;
      }
    }
  }

  predicate HasSodium(cs: seq<Component>)
  {
    exists i :: 0 <= i < |cs| && cs[i].name == Some("libsodium")
  }

  /** The reference of the first package named libsodium that no later package shares. */
  function SodiumPackageRef(packages: seq<Package>): string
  {
    if packages == [] then ""
    else if packages[0].name == "libsodium" && PackageRef(packages[0]) !in PackageRefs(packages[1..])
    then PackageRef(packages[0])
    else SodiumPackageRef(packages[1..])
  }

  /** Which component counts as libsodium afterwards: the first old one that no package replaces, else a package's. */
  function SodiumRefAfter(cs: seq<Component>, packages: seq<Package>): string
  {
    var kept := Without(cs, PackageRefs(packages));
    if HasSodium(kept) then SodiumRef(kept) else SodiumPackageRef(packages)
  }

  lemma {:induction false} SodiumRefOfBoth(cs: seq<Component>, more: seq<Component>)
    ensures SodiumRef(cs + more) == if HasSodium(cs) then SodiumRef(cs) else SodiumRef(more)
  {
    if cs == [] {
      assert cs + more == more;
    } else {
      assert (cs + more)[1..] == cs[1..] + more;
      SodiumRefOfBoth(cs[1..], more);
      if cs[0].name != Some("libsodium") && HasSodium(cs) {
        var i :| 0 <= i < |cs| && cs[i].name == Some("libsodium");
        assert cs[1..][i - 1] == cs[i];
      }
    }
  }

  lemma {:induction false} SodiumRefMade(packages: seq<Package>)
    ensures SodiumRef(FoldComponents([], packages)) == SodiumPackageRef(packages)
    decreases |packages|
  {
    if packages != [] {
      var p, rest := packages[0], packages[1..];
      assert packages == [p] + rest;
      FoldFromNothing(p, rest);
      SodiumRefMade(rest);
      var made := if PackageRef(p) in PackageRefs(rest) then [] else [NewComponent(p)];
      SodiumRefOfBoth(made, FoldComponents([], rest));
      assert made != [] ==> made[0] == NewComponent(p);
    }
  }

  lemma SodiumRefAfterFold(cs: seq<Component>, packages: seq<Package>)
    ensures SodiumRef(FoldComponents(cs, packages)) == SodiumRefAfter(cs, packages)
  {
    hide FoldComponents, Without, PackageRefs, SodiumPackageRef, HasSodium;
    FoldSplits(cs, packages);
    SodiumRefOfBoth(Without(cs, PackageRefs(packages)), FoldComponents([], packages));
    SodiumRefMade(packages);
  }

  /** Unless a package takes over libsodium's own reference, the whole step done twice is the step done once. */
  lemma DocumentIsIdempotent(bom: Bom, doc: DepsDoc)
    requires MergeDocument(bom, doc).Some? && SodiumRef(bom.components.items) !in PackageRefs(doc.packages)
    ensures MergeDocument(MergeDocument(bom, doc).value, doc) == MergeDocument(bom, doc)
  {
    hide FoldComponents, UpsertAll, PackageEdges, RootEdges, PackageRefs, SodiumRef;
    var cs := bom.components.items;
    FoldSplits(cs, doc.packages);
    SodiumRefKept(cs, PackageRefs(doc.packages), FoldComponents([], doc.packages));
    MergeIsIdempotent(bom, doc, bom.saltRef, SodiumRef(cs));
  }

  /**
    * Exactly when the whole step can be repeated without effect, told from the input alone: the component that is
    * called libsodium after the fold has a reference, and every edge from it to a libsodium root is one of those
    * added, or in all its entries already, or settled as it is.
    */
  lemma DocumentRepeatsExactly(bom: Bom, doc: DepsDoc)
    requires MergeDocument(bom, doc).Some?
    ensures var once := MergeDocument(bom, doc);
            var added := AddedEdges(doc, bom.saltRef, SodiumRef(bom.components.items));
            var ref := SodiumRefAfter(bom.components.items, doc.packages);
            MergeDocument(once.value, doc) == once <==>
              ref != "" && forall r | r in doc.roots && ForSodium(r.1) ::
                             WillBeSettled(Entries(bom), added, (ref, RefOf(doc.packages, r.0)))
  {
    hide FoldComponents, PackageEdges, SodiumRef, SodiumRefAfter, Settled, WillBeSettled, RefOf;
    var added := AddedEdges(doc, bom.saltRef, SodiumRef(bom.components.items));
    var ref := SodiumRefAfter(bom.components.items, doc.packages);
    SodiumRefAfterFold(bom.components.items, doc.packages);
    var again := RootEdges(doc.packages, doc.roots, ref, ForSodium);
    SettledRepeats(bom, doc);
    MergedEntries(bom, doc, bom.saltRef, SodiumRef(bom.components.items));
    forall e | e in again
      ensures exists r :: r in doc.roots && ForSodium(r.1) && e == (ref, RefOf(doc.packages, r.0))
      ensures Settled(Entries(MergeDocument(bom, doc).value), e) <==> WillBeSettled(Entries(bom), added, e)
    {
      RootEdgesAre(doc.packages, doc.roots, ref, ForSodium, e.0, e.1);
      assert (e.0, e.1) == e;
      SettledExactly(Entries(bom), added, e);
    }
    forall r | r in doc.roots && ForSodium(r.1)
      ensures (ref, RefOf(doc.packages, r.0)) in again
    {
      RootEdgesAre(doc.packages, doc.roots, ref, ForSodium, ref, RefOf(doc.packages, r.0));
    }
  }

  /** The same, in terms of what is settled after the first time. */
  lemma SettledRepeats(bom: Bom, doc: DepsDoc)
    requires MergeDocument(bom, doc).Some?
    ensures var once := MergeDocument(bom, doc);
            var ref := SodiumRef(FoldComponents(bom.components.items, doc.packages));
            MergeDocument(once.value, doc) == once <==>
              ref != "" && forall e | e in RootEdges(doc.packages, doc.roots, ref, ForSodium) ::
                             Settled(Entries(once.value), e)
  {
    hide FoldComponents, UpsertAll, PackageEdges, RootEdges, SodiumRef, Settled;
    var first := SodiumRef(bom.components.items);
    var added := AddedEdges(doc, bom.saltRef, first);
    var once := MergeDocument(bom, doc).value;
    var ref := SodiumRef(once.components.items);
    MergedEntries(bom, doc, bom.saltRef, first);
    UpsertAllSettles(Entries(bom), added);
    if ref != "" {
      ComponentsIdempotent(bom.components.items, doc.packages);
      MergedEntries(once, doc, bom.saltRef, ref);
      var again := AddedEdges(doc, bom.saltRef, ref);
      UpsertAllSettles(Entries(once), again);
      if forall e | e in RootEdges(doc.packages, doc.roots, ref, ForSodium) :: Settled(Entries(once), e) {
        SettledAllKept(Entries(once), again);
      }
    }
  }

  lemma OneTakenOver(own: Component, other: Component, p: Package)
    requires own.bomRef == Some(PackageRef(p)) && other.bomRef != Some(PackageRef(p))
    ensures FoldComponents([own, other], [p]) == [other, NewComponent(p)]
  {
    hide PackageRef, NewComponent;
    FoldStep([own, other], [p]);
    assert [own, other][1..] == [other] && [other][1..] == [] && [p][1..] == [];
    assert Without([other], {PackageRef(p)}) == [other];
    assert Without([own, other], {PackageRef(p)}) == [other];
    assert [other] + [NewComponent(p)] == [other, NewComponent(p)];
  }

  lemma OneRootEdge(p: Package, saltRef: string, sodiumRef: string)
    ensures var doc := DepsDoc([p], [], [(p.name, "libsodium-runtime")]);
            && AddedEdges(doc, saltRef, sodiumRef) == [(sodiumRef, RefOf([p], p.name))]
            && RootEdges([p], doc.roots, sodiumRef, ForSodium) == [(sodiumRef, RefOf([p], p.name))]
  {
    hide RefOf;
    var roots := [(p.name, "libsodium-runtime")];
    assert roots[1..] == [] && !ForSalt(roots[0].1) && ForSodium(roots[0].1);
    assert RootEdges([p], roots, saltRef, ForSalt) == [];
    assert RootEdges([p], roots, sodiumRef, ForSodium) == [(sodiumRef, RefOf([p], p.name))];
    assert PackageEdges(DepsDoc([p], [], roots)) == [];
  }

  /** A package may take over libsodium's own reference; then a second component of that name can be taken for it. */
  lemma DocumentMayNotRepeat()
    ensures var p := Package("libsodium", "1", []);
            var doc := DepsDoc([p], [], [("libsodium", "libsodium-runtime")]);
            var bom := Bom("salt", Items([Component(Some(PackageRef(p)), Some("libsodium"), Other("")),
                                          Component(Some("other"), Some("libsodium"), Other(""))]), Missing);
            var once := MergeDocument(bom, doc);
            once.Some? && MergeDocument(once.value, doc) != once
  {
    var p := Package("libsodium", "1", []);
    var doc := DepsDoc([p], [], [("libsodium", "libsodium-runtime")]);
    var own := Component(Some(PackageRef(p)), Some("libsodium"), Other(""));
    var other := Component(Some("other"), Some("libsodium"), Other(""));
    var bom := Bom("salt", Items([own, other]), Missing);
    assert PackageRef(p)[0] == 'p' && "other"[0] == 'o';
    hide RefOf, FoldComponents, UpsertAll, PackageEdges, RootEdges, Settled, Edge, AddedEdges, PackageRef, ForSodium;
    assert SodiumRef([own, other]) == PackageRef(p);
    OneTakenOver(own, other, p);
    SettledRepeats(bom, doc);
    OneRootEdge(p, "salt", PackageRef(p));
    OneRootEdge(p, "salt", "other");
    MergedEntries(bom, doc, "salt", PackageRef(p));
    var once := MergeDocument(bom, doc).value;
    var e := ("other", RefOf([p], "libsodium"));
    NoEdgeNotSettled(Entries(once), e);
    UpsertAllIsUnion([], AddedEdges(doc, "salt", PackageRef(p)), e.0, e.1);
    NoEntryNoEdge(e);
  }

  lemma NoEdgeNotSettled(ds: seq<Dep>, e: (string, string))
    ensures Settled(ds, e) ==> Edge(ds, e.0, e.1)
  {
    if Settled(ds, e) {
      var i :| 0 <= i < |ds| && ds[i].ref == Some(e.0);
      assert e.1 in ds[i].dependsOn.GetOr([]);
    }
  }

  lemma NoEntryNoEdge(e: (string, string))
    ensures !Edge([], e.0, e.1)
  {
  }

  // ----- On the collector's output

  lemma {:induction false} VersionOfPackage(packages: seq<Package>, k: nat)
    requires k < |packages| && NamesDiffer(packages)
    ensures RefOf(packages, packages[k].name) == PackageRef(packages[k])
    decreases |packages|
  {
    if k > 0 {
      assert packages[1..][k - 1] == packages[k];
      VersionOfPackage(packages[1..], k - 1);
    }
  }

  /** Some component has this reference. */
  ghost predicate Named(cs: seq<Component>, ref: string)
  {
    exists c :: c in cs && c.bomRef == Some(ref)
  }

  lemma PackageIsNamed(cs: seq<Component>, packages: seq<Package>, p: Package)
    requires p in packages
    ensures Named(FoldComponents(cs, packages), PackageRef(p))
  {
    hide FoldComponents, PackageRef;
    FoldSplits(cs, packages);
    EveryRefMade(packages);
    var c :| c in FoldComponents([], packages) && c.bomRef == Some(PackageRef(p));
    assert c in FoldComponents(cs, packages);
  }

  /** Nothing that was named before the merge is nameless after it. */
  lemma NamedStaysNamed(cs: seq<Component>, packages: seq<Package>, ref: string)
    requires Named(cs, ref)
    ensures Named(FoldComponents(cs, packages), ref)
  {
    hide FoldComponents, PackageRef;
    if ref in PackageRefs(packages) {
      var p :| p in packages && PackageRef(p) == ref;
      PackageIsNamed(cs, packages, p);
    } else {
      FoldSplits(cs, packages);
      var c :| c in cs && c.bomRef == Some(ref);
      InWithout(cs, PackageRefs(packages), c);
      assert c in FoldComponents(cs, packages);
    }
  }

  /** Every name that occurs in the collector's document is one of its packages. */
  lemma CollectedNamesArePackages(doc: DepsDoc, depends: Depends, version: Name -> string, specs: seq<string>)
    requires SpecsOk(specs) && Describes(doc, depends, version, specs)
    ensures NamesDiffer(doc.packages)
    ensures forall d | d in doc.dependencies :: HasPackage(doc, d.0) && HasPackage(doc, d.1)
    ensures forall r | r in doc.roots :: HasPackage(doc, r.0)
  {
    hide Reachable, DependsOn, ParseSpec, Before;
    var roots := RootNames(specs);
    forall i, j | 0 <= i < j < |doc.packages|
      ensures doc.packages[i].name != doc.packages[j].name
    {
      BeforeIsStrict(doc.packages[i].name, doc.packages[j].name);
    }
    forall d | d in doc.dependencies
      ensures HasPackage(doc, d.0) && HasPackage(doc, d.1)
    {
      assert Related(depends, roots, d);
      StepReachable(depends, roots, d.0, d.1);
    }
    forall r | r in doc.roots
      ensures HasPackage(doc, r.0)
    {
      RootIsNamed(doc, specs, r);
      RootReachable(depends, roots, r.0);
    }
  }

  lemma RootIsNamed(doc: DepsDoc, specs: seq<string>, r: (Name, string))
    requires SpecsOk(specs) && multiset(doc.roots) == multiset(ParseSpecs(specs)) && r in doc.roots
    ensures r.0 in RootNames(specs)
  {
    assert r in multiset(doc.roots);
    var read := ParseSpecs(specs);
    assert r in read;
    var k :| 0 <= k < |read| && read[k] == r;
    assert DepClosure.Names(read)[k] == r.0;
  }

  lemma PackageNameIsNamed(cs: seq<Component>, doc: DepsDoc, name: Name)
    requires NamesDiffer(doc.packages) && HasPackage(doc, name)
    ensures Named(FoldComponents(cs, doc.packages), RefOf(doc.packages, name))
  {
    hide FoldComponents, RefOf, PackageRef, Named;
    var k :| 0 <= k < |doc.packages| && doc.packages[k].name == name;
    VersionOfPackage(doc.packages, k);
    PackageIsNamed(cs, doc.packages, doc.packages[k]);
  }

  /**
    * On the collector's output every reference the merge adds is the reference of a component that is present
    * afterwards; only salt's own reference is outside the component list.
    */
  lemma AddedReferencesResolve(bom: Bom, doc: DepsDoc, depends: Depends, version: Name -> string, specs: seq<string>,
                               from: string, to: string)
    requires SpecsOk(specs) && Describes(doc, depends, version, specs) && MergeDocument(bom, doc).Some?
    requires Asked(doc, bom.saltRef, SodiumRef(bom.components.items), from, to)
    ensures var cs := MergeDocument(bom, doc).value.components.items;
            Named(cs, to) && (from != bom.saltRef ==> Named(cs, from))
  {
    hide RefOf, FoldComponents, ForSalt, ForSodium, Describes, Named, UpsertAll, PackageEdges, RootEdges;
    var cs := bom.components.items;
    CollectedNamesArePackages(doc, depends, version, specs);
    forall name | HasPackage(doc, name)
      ensures Named(FoldComponents(cs, doc.packages), RefOf(doc.packages, name))
    {
      PackageNameIsNamed(cs, doc, name);
    }
    SodiumIsNamed(cs);
    NamedStaysNamed(cs, doc.packages, SodiumRef(cs));
  }

  lemma {:induction false} SodiumIsNamed(cs: seq<Component>)
    requires SodiumRef(cs) != ""
    ensures Named(cs, SodiumRef(cs))
  {
    if cs[0].name != Some("libsodium") {
      SodiumIsNamed(cs[1..]);
    }
  }

  /** With no at sign in the names, the reference of a package names that package's component and no other. */
  lemma ReferenceMeansPackage(cs: seq<Component>, doc: DepsDoc, k: nat, c: Component)
    requires k < |doc.packages| && NamesDiffer(doc.packages)
    requires forall p | p in doc.packages :: '@' !in p.name
    ensures c in FoldComponents(cs, doc.packages) && c.bomRef == Some(RefOf(doc.packages, doc.packages[k].name)) <==>
            c == NewComponent(doc.packages[k])
  {
    hide FoldComponents, RefOf, CdxRef;
    var p := doc.packages[k];
    VersionOfPackage(doc.packages, k);
    forall q, q' | q in doc.packages && q' in doc.packages && PackageRef(q) == PackageRef(q')
      ensures q == q'
    {
      CdxRefTellsNamesApart(q.name, q.version, q'.name, q'.version);
    }
    AllPackagesKept(cs, doc.packages);
    FoldSplits(cs, doc.packages);
    InWithout(cs, PackageRefs(doc.packages), c);
    MadeOfPackages(doc.packages);
  }

  // ----- The merged document, on the collector's output

  /** The package URL of a package of that name and version. */
  function Purl(name: Name, version: string): string
  {
    "pkg:deb/ubuntu/" + name + (if version in ["", "NOASSERTION"] then "" else "@" + version)
  }

  lemma RefIsPurl(name: Name, version: string)
    ensures CdxRef(name, version) == Purl(name, version)
  {
    assert PURL_PREFIX + name + "@" + version == PURL_PREFIX + name + ("@" + version);
    assert PURL_PREFIX + name + "" == PURL_PREFIX + name;
  }

  lemma CollectedRef(doc: DepsDoc, version: Name -> string, name: Name)
    requires NamesDiffer(doc.packages) && HasPackage(doc, name)
    requires forall k | 0 <= k < |doc.packages| :: doc.packages[k].version == version(doc.packages[k].name)
    ensures RefOf(doc.packages, name) == Purl(name, version(name))
  {
    hide RefOf, CdxRef, Purl;
    var k :| 0 <= k < |doc.packages| && doc.packages[k].name == name;
    VersionOfPackage(doc.packages, k);
    RefIsPurl(name, version(name));
  }

  /**
    * What the merge makes of a reachable package, when no name has an at sign: the only component with its reference,
    * which has its name and version and is left out of the shipped product exactly if the package is a build tool.
    */
  lemma CollectedComponent(bom: Bom, doc: DepsDoc, depends: Depends, version: Name -> string, specs: seq<string>,
                           name: Name)
    requires SpecsOk(specs) && Describes(doc, depends, version, specs) && HasAllRoles(doc, specs)
    requires MergeDocument(bom, doc).Some? && Reachable(depends, RootNames(specs), name)
    requires forall p | Reachable(depends, RootNames(specs), p) :: '@' !in p
    ensures var cs := MergeDocument(bom, doc).value.components.items;
            && Named(cs, Purl(name, version(name)))
            && forall c | c in cs && c.bomRef == Some(Purl(name, version(name))) ::
                 && c.name == Some(name) && c.details.Ubuntu?
                 && c.details.version == version(name) && c.details.purl == Purl(name, version(name))
                 && (c.details.scope == "excluded" <==> (name, "salt-build-tool") in ParseSpecs(specs))
                 && (c.details.scope == "required" <==> (name, "salt-build-tool") !in ParseSpecs(specs))
                 && exists roles :: Canonical(roles) && (forall r :: r in roles <==> (name, r) in ParseSpecs(specs))
                                    && c.details.roles == Join(roles)
  {
    hide Reachable, ParseSpec, FoldComponents, RefOf, UpsertAll, PackageEdges, RootEdges, Purl, CdxRef, Related, Join,
         Before, Canonical, Ordered, Increasing;
    CollectedNamesArePackages(doc, depends, version, specs);
    assert HasPackage(doc, name);
    var k :| 0 <= k < |doc.packages| && doc.packages[k].name == name;
    CollectedRef(doc, version, name);
    RefIsPurl(name, version(name));
    var cs := MergeDocument(bom, doc).value.components.items;
    PackageNameIsNamed(bom.components.items, doc, name);
    forall p | p in doc.packages
      ensures '@' !in p.name
    {
      var j :| 0 <= j < |doc.packages| && doc.packages[j] == p;
      assert HasPackage(doc, p.name);
    }
    forall c | c in cs && c.bomRef == Some(Purl(name, version(name)))
      ensures c == NewComponent(doc.packages[k])
    {
      ReferenceMeansPackage(bom.components.items, doc, k, c);
    }
    ScopeMeansTool(doc.packages[k]);
    var p := doc.packages[k];
    assert p in doc.packages && Canonical(p.roles) && forall r :: r in p.roles <==> (name, r) in ParseSpecs(specs);
    assert NewComponent(p).details.roles == Join(p.roles);
  }

  lemma ScopeMeansTool(p: Package)
    ensures NewComponent(p).details.scope == (if "salt-build-tool" in p.roles then "excluded" else "required")
    ensures "excluded" != "required"
  {
    assert |"excluded"| == |"required"| && "excluded"[0] == 'e' && "required"[0] == 'r';
  }

  /** An edge that the merge of a collected document adds, in the collector's terms. */
  ghost predicate Collected(bom: Bom, depends: Depends, version: Name -> string, specs: seq<string>, from: string,
                            to: string)
    requires SpecsOk(specs) && bom.components.Items?
  {
    || (exists a, b :: Related(depends, RootNames(specs), (a, b))
                       && from == Purl(a, version(a)) && to == Purl(b, version(b)))
    || (from == bom.saltRef
        && exists n :: (n, "salt-build-tool") in ParseSpecs(specs) && to == Purl(n, version(n)))
    || (from == SodiumRef(bom.components.items)
        && exists n :: ((n, "libsodium-runtime") in ParseSpecs(specs) || (n, "libsodium-build") in ParseSpecs(specs))
                       && to == Purl(n, version(n)))
  }

  /**
    * The merge of a collected document in which no edge is lost: to the old edges it adds the ones between the
    * packages, from salt to its build tools, and from libsodium to the packages it runs on or is built from.
    */
  lemma CollectedEdges(bom: Bom, doc: DepsDoc, depends: Depends, version: Name -> string, specs: seq<string>,
                       from: string, to: string)
    requires SpecsOk(specs) && Describes(doc, depends, version, specs) && HasAllEdges(doc, depends, specs)
    requires MergeDocument(bom, doc).Some?
    ensures Edge(Entries(MergeDocument(bom, doc).value), from, to) <==>
            Edge(Entries(bom), from, to) || Collected(bom, depends, version, specs, from, to)
  {
    hide Describes, HasAllEdges, Edge, Asked, Collected, SodiumRef, Merge, ParseSpec;
    MergeIsUnion(bom, doc, bom.saltRef, SodiumRef(bom.components.items), from, to);
    AskedIsCollected(bom, doc, depends, version, specs, from, to);
  }

  lemma AskedIsCollected(bom: Bom, doc: DepsDoc, depends: Depends, version: Name -> string, specs: seq<string>,
                         from: string, to: string)
    requires SpecsOk(specs) && Describes(doc, depends, version, specs) && HasAllEdges(doc, depends, specs)
    requires bom.components.Items?
    ensures Asked(doc, bom.saltRef, SodiumRef(bom.components.items), from, to) <==>
            Collected(bom, depends, version, specs, from, to)
  {
    hide Reachable, Related, ParseSpec, RefOf, Purl, SodiumRef, Before, Canonical, Ordered, Increasing, RootNames;
    CollectedNamesArePackages(doc, depends, version, specs);
    forall n | HasPackage(doc, n)
      ensures RefOf(doc.packages, n) == Purl(n, version(n))
    {
      CollectedRef(doc, version, n);
    }
    var read := ParseSpecs(specs);
    forall r
      ensures r in doc.roots <==> r in read
    {
      assert r in doc.roots <==> r in multiset(doc.roots);
      assert r in read <==> r in multiset(read);
    }
    forall e
      ensures e in doc.dependencies <==> Related(depends, RootNames(specs), e)
    {
    }
    forall d | d in doc.dependencies
      ensures d == (d.0, d.1) && RefOf(doc.packages, d.0) == Purl(d.0, version(d.0))
      ensures RefOf(doc.packages, d.1) == Purl(d.1, version(d.1))
    {
    }
    forall r | r in doc.roots
      ensures r == (r.0, r.1) && RefOf(doc.packages, r.0) == Purl(r.0, version(r.0))
    {
    }
  }
}
