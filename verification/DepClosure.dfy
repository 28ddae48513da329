/** The dependency collector: a first-in first-out worklist over package names. */
module DepClosure {
  import opened Bytes
  import opened StringOrder

  type Name = string

  // ----- Names and keys

  /** What follows the last colon. */
  function NormalizePkg(s: string): (r: string)
    ensures ':' !in r
    decreases |s|
  {
    if ':' !in s then s else NormalizePkg(s[FirstColon(s) + 1..])
  }

  lemma NormalizeStep(s: string)
    ensures NormalizePkg(s) == if ':' in s then NormalizePkg(s[FirstColon(s) + 1..]) else s
  {
  }

  /** Nothing is lost but what ends in a colon. */
  lemma {:induction false} NormalizedIsEnd(s: string) returns (dropped: string)
    ensures s == dropped + NormalizePkg(s) && (dropped == "" || dropped[|dropped| - 1] == ':')
    decreases |s|
  {
    hide NormalizePkg, FirstColon;
    NormalizeStep(s);
    dropped := "";
    if ':' in s {
      var n := FirstColon(s);
      var more := NormalizedIsEnd(s[n + 1..]);
      dropped := s[..n + 1] + more;
      assert s == s[..n + 1] + s[n + 1..];
    }
  }

  function FirstColon(s: string): (n: nat)
    requires ':' in s
    ensures n < |s| && s[n] == ':' && ':' !in s[..n]
  {
    if s[0] == ':' then 0 else
      var n := 1 + FirstColon(s[1..]);
      assert s[..n] == [s[0]] + s[1..][..n - 1];
      n
  }

  /** The key of a pair in the associative arrays. */
  function Key(a: string, b: string): string
  {
    a + "|" + b
  }

  /** Keys are told apart when the first components hold no bar. */
  lemma KeyInjective(a: string, b: string, a': string, b': string)
    requires '|' !in a && '|' !in a' && Key(a, b) == Key(a', b')
    ensures a == a' && b == b'
  {
    var k := Key(a, b);
    assert k[|a|] == '|' && k[|a'|] == '|';
    assert forall i | 0 <= i < |a| :: k[i] in a;
    assert forall i | 0 <= i < |a'| :: k[i] in a';
    assert k[..|a|] == a && k[..|a'|] == a' && k[|a| + 1..] == b && k[|a'| + 1..] == b';
  }

  // ----- The relation

  /** The dependencies a package manager reports for each name. */
  type Depends = Name -> seq<Name>

  ghost predicate DependsOn(depends: Depends, p: Name, d: Name)
  {
    d != "" && exists x :: x in depends(p) && NormalizePkg(x) == d
  }

  ghost predicate IsPath(depends: Depends, path: seq<Name>)
  {
    path != [] && forall i | 0 <= i < |path| - 1 :: DependsOn(depends, path[i], path[i + 1])
  }

  /** A package is reached from the roots by following dependencies. */
  ghost predicate Reachable(depends: Depends, roots: set<Name>, p: Name)
  {
    exists path :: IsPath(depends, path) && path[0] in roots && path[|path| - 1] == p
  }

  lemma RootReachable(depends: Depends, roots: set<Name>, p: Name)
    requires p in roots
    ensures Reachable(depends, roots, p)
  {
    assert IsPath(depends, [p]) && [p][0] in roots;
  }

  lemma StepReachable(depends: Depends, roots: set<Name>, p: Name, d: Name)
    requires Reachable(depends, roots, p) && DependsOn(depends, p, d)
    ensures Reachable(depends, roots, d)
  {
    var path :| IsPath(depends, path) && path[0] in roots && path[|path| - 1] == p;
    var longer := path + [d];
    assert IsPath(depends, longer) by {
      forall i | 0 <= i < |longer| - 1
        ensures DependsOn(depends, longer[i], longer[i + 1])
      {
        if i < |path| - 1 {
          assert longer[i + 1] == path[i + 1];
        }
      }
    }
    assert longer[0] in roots && longer[|longer| - 1] == d;
  }

  /** A set that holds the roots and is closed under dependency holds everything reachable. */
  lemma {:induction false} ClosedHoldsPath(depends: Depends, s: set<Name>, path: seq<Name>)
    requires IsPath(depends, path) && path[0] in s
    requires forall p, d | p in s && DependsOn(depends, p, d) :: d in s
    ensures path[|path| - 1] in s
    decreases |path|
  {
    if |path| > 1 {
      assert DependsOn(depends, path[0], path[1]);
      assert IsPath(depends, path[1..]) by {
        forall i | 0 <= i < |path[1..]| - 1
          ensures DependsOn(depends, path[1..][i], path[1..][i + 1])
        {
          assert DependsOn(depends, path[i + 1], path[i + 2]);
        }
      }
      ClosedHoldsPath(depends, s, path[1..]);
    }
  }

  // ----- First occurrences

  function Elements<T>(s: seq<T>): set<T>
  {
    set x | x in s
  }

  lemma Extended<T>(s: seq<T>, more: seq<T>)
    ensures Elements(s + more) == Elements(s) + Elements(more)
  {
    assert forall x :: x in s + more <==> x in s || x in more;
  }

  /** The first occurrence of every element, in order. */
  function Dedup(s: seq<Name>): (r: seq<Name>)
    ensures |r| <= |s|
  {
    if s == [] then []
    else
      var front, last := Dedup(s[..|s| - 1]), s[|s| - 1];
      if last in front then front else front + [last]
  }

  lemma DedupSnoc(s: seq<Name>, x: Name)
    ensures Dedup(s + [x]) == if x in Dedup(s) then Dedup(s) else Dedup(s) + [x]
  {
    assert (s + [x])[..|s|] == s;
  }

  lemma {:induction false} DedupIs(s: seq<Name>)
    ensures NoRepeats(Dedup(s)) && Elements(Dedup(s)) == Elements(s)
  {
    if s != [] {
      var front, last := s[..|s| - 1], s[|s| - 1];
      DedupIs(front);
      assert s == front + [last];
      Extended(front, [last]);
      Extended(Dedup(front), [last]);
      assert last in Dedup(front) <==> last in Elements(Dedup(front));
    }
  }

  predicate HasKey(s: seq<Pair>, key: string)
  {
    exists i :: 0 <= i < |s| && Key(s[i].0, s[i].1) == key
  }

  /** The first pair for every key, in order. */
  function FirstOfKeys(s: seq<Pair>): seq<Pair>
  {
    if s == [] then []
    else
      var front, last := FirstOfKeys(s[..|s| - 1]), s[|s| - 1];
      if HasKey(front, Key(last.0, last.1)) then front else front + [last]
  }

  function KeysOf(s: seq<Pair>): set<string>
  {
    set e | e in s :: Key(e.0, e.1)
  }

  lemma FirstOfKeysSnoc(s: seq<Pair>, e: Pair)
    ensures FirstOfKeys(s + [e]) == if HasKey(FirstOfKeys(s), Key(e.0, e.1)) then FirstOfKeys(s)
            else FirstOfKeys(s) + [e]
    ensures KeysOf(s + [e]) == KeysOf(s) + {Key(e.0, e.1)}
  {
    assert (s + [e])[..|s|] == s;
    assert forall f :: f in s + [e] <==> f in s || f == e;
  }

  lemma {:induction false} KeysKept(s: seq<Pair>)
    ensures forall k :: HasKey(FirstOfKeys(s), k) <==> k in KeysOf(s)
  {
    hide Key, HasKey, KeysOf, FirstOfKeys;
    if s == [] {
      NoKeys();
    } else {
      var front, last := s[..|s| - 1], s[|s| - 1];
      assert s == front + [last];
      KeysKept(front);
      FirstOfKeysSnoc(front, last);
      HasKeySnoc(FirstOfKeys(front), last);
    }
  }

  lemma NoKeys()
    ensures FirstOfKeys([]) == [] && KeysOf([]) == {} && forall k :: !HasKey([], k)
  {
  }

  lemma {:induction false} KeysOnce(s: seq<Pair>)
    ensures Elements(FirstOfKeys(s)) <= Elements(s)
    ensures forall i, j | 0 <= i < j < |FirstOfKeys(s)| ::
              Key(FirstOfKeys(s)[i].0, FirstOfKeys(s)[i].1) != Key(FirstOfKeys(s)[j].0, FirstOfKeys(s)[j].1)
  {
    hide Key, FirstOfKeys, KeysOf;
    if s == [] {
      NoKeys();
    } else {
      var front, last := s[..|s| - 1], s[|s| - 1];
      assert s == front + [last];
      KeysOnce(front);
      FirstOfKeysSnoc(front, last);
      Extended(front, [last]);
      Extended(FirstOfKeys(front), [last]);
    }
  }

  lemma FirstOfKeysIs(s: seq<Pair>)
    ensures Elements(FirstOfKeys(s)) <= Elements(s) && NoRepeats(FirstOfKeys(s))
    ensures forall k :: HasKey(FirstOfKeys(s), k) <==> k in KeysOf(s)
    ensures forall i, j | 0 <= i < j < |FirstOfKeys(s)| ::
              Key(FirstOfKeys(s)[i].0, FirstOfKeys(s)[i].1) != Key(FirstOfKeys(s)[j].0, FirstOfKeys(s)[j].1)
  {
    hide Key, FirstOfKeys, KeysOf, HasKey, Elements;
    KeysKept(s);
    KeysOnce(s);
    assert forall i, j | 0 <= i < j < |FirstOfKeys(s)| ::
        Key(FirstOfKeys(s)[i].0, FirstOfKeys(s)[i].1) != Key(FirstOfKeys(s)[j].0, FirstOfKeys(s)[j].1);
  }

  lemma HasKeySnoc(s: seq<Pair>, e: Pair)
    ensures forall k :: HasKey(s + [e], k) <==> HasKey(s, k) || k == Key(e.0, e.1)
  {
    var t := s + [e];
    assert t[|s|] == e;
    forall k
      ensures HasKey(t, k) <==> HasKey(s, k) || k == Key(e.0, e.1)
    {
      if HasKey(s, k) {
        var i :| 0 <= i < |s| && Key(s[i].0, s[i].1) == k;
        assert t[i] == s[i];
      }
    }
  }

  /** Different pairs have different keys. */
  predicate TellApart(s: set<Pair>)
  {
    forall e, f | e in s && f in s && Key(e.0, e.1) == Key(f.0, f.1) :: e == f
  }

  /** Keeping the first pair of every key loses nothing if and only if the keys tell the pairs apart. */
  lemma NothingLostExactly(s: seq<Pair>)
    ensures Elements(FirstOfKeys(s)) == Elements(s) <==> TellApart(Elements(s))
  {
    var r := FirstOfKeys(s);
    FirstOfKeysIs(s);
    if TellApart(Elements(s)) {
      forall e | e in Elements(s)
        ensures e in Elements(r)
      {
        assert HasKey(r, Key(e.0, e.1));
        var i :| 0 <= i < |r| && Key(r[i].0, r[i].1) == Key(e.0, e.1);
        assert r[i] in Elements(r);
      }
    }
    if Elements(r) == Elements(s) {
      forall e, f | e in Elements(s) && f in Elements(s) && Key(e.0, e.1) == Key(f.0, f.1)
        ensures e == f
      {
        assert e in Elements(r) && f in Elements(r);
        var i :| 0 <= i < |r| && r[i] == e;
        var j :| 0 <= j < |r| && r[j] == f;
      }
    }
  }

  /** They do when no first component holds a bar. */
  lemma NoBarsTellApart(s: set<Pair>)
    requires forall e | e in s :: '|' !in e.0
    ensures TellApart(s)
  {
    forall e, f | e in s && f in s && Key(e.0, e.1) == Key(f.0, f.1)
      ensures e == f
    {
      KeyInjective(e.0, e.1, f.0, f.1);
    }
  }

  // ----- The dependencies of one package

  function OneName(x: Name): seq<Name>
  {
    if NormalizePkg(x) == "" then [] else [NormalizePkg(x)]
  }

  /** The dependency names of a report, in its order; blank names are dropped. */
  function DepNames(deps: seq<Name>): seq<Name>
  {
    if deps == [] then [] else DepNames(deps[..|deps| - 1]) + OneName(deps[|deps| - 1])
  }

  lemma {:induction false} DepNamesMembers(deps: seq<Name>, d: Name)
    ensures d in DepNames(deps) <==> d != "" && exists x :: x in deps && NormalizePkg(x) == d
  {
    hide NormalizePkg;
    if deps != [] {
      var front, last := deps[..|deps| - 1], deps[|deps| - 1];
      DepNamesMembers(front, d);
      assert deps == front + [last] && DepNames(deps) == DepNames(front) + OneName(last);
      if d in DepNames(front) {
        var x :| x in front && NormalizePkg(x) == d;
        assert x in deps;
      }
      if d in OneName(last) {
        assert last in deps && NormalizePkg(last) == d;
      }
      if d != "" && exists x :: x in deps && NormalizePkg(x) == d {
        var x :| x in deps && NormalizePkg(x) == d;
        assert x in front || x == last;
      }
    }
  }

  lemma DepNamesAre(depends: Depends, p: Name, d: Name)
    ensures d in DepNames(depends(p)) <==> DependsOn(depends, p, d)
  {
    DepNamesMembers(depends(p), d);
  }

  function PairsOf(p: Name, ds: seq<Name>): (r: seq<Pair>)
    ensures |r| == |ds|
  {
    seq(|ds|, i requires 0 <= i < |ds| => (p, ds[i]))
  }

  lemma PairsOfSnoc(p: Name, ds: seq<Name>, d: Name)
    ensures PairsOf(p, ds + [d]) == PairsOf(p, ds) + [(p, d)]
  {
  }

  /** The dependency names of several packages, one package after the other. */
  function AllNames(depends: Depends, packages: seq<Name>): seq<Name>
  {
    if packages == [] then []
    else AllNames(depends, packages[..|packages| - 1]) + DepNames(depends(packages[|packages| - 1]))
  }

  function AllPairs(depends: Depends, packages: seq<Name>): seq<Pair>
  {
    if packages == [] then []
    else
      var last := packages[|packages| - 1];
      AllPairs(depends, packages[..|packages| - 1]) + PairsOf(last, DepNames(depends(last)))
  }

  lemma AllSnoc(depends: Depends, packages: seq<Name>, p: Name)
    ensures AllNames(depends, packages + [p]) == AllNames(depends, packages) + DepNames(depends(p))
    ensures AllPairs(depends, packages + [p]) == AllPairs(depends, packages) + PairsOf(p, DepNames(depends(p)))
  {
    assert (packages + [p])[..|packages|] == packages;
  }

  lemma {:induction false} AllPairsMembers(depends: Depends, packages: seq<Name>, a: Name, b: Name)
    ensures (a, b) in AllPairs(depends, packages) <==> a in packages && b in DepNames(depends(a))
  {
    if packages != [] {
      var front, last := packages[..|packages| - 1], packages[|packages| - 1];
      AllPairsMembers(depends, front, a, b);
      assert packages == front + [last];
      var ds := DepNames(depends(last));
      if a == last && b in ds {
        var i :| 0 <= i < |ds| && ds[i] == b;
        assert PairsOf(last, ds)[i] == (a, b);
      }
    }
  }

  lemma DepNamesSnoc(deps: seq<Name>, i: nat)
    requires i < |deps|
    ensures DepNames(deps[..i + 1])
         == if NormalizePkg(deps[i]) == "" then DepNames(deps[..i]) else DepNames(deps[..i]) + [NormalizePkg(deps[i])]
  {
    assert deps[..i + 1][..i] == deps[..i];
    assert DepNames(deps[..i]) + [] == DepNames(deps[..i]);
  }

  lemma Appended<T>(a: seq<T>, b: seq<T>, x: T)
    ensures a + (b + [x]) == a + b + [x]
  {
  }

  lemma NoNamesYet(p: Name, deps: seq<Name>, met: seq<Name>, pairs: seq<Pair>)
    ensures DepNames(deps[..0]) == [] && met + [] == met && pairs + PairsOf(p, []) == pairs
  {
  }

  /** One more name, and what it does to the names met. */
  lemma OneMoreMet(met: seq<Name>, d: Name)
    ensures Dedup(met + [d]) == if d in Elements(met) then Dedup(met) else Dedup(met) + [d]
    ensures Elements(met + [d]) == Elements(met) + {d}
  {
    hide Dedup, NoRepeats;
    DedupSnoc(met, d);
    DedupIs(met);
    assert d in Dedup(met) <==> d in Elements(Dedup(met));
    Extended(met, [d]);
  }

  /** One more pair, and what it does to the pairs kept. */
  lemma OneMorePair(pairs: seq<Pair>, e: Pair)
    ensures FirstOfKeys(pairs + [e])
         == if Key(e.0, e.1) in KeysOf(pairs) then FirstOfKeys(pairs) else FirstOfKeys(pairs) + [e]
    ensures KeysOf(pairs + [e]) == KeysOf(pairs) + {Key(e.0, e.1)}
  {
    hide Key, FirstOfKeys, KeysOf, HasKey;
    FirstOfKeysSnoc(pairs, e);
    KeysKept(pairs);
  }

  /**
    * The inner loop: records the edges of one package and queues the dependencies not met before. `done` are the
    * packages already taken from the queue, `met` all names met so far, and `pairs` all edges met so far.
    */
  method Expand(p: Name, deps: seq<Name>, pkgSeen: set<Name>, queue0: seq<Name>, queueSeen0: set<Name>,
                edges0: seq<Pair>, edgeSeen0: set<string>,
                ghost done: seq<Name>, ghost met: seq<Name>, ghost pairs: seq<Pair>)
    returns (queue: seq<Name>, queueSeen: set<Name>, edges: seq<Pair>, edgeSeen: set<string>)
    requires Dedup(met) == done + queue0 && queueSeen0 == Elements(met) && pkgSeen <= queueSeen0
    requires edges0 == FirstOfKeys(pairs) && edgeSeen0 == KeysOf(pairs)
    ensures Dedup(met + DepNames(deps)) == done + queue && queueSeen == Elements(met + DepNames(deps))
    ensures edges == FirstOfKeys(pairs + PairsOf(p, DepNames(deps)))
    ensures edgeSeen == KeysOf(pairs + PairsOf(p, DepNames(deps)))
  {
    hide Dedup, FirstOfKeys, KeysOf, Elements, Key, PairsOf, NormalizePkg, DepNames;
    queue, queueSeen, edges, edgeSeen := queue0, queueSeen0, edges0, edgeSeen0;
    NoNamesYet(p, deps, met, pairs);
    ghost var allMet, allPairs := met, pairs;
    var i := 0;
    while i < |deps|
      invariant 0 <= i <= |deps|
      invariant allMet == met + DepNames(deps[..i]) && allPairs == pairs + PairsOf(p, DepNames(deps[..i]))
      invariant Dedup(allMet) == done + queue && queueSeen == Elements(allMet) && pkgSeen <= queueSeen
      invariant edges == FirstOfKeys(allPairs) && edgeSeen == KeysOf(allPairs)
    {
      DepNamesSnoc(deps, i);
      var dep := NormalizePkg(deps[i]);
      ghost var ds := DepNames(deps[..i]);
      i := i + 1;
      if dep == "" {
        continue;
      }
      PairsOfSnoc(p, ds, dep);
      OneMoreMet(allMet, dep);
      OneMorePair(allPairs, (p, dep));
      Appended(met, ds, dep);
      Appended(pairs, PairsOf(p, ds), (p, dep));
      allMet, allPairs := allMet + [dep], allPairs + [(p, dep)];
      if Key(p, dep) !in edgeSeen {
        edgeSeen := edgeSeen + {Key(p, dep)};
        edges := edges + [(p, dep)];
      }
      if dep !in pkgSeen && dep !in queueSeen {
        queueSeen := queueSeen + {dep};
        Appended(done, queue, dep);
        queue := queue + [dep];
      }
    }
    assert deps[..i] == deps;
  }

  // ----- The worklist

  /** The names of the packages recorded so far, in order. */
  function Names(packages: seq<Pair>): (ns: seq<Name>)
    ensures |ns| == |packages| && forall k | 0 <= k < |packages| :: ns[k] == packages[k].0
  {
    seq(|packages|, k requires 0 <= k < |packages| => packages[k].0)
  }

  lemma NamesSnoc(packages: seq<Pair>, x: Pair)
    ensures Names(packages + [x]) == Names(packages) + [x.0]
  {
  }

  /** A relation among finitely many names. */
  ghost predicate ClosedUniverse(depends: Depends, universe: set<Name>)
  {
    forall p | p in universe :: Elements(DepNames(depends(p))) <= universe
  }

  /**
    * Takes packages from the front of the queue until none is left. On exit the packages are exactly the ones
    * reachable, each once, in the order in which they are first met when the roots are listed first and then the
    * dependencies of one package after the other; the edges are the ones met, the first for every key.
    */
  method Worklist(depends: Depends, version: Name -> string, roots: seq<Name>, ghost universe: set<Name>)
    returns (packages: seq<Pair>, edges: seq<Pair>)
    requires Dedup(roots) == roots && Elements(roots) <= universe && ClosedUniverse(depends, universe)
    ensures Names(packages) == Dedup(roots + AllNames(depends, Names(packages)))
    ensures NoRepeats(Names(packages))
    ensures forall p :: p in Names(packages) <==> Reachable(depends, Elements(roots), p)
    ensures forall k | 0 <= k < |packages| :: packages[k].1 == version(packages[k].0)
    ensures edges == FirstOfKeys(AllPairs(depends, Names(packages)))
  {
    hide Reachable, DependsOn, Dedup, FirstOfKeys, KeysOf, DepNames, Names, Elements, AllNames, AllPairs, NoRepeats;
    var queue, queueSeen, pkgSeen, edgeSeen := roots, Elements(roots), {}, {};
    packages, edges := [], [];
    ghost var done: seq<Name>, met := [], roots;
    EmptyStart(depends, roots);
    while |queue| > 0
      invariant done == Names(packages) && met == roots + AllNames(depends, done)
      invariant Dedup(met) == done + queue && queueSeen == Elements(met) && pkgSeen == Elements(done)
      invariant edges == FirstOfKeys(AllPairs(depends, done)) && edgeSeen == KeysOf(AllPairs(depends, done))
      invariant queueSeen <= universe
      invariant forall p | p in queueSeen :: Reachable(depends, Elements(roots), p)
      invariant forall p | p in pkgSeen :: Elements(DepNames(depends(p))) <= queueSeen
      invariant forall k | 0 <= k < |packages| :: packages[k].1 == version(packages[k].0)
      decreases universe - pkgSeen
    {
      var pkg := queue[0];
      TakeNext(met, done, queue);
      queue := queue[1..];
      if pkg in pkgSeen {
        assert false;  // the guard never skips a package: what is queued has not been seen
      }
      pkgSeen := pkgSeen + {pkg};
      NamesSnoc(packages, (pkg, version(pkg)));
      packages := packages + [(pkg, version(pkg))];
      NewNamesReachable(depends, Elements(roots), pkg);
      AllSnoc(depends, done, pkg);
      queue, queueSeen, edges, edgeSeen := Expand(pkg, depends(pkg), pkgSeen, queue, queueSeen, edges, edgeSeen,
                                                  done + [pkg], met, AllPairs(depends, done));
      Extended(met, DepNames(depends(pkg)));
      done := done + [pkg];
      assert roots + AllNames(depends, done) == met + DepNames(depends(pkg));
      met := met + DepNames(depends(pkg));
    }
    AllMet(depends, roots, done, met, queue);
  }

  lemma EmptyStart(depends: Depends, roots: seq<Name>)
    ensures roots + AllNames(depends, []) == roots && [] + roots == roots && Names([]) == [] && Elements<Name>([]) == {}
    ensures FirstOfKeys(AllPairs(depends, [])) == [] && KeysOf(AllPairs(depends, [])) == {}
    ensures forall p | p in Elements(roots) :: Reachable(depends, Elements(roots), p)
  {
    forall p | p in Elements(roots)
      ensures Reachable(depends, Elements(roots), p)
    {
      RootReachable(depends, Elements(roots), p);
    }
  }

  /** The name at the front of the queue has been met and not been taken before. */
  lemma TakeNext(met: seq<Name>, done: seq<Name>, queue: seq<Name>)
    requires Dedup(met) == done + queue && queue != []
    ensures queue[0] in Elements(met) && queue[0] !in Elements(done)
    ensures done + queue == done + [queue[0]] + queue[1..]
    ensures Elements(done + [queue[0]]) == Elements(done) + {queue[0]} && Elements(done + [queue[0]]) <= Elements(met)
  {
    DedupIs(met);
    var all := done + queue;
    assert all[|done|] == queue[0];
    assert forall i | 0 <= i < |done| :: all[i] == done[i];
    assert forall x | x in done :: x in Elements(all);
    assert queue[0] in Elements(all);
  }

  /** With an empty queue everything met has been taken, so everything reachable has. */
  lemma AllMet(depends: Depends, roots: seq<Name>, done: seq<Name>, met: seq<Name>, queue: seq<Name>)
    requires queue == [] && Dedup(met) == done + queue && met == roots + AllNames(depends, done)
    requires forall p | p in Elements(met) :: Reachable(depends, Elements(roots), p)
    requires forall p | p in Elements(done) :: Elements(DepNames(depends(p))) <= Elements(met)
    ensures done == Dedup(met) && NoRepeats(done)
    ensures forall p :: p in done <==> Reachable(depends, Elements(roots), p)
  {
    hide Reachable;
    assert done + queue == done;
    DedupIs(met);
    Extended(roots, AllNames(depends, done));
    forall p | Reachable(depends, Elements(roots), p)
      ensures p in Elements(done)
    {
      AllReachableSeen(depends, Elements(roots), Elements(done), p);
    }
  }

  lemma NewNamesReachable(depends: Depends, roots: set<Name>, pkg: Name)
    requires Reachable(depends, roots, pkg)
    ensures forall d | d in Elements(DepNames(depends(pkg))) :: Reachable(depends, roots, d)
  {
    forall d | d in DepNames(depends(pkg))
      ensures Reachable(depends, roots, d)
    {
      DepNamesAre(depends, pkg, d);
      StepReachable(depends, roots, pkg, d);
    }
  }

  lemma AllReachableSeen(depends: Depends, roots: set<Name>, seen: set<Name>, p: Name)
    requires roots <= seen && (forall q | q in seen :: Elements(DepNames(depends(q))) <= seen)
    requires Reachable(depends, roots, p)
    ensures p in seen
  {
    var path :| IsPath(depends, path) && path[0] in roots && path[|path| - 1] == p;
    forall q, d | q in seen && DependsOn(depends, q, d)
      ensures d in seen
    {
      DepNamesAre(depends, q, d);
      assert d in Elements(DepNames(depends(q)));
    }
    ClosedHoldsPath(depends, seen, path);
  }

  /** An edge of the closure. */
  ghost predicate Related(depends: Depends, roots: set<Name>, e: Pair)
  {
    Reachable(depends, roots, e.0) && DependsOn(depends, e.0, e.1)
  }

  /** The keys tell the edges of the closure apart. */
  ghost predicate RelationTellsApart(depends: Depends, roots: set<Name>)
  {
    forall e, f | Related(depends, roots, e) && Related(depends, roots, f) && Key(e.0, e.1) == Key(f.0, f.1) :: e == f
  }

  /**
    * The edges recorded are edges of the closure, each once, and there are some if the closure has any; all of them
    * are recorded if and only if their keys tell them apart.
    */
  lemma EdgesExact(depends: Depends, roots: set<Name>, names: seq<Name>, edges: seq<Pair>)
    requires forall p :: p in names <==> Reachable(depends, roots, p)
    requires edges == FirstOfKeys(AllPairs(depends, names))
    ensures NoRepeats(edges) && forall e | e in edges :: Related(depends, roots, e)
    ensures edges == [] <==> forall e :: !Related(depends, roots, e)
    ensures (forall e :: e in edges <==> Related(depends, roots, e)) <==> RelationTellsApart(depends, roots)
  {
    hide Reachable, DependsOn, Key;
    var all := AllPairs(depends, names);
    forall e: Pair
      ensures e in Elements(all) <==> Related(depends, roots, e)
    {
      AllPairsMembers(depends, names, e.0, e.1);
      DepNamesAre(depends, e.0, e.1);
      assert e == (e.0, e.1);
    }
    FirstOfKeysIs(all);
    NothingLostExactly(all);
    assert forall e :: e in edges <==> e in Elements(edges);
    if e :| Related(depends, roots, e) {
      assert HasKey(edges, Key(e.0, e.1));
    }
    if edges != [] {
      assert Related(depends, roots, edges[0]);
    }
  }

  /** With a bar in a name an edge can be lost: the roots `a|b` and `a`, which depend on `c` and on `b|c`. */
  lemma BarCanHideEdge()
    ensures var depends: Depends := p => if p == "a|b" then ["c"] else if p == "a" then ["b|c"] else [];
            !RelationTellsApart(depends, {"a|b", "a"})
  {
    var depends: Depends := p => if p == "a|b" then ["c"] else if p == "a" then ["b|c"] else [];
    var e: Pair, f: Pair := ("a|b", "c"), ("a", "b|c");
    RootReachable(depends, {"a|b", "a"}, e.0);
    RootReachable(depends, {"a|b", "a"}, f.0);
    assert "c" in depends("a|b") && NormalizePkg("c") == "c";
    assert "b|c" in depends("a") && NormalizePkg("b|c") == "b|c";
    assert Related(depends, {"a|b", "a"}, e) && Related(depends, {"a|b", "a"}, f);
    assert Key(e.0, e.1) == "a|b|c" == Key(f.0, f.1);
    assert |e.0| != |f.0|;
  }

  // ----- Roots

  /** `PACKAGE:ROLE`, split at the first colon; neither part may be empty. */
  function ParseSpec(spec: string): Option<Pair>
  {
    if ':' !in spec then None
    else
      var n := FirstColon(spec);
      var pkg, role := NormalizePkg(spec[..n]), spec[n + 1..];
      if pkg == "" || role == "" then None else Some((pkg, role))
  }

  /** A specification is accepted, as a package and a role, exactly if it is written that way. */
  lemma SpecExact(spec: string, pkg: Name, role: string)
    ensures ParseSpec(spec) == Some((pkg, role)) <==> ':' !in pkg && pkg != "" && role != "" && spec == pkg + ":" + role
  {
    if ':' in spec {
      var n := FirstColon(spec);
      assert spec == spec[..n] + ":" + spec[n + 1..];
    }
    if ':' !in pkg && spec == pkg + ":" + role {
      ItemSplits(pkg, role);
    }
  }

  /** So it is refused exactly if it has no colon, nothing before the first one, or nothing after it. */
  lemma SpecRefused(spec: string)
    ensures ParseSpec(spec) == None <==>
              forall pkg, role :: ':' !in pkg && spec == pkg + ":" + role ==> pkg == "" || role == ""
  {
    forall pkg, role | ':' !in pkg && spec == pkg + ":" + role && pkg != "" && role != ""
      ensures ParseSpec(spec).Some?
    {
      SpecExact(spec, pkg, role);
    }
    if ParseSpec(spec).Some? {
      var (pkg, role) := ParseSpec(spec).value;
      SpecExact(spec, pkg, role);
    }
  }

  function WriteSpecs(roots: seq<Pair>): seq<string>
  {
    seq(|roots|, k requires 0 <= k < |roots| => roots[k].0 + ":" + roots[k].1)
  }

  /** Roots written as specifications are read as what they are. */
  lemma SpecsWritten(roots: seq<Pair>)
    requires forall r | r in roots :: ':' !in r.0 && r.0 != "" && r.1 != ""
    ensures SpecsOk(WriteSpecs(roots)) && ParseSpecs(WriteSpecs(roots)) == roots
  {
    hide ParseSpec;
    var specs := WriteSpecs(roots);
    forall k | 0 <= k < |roots|
      ensures ParseSpec(specs[k]) == Some(roots[k])
    {
      assert roots[k] in roots;
      SpecExact(specs[k], roots[k].0, roots[k].1);
    }
  }

  predicate SpecsOk(specs: seq<string>)
  {
    forall k | 0 <= k < |specs| :: ParseSpec(specs[k]).Some?
  }

  /** The roots with their roles, in the order given. */
  function ParseSpecs(specs: seq<string>): (r: seq<Pair>)
    requires SpecsOk(specs)
    ensures |r| == |specs| && forall k | 0 <= k < |specs| :: r[k] == ParseSpec(specs[k]).value
  {
    seq(|specs|, k requires 0 <= k < |specs| => ParseSpec(specs[k]).value)
  }

  /** An item of the roots list: split at its first colon it gives the package and the role again. */
  lemma ItemSplits(pkg: Name, role: string)
    requires ':' !in pkg
    ensures var item := pkg + ":" + role;
            ':' in item && FirstColon(item) == |pkg| && item[..|pkg|] == pkg && item[|pkg| + 1..] == role
  {
    var item := pkg + ":" + role;
    assert item[|pkg|] == ':';
    var n := FirstColon(item);
    assert forall i | 0 <= i < |pkg| :: item[i] in pkg;
    assert forall i | 0 <= i < n :: item[i] in item[..n];
  }

  /** Reads the root specifications, or stops at the first bad one. */
  method ReadRoots(specs: seq<string>)
    returns (ok: bool, items: seq<string>, roles: seq<Pair>, queue: seq<Name>)
    ensures ok <==> SpecsOk(specs)
    ensures ok ==> |items| == |specs| && forall k | 0 <= k < |specs| ::
                     items[k] == ParseSpec(specs[k]).value.0 + ":" + ParseSpec(specs[k]).value.1
    ensures ok ==> roles == FirstOfKeys(ParseSpecs(specs))
    ensures ok ==> queue == Dedup(Names(ParseSpecs(specs)))
  {
    hide ParseSpec, ParseSpecs, Names, Dedup, FirstOfKeys, KeysOf, Elements, Key;
    ok, items, roles, queue := true, [], [], [];
    var roleSeen, queueSeen := {}, {};
    NothingRead(specs);
    var i := 0;
    while i < |specs|
      invariant 0 <= i <= |specs| && SpecsOk(specs[..i])
      invariant |items| == i && forall k | 0 <= k < i ::
                  items[k] == ParseSpec(specs[k]).value.0 + ":" + ParseSpec(specs[k]).value.1
      invariant roles == FirstOfKeys(ParseSpecs(specs[..i])) && roleSeen == KeysOf(ParseSpecs(specs[..i]))
      invariant queue == Dedup(Names(ParseSpecs(specs[..i]))) && queueSeen == Elements(Names(ParseSpecs(specs[..i])))
    {
      if ParseSpec(specs[i]) == None {
        return false, [], [], [];
      }
      var (pkg, role) := ParseSpec(specs[i]).value;
      OneMoreSpec(specs, i);
      ghost var read := ParseSpecs(specs[..i]);
      OneMorePair(read, (pkg, role));
      NamesSnoc(read, (pkg, role));
      OneMoreMet(Names(read), pkg);
      items := items + [pkg + ":" + role];
      if Key(pkg, role) !in roleSeen {
        roleSeen := roleSeen + {Key(pkg, role)};
        roles := roles + [(pkg, role)];
      }
      if pkg !in queueSeen {
        queueSeen := queueSeen + {pkg};
        queue := queue + [pkg];
      }
      i := i + 1;
    }
    assert specs[..i] == specs;
  }

  lemma NothingRead(specs: seq<string>)
    ensures SpecsOk(specs[..0]) && ParseSpecs(specs[..0]) == []
    ensures FirstOfKeys([]) == [] && KeysOf([]) == {} && Dedup(Names([])) == [] && Elements(Names([])) == {}
  {
  }

  lemma OneMoreSpec(specs: seq<string>, i: nat)
    requires i < |specs| && SpecsOk(specs[..i]) && ParseSpec(specs[i]).Some?
    ensures SpecsOk(specs[..i + 1])
            && ParseSpecs(specs[..i + 1]) == ParseSpecs(specs[..i]) + [ParseSpec(specs[i]).value]
  {
    assert specs[..i + 1] == specs[..i] + [specs[i]];
  }

  /** The roots when none are given. */
  const DEFAULT_SPECS: seq<string> :=
    ["libsodium23:libsodium-runtime", "libsodium-dev:libsodium-build",
     "gcc:salt-build-tool", "make:salt-build-tool", "libc6-dev:salt-build-tool"]

  lemma LibraryRootsAre()
    ensures ParseSpec(DEFAULT_SPECS[0]) == Some(("libsodium23", "libsodium-runtime"))
    ensures ParseSpec(DEFAULT_SPECS[1]) == Some(("libsodium-dev", "libsodium-build"))
  {
    hide ParseSpec;
    assert DEFAULT_SPECS[0] == "libsodium23" + ":" + "libsodium-runtime";
    assert DEFAULT_SPECS[1] == "libsodium-dev" + ":" + "libsodium-build";
    SpecExact(DEFAULT_SPECS[0], "libsodium23", "libsodium-runtime");
    SpecExact(DEFAULT_SPECS[1], "libsodium-dev", "libsodium-build");
  }

  lemma ToolRootsAre()
    ensures ParseSpec(DEFAULT_SPECS[2]) == Some(("gcc", "salt-build-tool"))
    ensures ParseSpec(DEFAULT_SPECS[3]) == Some(("make", "salt-build-tool"))
    ensures ParseSpec(DEFAULT_SPECS[4]) == Some(("libc6-dev", "salt-build-tool"))
  {
    hide ParseSpec;
    assert DEFAULT_SPECS[2] == "gcc" + ":" + "salt-build-tool";
    assert DEFAULT_SPECS[3] == "make" + ":" + "salt-build-tool";
    assert DEFAULT_SPECS[4] == "libc6-dev" + ":" + "salt-build-tool";
    SpecExact(DEFAULT_SPECS[2], "gcc", "salt-build-tool");
    SpecExact(DEFAULT_SPECS[3], "make", "salt-build-tool");
    SpecExact(DEFAULT_SPECS[4], "libc6-dev", "salt-build-tool");
  }

  lemma DefaultRootsAre()
    ensures SpecsOk(DEFAULT_SPECS)
    ensures ParseSpecs(DEFAULT_SPECS)
         == [("libsodium23", "libsodium-runtime"), ("libsodium-dev", "libsodium-build"), ("gcc", "salt-build-tool"),
             ("make", "salt-build-tool"), ("libc6-dev", "salt-build-tool")]
  {
    hide ParseSpec;
    LibraryRootsAre();
    ToolRootsAre();
  }

  function EffectiveSpecs(given: seq<string>): seq<string>
  {
    if given == [] then DEFAULT_SPECS else given
  }

  // ----- The document

  datatype Package = Package(name: Name, version: string, roles: seq<string>)

  /** Package, edge and root lists, sorted for output. */
  datatype DepsDoc = DepsDoc(packages: seq<Package>, dependencies: seq<Pair>, roots: seq<Pair>)

  function RoleList(roles: seq<Pair>, name: Name): seq<string>
  {
    if roles == [] then [] else (if roles[0].0 == name then [roles[0].1] else []) + RoleList(roles[1..], name)
  }

  lemma {:induction false} RoleListIs(roles: seq<Pair>, name: Name, role: string)
    ensures role in RoleList(roles, name) <==> (name, role) in roles
  {
    if roles != [] {
      RoleListIs(roles[1..], name, role);
      assert roles == [roles[0]] + roles[1..];
      assert (name, role) == roles[0] <==> roles[0].0 == name && roles[0].1 == role;
    }
  }

  function SplitItems(items: seq<string>): seq<Pair>
    requires forall k | 0 <= k < |items| :: ':' in items[k]
  {
    seq(|items|, k requires 0 <= k < |items| => (items[k][..FirstColon(items[k])],
                                                 items[k][FirstColon(items[k]) + 1..]))
  }

  /** Names differ among packages, so sorting them by name is sorting the pairs of name and version. */
  function Assemble(packages: seq<Pair>, edges: seq<Pair>, roles: seq<Pair>, roots: seq<Pair>): DepsDoc
  {
    var sorted := SortPairs(packages);
    DepsDoc(seq(|sorted|, k requires 0 <= k < |sorted| =>
                Package(sorted[k].0, sorted[k].1, UniqueSort(RoleList(roles, sorted[k].0)))),
            SortPairs(edges), SortPairs(roots))
  }

  ghost predicate HasPackage(doc: DepsDoc, name: Name)
  {
    exists k :: 0 <= k < |doc.packages| && doc.packages[k].name == name
  }

  ghost function RootNames(specs: seq<string>): set<Name>
    requires SpecsOk(specs)
  {
    Elements(Names(ParseSpecs(specs)))
  }

  /** The packages are those reachable from the roots, sorted by name, each with its version. */
  ghost predicate PackagesAre(doc: DepsDoc, depends: Depends, version: Name -> string, specs: seq<string>)
    requires SpecsOk(specs)
  {
    && (forall i, j | 0 <= i < j < |doc.packages| :: Before(doc.packages[i].name, doc.packages[j].name))
    && (forall p :: HasPackage(doc, p) <==> Reachable(depends, RootNames(specs), p))
    && (forall k | 0 <= k < |doc.packages| :: doc.packages[k].version == version(doc.packages[k].name))
  }

  /** What the collector promises about its document, whatever the names are. */
  ghost predicate Describes(doc: DepsDoc, depends: Depends, version: Name -> string, specs: seq<string>)
    requires SpecsOk(specs)
  {
    && PackagesAre(doc, depends, version, specs)
    && (forall k | 0 <= k < |doc.packages| ::
          && Canonical(doc.packages[k].roles)
          && forall r | r in doc.packages[k].roles :: (doc.packages[k].name, r) in ParseSpecs(specs))
    && Increasing(doc.dependencies) && (forall e | e in doc.dependencies :: Related(depends, RootNames(specs), e))
    && Ordered(doc.roots) && multiset(doc.roots) == multiset(ParseSpecs(specs))
  }

  ghost predicate HasAllEdges(doc: DepsDoc, depends: Depends, specs: seq<string>)
    requires SpecsOk(specs)
  {
    forall e :: e in doc.dependencies <==> Related(depends, RootNames(specs), e)
  }

  /** Every package has exactly the roles given for it. */
  ghost predicate HasAllRoles(doc: DepsDoc, specs: seq<string>)
    requires SpecsOk(specs)
  {
    forall p, r | p in doc.packages :: r in p.roles <==> (p.name, r) in ParseSpecs(specs)
  }

  /**
    * The whole collector. It fails exactly on a bad root, or when the closure has no edge at all (the edge file is
    * then never created); otherwise its document describes the closure of the roots, and has every edge and every
    * role if and only if the keys tell them apart.
    */
  method Collect(given: seq<string>, depends: Depends, version: Name -> string, ghost universe: set<Name>)
    returns (doc: Option<DepsDoc>)
    requires ClosedUniverse(depends, universe)
    requires forall spec | spec in EffectiveSpecs(given) && ParseSpec(spec).Some? :: ParseSpec(spec).value.0 in universe
    ensures var specs := EffectiveSpecs(given);
            && (doc.Some? <==> SpecsOk(specs) && exists e :: Related(depends, RootNames(specs), e))
            && (doc.Some? ==>
                  && Describes(doc.value, depends, version, specs)
                  && (HasAllEdges(doc.value, depends, specs) <==> RelationTellsApart(depends, RootNames(specs)))
                  && (HasAllRoles(doc.value, specs) <==> TellApart(Elements(ParseSpecs(specs)))))
  {
    hide ParseSpec, Reachable, Related, RelationTellsApart, TellApart, Dedup, FirstOfKeys, Describes,
         PackagesAre, HasAllEdges, HasAllRoles;
    var specs := EffectiveSpecs(given);
    var ok, items, roles, queue := ReadRoots(specs);
    if !ok {
      return None;
    }
    RootsInUniverse(specs, queue, universe);
    var packages, edges := Worklist(depends, version, queue, universe);
    EdgesExact(depends, RootNames(specs), Names(packages), edges);
    if edges == [] {
      return None;
    }
    ItemsSplit(specs, items);
    doc := Some(Assemble(packages, edges, roles, SplitItems(items)));
    AssembledDescribes(specs, depends, version, packages, edges, roles);
    AssembledRoles(specs, packages, edges, roles, depends);
    AssembledEdges(specs, depends, packages, edges, roles);
  }

  lemma RootsInUniverse(specs: seq<string>, queue: seq<Name>, universe: set<Name>)
    requires SpecsOk(specs) && queue == Dedup(Names(ParseSpecs(specs)))
    requires forall spec | spec in specs && ParseSpec(spec).Some? :: ParseSpec(spec).value.0 in universe
    ensures Dedup(queue) == queue && Elements(queue) == RootNames(specs) <= universe
  {
    var names := Names(ParseSpecs(specs));
    DedupIs(names);
    DedupTwice(names);
    forall x | x in names
      ensures x in universe
    {
      var k :| 0 <= k < |names| && names[k] == x;
      assert specs[k] in specs;
    }
  }

  lemma {:induction false} DedupTwice(s: seq<Name>)
    ensures Dedup(Dedup(s)) == Dedup(s)
  {
    DedupIs(s);
    DedupOfDistinct(Dedup(s));
  }

  lemma {:induction false} DedupOfDistinct(s: seq<Name>)
    requires NoRepeats(s)
    ensures Dedup(s) == s
  {
    if s != [] {
      var front, last := s[..|s| - 1], s[|s| - 1];
      FrontNoRepeats(s);
      DedupOfDistinct(front);
      assert s == front + [last];
    }
  }

  lemma FrontNoRepeats(s: seq<Name>)
    requires NoRepeats(s) && s != []
    ensures NoRepeats(s[..|s| - 1]) && s[|s| - 1] !in s[..|s| - 1]
  {
    assert forall i | 0 <= i < |s| - 1 :: s[..|s| - 1][i] == s[i];
  }

  /** The roots list, split again, is what the specifications say. */
  lemma ItemsSplit(specs: seq<string>, items: seq<string>)
    requires SpecsOk(specs) && |items| == |specs|
    requires forall k | 0 <= k < |specs| :: items[k] == ParseSpec(specs[k]).value.0 + ":" + ParseSpec(specs[k]).value.1
    ensures (forall k | 0 <= k < |items| :: ':' in items[k]) && SplitItems(items) == ParseSpecs(specs)
  {
    forall k | 0 <= k < |items|
      ensures ':' in items[k]
      ensures (items[k][..FirstColon(items[k])], items[k][FirstColon(items[k]) + 1..]) == ParseSpec(specs[k]).value
    {
      SpecNormal(specs[k]);
      ItemSplits(ParseSpec(specs[k]).value.0, ParseSpec(specs[k]).value.1);
    }
  }

  lemma SpecNormal(spec: string)
    ensures ParseSpec(spec).Some? ==> ':' !in ParseSpec(spec).value.0
  {
  }

  lemma AssembledPackages(packages: seq<Pair>, edges: seq<Pair>, roles: seq<Pair>, roots: seq<Pair>,
                          version: Name -> string)
    requires NoRepeats(Names(packages)) && forall k | 0 <= k < |packages| :: packages[k].1 == version(packages[k].0)
    ensures var doc := Assemble(packages, edges, roles, roots);
            && (forall i, j | 0 <= i < j < |doc.packages| :: Before(doc.packages[i].name, doc.packages[j].name))
            && (forall p :: HasPackage(doc, p) <==> p in Names(packages))
            && (forall k | 0 <= k < |doc.packages| :: doc.packages[k].version == version(doc.packages[k].name))
  {
    hide SortPairs, UniqueSort, RoleList, Before;
    var doc, sorted, names := Assemble(packages, edges, roles, roots), SortPairs(packages), Names(packages);
    SortPairsIs(packages);
    assert NoRepeats(packages) by {
      assert forall i, j | 0 <= i < j < |packages| :: names[i] != names[j];
    }
    SortPairsIncreasing(packages);
    forall k | 0 <= k < |sorted|
      ensures sorted[k].1 == version(sorted[k].0) && sorted[k].0 in names
    {
      assert sorted[k] in packages;
      var j :| 0 <= j < |packages| && packages[j] == sorted[k];
      assert names[j] == sorted[k].0;
    }
    forall i, j | 0 <= i < j < |doc.packages|
      ensures Before(doc.packages[i].name, doc.packages[j].name)
    {
      assert PairBefore(sorted[i], sorted[j]);
    }
    forall p | p in names
      ensures HasPackage(doc, p)
    {
      var j :| 0 <= j < |packages| && names[j] == p;
      assert packages[j] in sorted;
      var k :| 0 <= k < |sorted| && sorted[k] == packages[j];
      assert doc.packages[k].name == p;
    }
  }

  lemma AssembledDescribes(specs: seq<string>, depends: Depends, version: Name -> string,
                           packages: seq<Pair>, edges: seq<Pair>, roles: seq<Pair>)
    requires SpecsOk(specs) && roles == FirstOfKeys(ParseSpecs(specs))
    requires NoRepeats(Names(packages)) && forall k | 0 <= k < |packages| :: packages[k].1 == version(packages[k].0)
    requires forall p :: p in Names(packages) <==> Reachable(depends, RootNames(specs), p)
    requires NoRepeats(edges) && forall e | e in edges :: Related(depends, RootNames(specs), e)
    ensures Describes(Assemble(packages, edges, roles, ParseSpecs(specs)), depends, version, specs)
  {
    hide SortPairs, UniqueSort, RoleList, Reachable, Related, FirstOfKeys, ParseSpec, HasPackage, Canonical;
    var roots := ParseSpecs(specs);
    var doc := Assemble(packages, edges, roles, roots);
    AssembledPackages(packages, edges, roles, roots, version);
    SortPairsIs(edges);
    SortPairsIncreasing(edges);
    SortPairsIs(roots);
    FirstOfKeysIs(roots);
    forall k | 0 <= k < |doc.packages|
      ensures Canonical(doc.packages[k].roles)
      ensures forall r | r in doc.packages[k].roles :: (doc.packages[k].name, r) in roots
    {
      var name := doc.packages[k].name;
      UniqueSortIs(RoleList(roles, name));
      forall r | r in doc.packages[k].roles
        ensures (name, r) in roots
      {
        RoleListIs(roles, name, r);
        assert (name, r) in Elements(roles);
      }
    }
  }

  lemma AssembledRoles(specs: seq<string>, packages: seq<Pair>, edges: seq<Pair>, roles: seq<Pair>, depends: Depends)
    requires SpecsOk(specs) && roles == FirstOfKeys(ParseSpecs(specs))
    requires forall p :: p in Names(packages) <==> Reachable(depends, RootNames(specs), p)
    ensures HasAllRoles(Assemble(packages, edges, roles, ParseSpecs(specs)), specs) <==>
            TellApart(Elements(ParseSpecs(specs)))
  {
    hide SortPairs, UniqueSort, RoleList, Reachable, FirstOfKeys, ParseSpec, TellApart, Before;
    var roots := ParseSpecs(specs);
    var doc, sorted := Assemble(packages, edges, roles, roots), SortPairs(packages);
    NothingLostExactly(roots);
    FirstOfKeysIs(roots);
    SortPairsIs(packages);
    forall p, r | p in doc.packages
      ensures r in p.roles <==> (p.name, r) in roles
    {
      UniqueSortIs(RoleList(roles, p.name));
      RoleListIs(roles, p.name, r);
    }
    assert forall e :: e in roles <==> e in Elements(roles);
    assert forall e :: e in roots <==> e in Elements(roots);
    if HasAllRoles(doc, specs) {
      forall e | e in roots
        ensures e in roles
      {
        var k := PackageOfRoot(specs, packages, e, depends);
        assert doc.packages[k] in doc.packages && doc.packages[k].name == e.0;
        assert (e.0, e.1) == e;
      }
    }
  }

  /** Every root is among the packages. */
  lemma PackageOfRoot(specs: seq<string>, packages: seq<Pair>, e: Pair, depends: Depends) returns (k: nat)
    requires SpecsOk(specs) && e in ParseSpecs(specs)
    requires forall p :: p in Names(packages) <==> Reachable(depends, RootNames(specs), p)
    ensures k < |SortPairs(packages)| && SortPairs(packages)[k].0 == e.0
  {
    hide Reachable, SortPairs, ParseSpec;
    var roots := ParseSpecs(specs);
    var i :| 0 <= i < |roots| && roots[i] == e;
    assert Names(roots)[i] == e.0;
    RootReachable(depends, RootNames(specs), e.0);
    var j :| 0 <= j < |packages| && Names(packages)[j] == e.0;
    SortPairsIs(packages);
    assert packages[j] in SortPairs(packages);
    k :| 0 <= k < |SortPairs(packages)| && SortPairs(packages)[k] == packages[j];
  }

  lemma AssembledEdges(specs: seq<string>, depends: Depends, packages: seq<Pair>, edges: seq<Pair>, roles: seq<Pair>)
    requires SpecsOk(specs)
    requires (forall e :: e in edges <==> Related(depends, RootNames(specs), e)) <==>
             RelationTellsApart(depends, RootNames(specs))
    ensures HasAllEdges(Assemble(packages, edges, roles, ParseSpecs(specs)), depends, specs) <==>
            RelationTellsApart(depends, RootNames(specs))
  {
    hide SortPairs, Related, RelationTellsApart, ParseSpec, RootNames;
    SortPairsIs(edges);
  }

  /** The roots and roles of the document, for roots written as specifications. */
  lemma DescribedRoots(doc: DepsDoc, depends: Depends, version: Name -> string, roots: seq<Pair>)
    requires forall r | r in roots :: ':' !in r.0 && r.0 != "" && r.1 != ""
    ensures SpecsOk(WriteSpecs(roots))
    ensures Describes(doc, depends, version, WriteSpecs(roots)) ==> multiset(doc.roots) == multiset(roots)
    ensures HasAllRoles(doc, WriteSpecs(roots)) ==>
              forall p, r | p in doc.packages :: r in p.roles <==> (p.name, r) in roots
  {
    SpecsWritten(roots);
  }

  /** With no bar in a package name nothing is ever lost. */
  lemma NoBarsNothingLost(depends: Depends, specs: seq<string>)
    requires SpecsOk(specs) && forall p | Reachable(depends, RootNames(specs), p) :: '|' !in p
    ensures RelationTellsApart(depends, RootNames(specs)) && TellApart(Elements(ParseSpecs(specs)))
  {
    hide Reachable, DependsOn, ParseSpec;
    var roots := RootNames(specs);
    forall e, f | Related(depends, roots, e) && Related(depends, roots, f) && Key(e.0, e.1) == Key(f.0, f.1)
      ensures e == f
    {
      KeyInjective(e.0, e.1, f.0, f.1);
    }
    forall e | e in Elements(ParseSpecs(specs))
      ensures '|' !in e.0
    {
      var specList := ParseSpecs(specs);
      var i :| 0 <= i < |specList| && specList[i] == e;
      assert Names(specList)[i] == e.0;
      RootReachable(depends, roots, e.0);
    }
    NoBarsTellApart(Elements(ParseSpecs(specs)));
  }

  // ----- The document is determined

  /** Two reports tell of the same dependencies, in whatever order and form. */
  ghost predicate SameRelation(depends: Depends, other: Depends)
  {
    forall p, d :: DependsOn(depends, p, d) <==> DependsOn(other, p, d)
  }

  lemma SameReachable(depends: Depends, other: Depends, roots: set<Name>, p: Name)
    requires SameRelation(depends, other)
    ensures Reachable(depends, roots, p) <==> Reachable(other, roots, p)
  {
    hide DependsOn;
    if Reachable(depends, roots, p) {
      var path :| IsPath(depends, path) && path[0] in roots && path[|path| - 1] == p;
      assert IsPath(other, path);
    }
    if Reachable(other, roots, p) {
      var path :| IsPath(other, path) && path[0] in roots && path[|path| - 1] == p;
      assert IsPath(depends, path);
    }
  }

  /** The names of the roots do not depend on the order in which they are given. */
  lemma SameRootNames(specs: seq<string>, others: seq<string>)
    requires SpecsOk(specs) && SpecsOk(others) && multiset(ParseSpecs(specs)) == multiset(ParseSpecs(others))
    ensures RootNames(specs) <= RootNames(others)
  {
    hide ParseSpec;
    var s, t := ParseSpecs(specs), ParseSpecs(others);
    forall p | p in RootNames(specs)
      ensures p in RootNames(others)
    {
      var i :| 0 <= i < |s| && Names(s)[i] == p;
      assert s[i] in multiset(t);
      var j :| 0 <= j < |t| && t[j] == s[i];
      assert Names(t)[j] == p;
    }
  }

  function PackageNames(doc: DepsDoc): (ns: seq<Name>)
    ensures |ns| == |doc.packages| && forall k | 0 <= k < |ns| :: ns[k] == doc.packages[k].name
  {
    seq(|doc.packages|, k requires 0 <= k < |doc.packages| => doc.packages[k].name)
  }

  lemma SamePackageNames(doc: DepsDoc, other: DepsDoc, depends: Depends, depends': Depends, version: Name -> string,
                         specs: seq<string>, specs': seq<string>)
    requires SpecsOk(specs) && SpecsOk(specs') && RootNames(specs) == RootNames(specs')
             && SameRelation(depends, depends')
    requires PackagesAre(doc, depends, version, specs) && PackagesAre(other, depends', version, specs')
    ensures PackageNames(doc) == PackageNames(other)
  {
    hide Reachable, SameRelation, RootNames, Before;
    var s, t := PackageNames(doc), PackageNames(other);
    forall p
      ensures p in s <==> HasPackage(doc, p)
      ensures p in t <==> HasPackage(other, p)
      ensures p in s <==> p in t
    {
      SameReachable(depends, depends', RootNames(specs), p);
    }
    CanonicalIsUnique(s, t);
  }

  /**
    * The collector is deterministic in what it describes: the order of the roots and of the dependencies reported makes
    * no difference to the document, as long as no edge and no role is lost.
    */
  lemma SameDocument(doc: DepsDoc, other: DepsDoc, depends: Depends, depends': Depends, version: Name -> string,
                     specs: seq<string>, specs': seq<string>)
    requires SpecsOk(specs) && SpecsOk(specs') && multiset(ParseSpecs(specs)) == multiset(ParseSpecs(specs'))
    requires SameRelation(depends, depends')
    requires Describes(doc, depends, version, specs) && HasAllEdges(doc, depends, specs) && HasAllRoles(doc, specs)
    requires Describes(other, depends', version, specs') && HasAllEdges(other, depends', specs')
             && HasAllRoles(other, specs')
    ensures doc == other
  {
    hide Reachable, RootNames, ParseSpec, Ordered, Increasing, Before, DependsOn, Canonical, PackagesAre;
    SameRootNames(specs, specs');
    SameRootNames(specs', specs);
    SamePackageNames(doc, other, depends, depends', version, specs, specs');
    OrderedIsUnique(doc.roots, other.roots);
    forall e
      ensures e in doc.dependencies <==> e in other.dependencies
    {
      SameReachable(depends, depends', RootNames(specs), e.0);
    }
    IncreasingIsUnique(doc.dependencies, other.dependencies);
    assert |doc.packages| == |PackageNames(doc)| == |PackageNames(other)| == |other.packages|;
    forall k | 0 <= k < |doc.packages|
      ensures doc.packages[k] == other.packages[k]
    {
      SamePackage(doc, other, depends, depends', version, specs, specs', k);
    }
  }

  lemma SamePackage(doc: DepsDoc, other: DepsDoc, depends: Depends, depends': Depends, version: Name -> string,
                    specs: seq<string>, specs': seq<string>, k: nat)
    requires SpecsOk(specs) && SpecsOk(specs') && multiset(ParseSpecs(specs)) == multiset(ParseSpecs(specs'))
    requires k < |doc.packages| && PackageNames(doc) == PackageNames(other)
    requires Describes(doc, depends, version, specs) && HasAllRoles(doc, specs)
    requires Describes(other, depends', version, specs') && HasAllRoles(other, specs')
    ensures k < |other.packages| && doc.packages[k] == other.packages[k]
  {
    hide Reachable, RootNames, ParseSpec, Ordered, Increasing, Before, Related, Canonical;
    assert |doc.packages| == |PackageNames(doc)| == |PackageNames(other)| == |other.packages|;
    var p, q := doc.packages[k], other.packages[k];
    assert p in doc.packages && q in other.packages;
    assert p.name == PackageNames(doc)[k] == q.name;
    forall r
      ensures r in p.roles <==> r in q.roles
    {
      assert (p.name, r) in ParseSpecs(specs) <==> (p.name, r) in multiset(ParseSpecs(specs));
      assert (p.name, r) in ParseSpecs(specs') <==> (p.name, r) in multiset(ParseSpecs(specs'));
    }
    CanonicalIsUnique(p.roles, q.roles);
  }
}
