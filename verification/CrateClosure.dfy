// The crate graphs behind the two input hashes: scripts/ci-input-hash.py walks
// `path` dependencies across workspaces, loading each workspace's metadata on
// demand; scripts/sim-inputs-hash.py walks the manifests themselves.
module CrateGraph {

  type Dir = string

  /** `edges[d]` lists the crates `d` depends on. */
  type Graph = map<Dir, seq<Dir>>

  ghost predicate Edge(g: Graph, d: Dir, e: Dir)
  {
    d in g && e in g[d]
  }

  ghost predicate EdgeAt(g: Graph, p: seq<Dir>, i: int)
    requires 0 <= i < |p| - 1
  {
    Edge(g, p[i], p[i + 1])
  }

  ghost predicate Chain(g: Graph, p: seq<Dir>, from: Dir, to: Dir)
  {
    |p| > 0 && p[0] == from && p[|p| - 1] == to && forall i :: 0 <= i < |p| - 1 ==> EdgeAt(g, p, i)
  }

  /** `to` is `from` or a dependency of it, however indirect. */
  ghost predicate Reachable(g: Graph, from: Dir, to: Dir)
  {
    exists p :: Chain(g, p, from, to)
  }

  lemma ReachableSelf(g: Graph, d: Dir)
    ensures Reachable(g, d, d)
  {
    assert Chain(g, [d], d, d);
  }

  lemma ReachableStep(g: Graph, from: Dir, d: Dir, e: Dir)
    requires Reachable(g, from, d) && Edge(g, d, e)
    ensures Reachable(g, from, e)
  {
    var p :| Chain(g, p, from, d);
    var q := p + [e];
    forall i | 0 <= i < |q| - 1 ensures EdgeAt(g, q, i) {
      if i < |p| - 1 {
        assert EdgeAt(g, p, i);
      }
    }
    assert Chain(g, q, from, e);
  }

  /** A set with the start in it and closed under dependencies holds every
      reachable crate. */
  lemma {:induction false} ClosedHoldsChain(g: Graph, seen: set<Dir>, p: seq<Dir>, from: Dir, to: Dir)
    requires Chain(g, p, from, to) && from in seen
    requires forall d, e :: d in seen && Edge(g, d, e) ==> e in seen
    ensures to in seen
    decreases |p|
  {
    if |p| > 1 {
      var q := p[..|p| - 1];
      forall i | 0 <= i < |q| - 1 ensures EdgeAt(g, q, i) {
        assert EdgeAt(g, p, i);
      }
      ClosedHoldsChain(g, seen, q, from, q[|q| - 1]);
      assert EdgeAt(g, p, |p| - 2);
    }
  }

  lemma ClosedHoldsReachable(g: Graph, seen: set<Dir>, from: Dir)
    requires from in seen
    requires forall d, e :: d in seen && Edge(g, d, e) ==> e in seen
    ensures forall to :: Reachable(g, from, to) ==> to in seen
  {
    forall to | Reachable(g, from, to) ensures to in seen {
      var p :| Chain(g, p, from, to);
      ClosedHoldsChain(g, seen, p, from, to);
    }
  }

  /** What every turn of either worklist keeps: everything seen or waiting is
      reachable, and a seen crate's dependencies are seen or waiting. */
  ghost predicate Searching(g: Graph, start: Dir, seen: set<Dir>, todo: seq<Dir>)
  {
    && (start in seen || start in todo)
    && (forall d :: d in seen || d in todo ==> Reachable(g, start, d))
    && (forall d, e :: d in seen && Edge(g, d, e) ==> e in seen || e in todo)
  }

  lemma SearchStep(g: Graph, start: Dir, seen: set<Dir>, todo: seq<Dir>, d: Dir)
    requires d in g && Searching(g, start, seen, todo + [d])
    ensures Searching(g, start, seen + {d}, todo + g[d])
  {
    forall e | e in g[d] ensures Reachable(g, start, e) {
      assert d in todo + [d];
      ReachableStep(g, start, d, e);
    }
    forall x | x in seen + {d} || x in todo + g[d] ensures Reachable(g, start, x) {
      assert x in seen || x in todo + [d] || x in g[d];
    }
  }

  lemma SearchSkip(g: Graph, start: Dir, seen: set<Dir>, todo: seq<Dir>, d: Dir)
    requires d in seen && Searching(g, start, seen, todo + [d])
    ensures Searching(g, start, seen, todo)
  {
    assert forall x :: x in todo ==> x in todo + [d];
  }

  lemma SearchDone(g: Graph, start: Dir, seen: set<Dir>)
    requires Searching(g, start, seen, [])
    ensures forall d :: d in seen <==> Reachable(g, start, d)
  {
    ClosedHoldsReachable(g, seen, start);
  }
}

module CrateClosure {
  import opened CrateGraph
  import opened Wrappers

  /** A dependency either names a directory or comes from a registry. */
  datatype Dependency = Registry | Path(dir: Dir)

  datatype Package = Package(name: string, dependencies: seq<Dependency>)

  /** What `cargo metadata --no-deps` knows: each crate's entry, the workspace
      root a directory's manifest belongs to, and each workspace's crates. */
  datatype Cargo = Cargo(entry: map<Dir, Package>, root: map<Dir, Dir>, members: map<Dir, seq<Dir>>)
  {
    /** Every crate is a member of exactly the workspace its manifest names. */
    ghost predicate Consistent()
    {
      && (forall d :: d in root ==> root[d] in members)
      && (forall d :: d in entry ==> d in root && d in members[root[d]])
      && (forall r, i :: r in members && 0 <= i < |members[r]| ==>
                           members[r][i] in entry && root[members[r][i]] == r)
    }
  }

  function PathsOf(deps: seq<Dependency>): (dirs: seq<Dir>)
    ensures forall d :: d in dirs <==> Path(d) in deps
  {
    if deps == [] then []
    else
      var rest := PathsOf(deps[1..]);
      assert forall d :: Path(d) in deps <==> deps[0] == Path(d) || Path(d) in deps[1..];
      if deps[0].Path? then [deps[0].dir] + rest else rest
  }

  /** The `path` dependencies of every crate there is. */
  ghost function Dependencies(w: Cargo): Graph
  {
    map d | d in w.entry :: PathsOf(w.entry[d].dependencies)
  }

  datatype Outcome =
    | Closure(crates: set<Dir>, workspaces: set<Dir>)
    | NoMetadata(dir: Dir)   // cargo finds no manifest there
    | NoPackage              // no member of the workspace has the name asked for
    | NotAPackage(dir: Dir)  // a manifest without a package in it

  /** The first crate of workspace `r` called `name`. */
  ghost predicate FirstNamed(w: Cargo, r: Dir, name: string, start: Dir)
    requires w.Consistent() && r in w.members
  {
    exists i :: 0 <= i < |w.members[r]| && start == w.members[r][i] && w.entry[start].name == name
                && forall j :: 0 <= j < i ==> w.entry[w.members[r][j]].name != name
  }

  /** The workspaces of some directories. */
  ghost function Roots(w: Cargo, dirs: set<Dir>): set<Dir>
    requires dirs <= w.root.Keys
  {
    set d | d in dirs :: w.root[d]
  }

  /** The workspaces loaded are those of the crates found. */
  lemma WorkspacesMatch(w: Cargo, loaded: set<Dir>, seen: set<Dir>, manifest: Dir, start: Dir)
    requires loaded <= w.root.Keys && seen <= w.root.Keys && start in seen && manifest in loaded
    requires loaded <= seen + {manifest} && w.root[start] == w.root[manifest]
    requires forall d :: d in seen ==> w.root[d] in Roots(w, loaded)
    ensures Roots(w, loaded) == Roots(w, seen)
  {
    forall d | d in loaded ensures w.root[d] in Roots(w, seen) {
      assert d in seen || w.root[d] == w.root[start];
    }
  }

  class Walk {
    const w: Cargo
    var packages: map<Dir, Package>
    var workspaces: set<Dir>
    ghost var loaded: set<Dir>

    /** Only whole workspaces have been taken in. */
    ghost predicate Valid()
      reads this
    {
      && w.Consistent()
      && loaded <= w.root.Keys
      && workspaces == Roots(w, loaded)
      && (forall d :: d in packages <==> d in w.entry && w.root[d] in workspaces)
      && (forall d :: d in packages ==> packages[d] == w.entry[d])
    }

    constructor (w: Cargo)
      requires w.Consistent()
      ensures Valid() && this.w == w && packages == map[] && loaded == {}
    {
      this.w := w;
      packages, workspaces, loaded := map[], {}, {};
    }

    /** Take in the workspace of the manifest in `dir`, keeping entries already
        held. */
    method Load(dir: Dir) returns (ok: bool)
      requires Valid()
      modifies this
      ensures Valid() && ok == (dir in w.root)
      ensures loaded == if ok then old(loaded) + {dir} else old(loaded)
      ensures old(packages.Keys) <= packages.Keys
    {
      if dir !in w.root {
        return false;
      }
      var r := w.root[dir];
      workspaces := workspaces + {r};
      ghost var before := packages;
      for i := 0 to |w.members[r]|
        invariant w.Consistent() && before.Keys <= packages.Keys
        invariant workspaces == old(workspaces) + {r} && loaded == old(loaded)
        invariant forall d :: d in packages <==> d in before || d in w.members[r][..i]
        invariant forall d :: d in packages ==> d in w.entry && packages[d] == w.entry[d]
      {
        var d := w.members[r][i];
        if d !in packages {
          packages := packages[d := w.entry[d]];
        }
      }
      assert w.members[r][..|w.members[r]|] == w.members[r];
      loaded := loaded + {dir};
      return true;
    }

    /** The walk: `path` dependencies from the named package, loading a
        workspace the first time one of its crates is met. */
    method CrateClosure(manifest: Dir, package: string) returns (r: Outcome)
      requires Valid() && loaded == {}
      modifies this
      ensures r == NoMetadata(manifest) || manifest in w.root
      ensures r == NoPackage ==>
                forall d :: d in w.members[w.root[manifest]] ==> w.entry[d].name != package
      ensures r.Closure? ==>
                exists start :: FirstNamed(w, w.root[manifest], package, start)
                  && (forall d :: d in r.crates <==> Reachable(Dependencies(w), start, d))
                  && r.crates <= w.entry.Keys && r.crates <= w.root.Keys
                  && r.workspaces == Roots(w, r.crates)
      ensures (r.NoMetadata? && manifest in w.root) || r.NotAPackage? ==>
                exists start :: FirstNamed(w, w.root[manifest], package, start)
                  && Reachable(Dependencies(w), start, r.dir) && r.dir !in w.entry
    {
      var ok := Load(manifest);
      if !ok {
        return NoMetadata(manifest);
      }
      var members := w.members[w.root[manifest]];
      var start: Dir := "";
      var found := false;
      for i := 0 to |members|
        invariant Valid() && loaded == {manifest}
        invariant found ==> FirstNamed(w, w.root[manifest], package, start) && start in w.entry
        invariant !found ==> forall j :: 0 <= j < i ==> w.entry[members[j]].name != package
      {
        if !found && w.entry[members[i]].name == package {
          start, found := members[i], true;
        }
      }
      if !found {
        return NoPackage;
      }
      r := Visit(manifest, start);
    }

    /** Have `crate` among the packages, loading its workspace if it is not. */
    method Fetch(crate: Dir) returns (problem: Option<Outcome>)
      requires Valid()
      modifies this
      ensures Valid() && old(packages.Keys) <= packages.Keys
      ensures old(loaded) <= loaded <= old(loaded) + {crate}
      ensures problem.None? ==> crate in packages
      ensures problem.Some? ==>
                crate !in w.entry && (problem.value == NoMetadata(crate) || problem.value == NotAPackage(crate))
    {
      if crate in packages {
        return None;
      }
      var ok := Load(crate);
      if !ok {
        return Some(NoMetadata(crate));
      }
      if crate !in packages {
        return Some(NotAPackage(crate));
      }
      return None;
    }

    lemma TakenInMatch(seen: set<Dir>, manifest: Dir, start: Dir)
      requires Valid() && seen <= packages.Keys && start in seen
      requires manifest in loaded && loaded <= seen + {manifest} && w.root[start] == w.root[manifest]
      ensures seen <= w.entry.Keys && seen <= w.root.Keys && workspaces == Roots(w, seen)
    {
      WorkspacesMatch(w, loaded, seen, manifest, start);
    }

    method Visit(ghost manifest: Dir, start: Dir) returns (r: Outcome)
      requires Valid() && loaded == {manifest}
      requires start in w.entry && w.root[start] == w.root[manifest]
      modifies this
      ensures r.Closure? || r.NoMetadata? || r.NotAPackage?
      ensures r.Closure? ==>
                && (forall d :: d in r.crates <==> Reachable(Dependencies(w), start, d))
                && r.crates <= w.entry.Keys && r.crates <= w.root.Keys
                && r.workspaces == Roots(w, r.crates)
      ensures !r.Closure? ==> Reachable(Dependencies(w), start, r.dir) && r.dir !in w.entry
    {
      ghost var g := Dependencies(w);
      var seen: set<Dir> := {};
      var todo := [start];
      ReachableSelf(g, start);
      while todo != []
        invariant Valid() && Searching(g, start, seen, todo) && seen <= packages.Keys
        invariant manifest in loaded && loaded <= seen + {manifest}
        decreases w.entry.Keys - seen, |todo|
      {
        ghost var before := todo;
        var crate := todo[|todo| - 1];
        todo := todo[..|todo| - 1];
        assert todo + [crate] == before;
        if crate in seen {
          SearchSkip(g, start, seen, todo, crate);
          continue;
        }
        assert Reachable(g, start, crate);
        var problem := Fetch(crate);
        if problem.Some? {
          return problem.value;
        }
        SearchStep(g, start, seen, todo, crate);
        seen := seen + {crate};
        todo := todo + PathsOf(packages[crate].dependencies);
      }
      SearchDone(g, start, seen);
      TakenInMatch(seen, manifest, start);
      r := Closure(seen, workspaces);
    }
  }
}
