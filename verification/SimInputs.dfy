// scripts/sim-inputs-hash.py, `linked_crates`: every crate the simulator
// extension links, found by reading manifests as they are met.
module LinkedCrates {
  import opened CrateGraph
  import opened Wrappers

  /** A dependency's value in a manifest: a bare version, or a table that may
      name a `path` and may ask for the workspace's own entry. */
  datatype Spec = Version | Inline(path: Option<string>, workspace: bool)

  type Table = seq<(string, Spec)>

  /** The dependency tables of one manifest: its own two, and two per target. */
  datatype Manifest = Manifest(dependencies: Table, buildDependencies: Table, targets: seq<(Table, Table)>)

  /** Where a dependency entry leads, if to a directory at all. */
  function Target(crate: Dir, name: string, spec: Spec, inherited: map<string, Dir>,
                  resolve: (Dir, string) -> Dir): Option<Dir>
  {
    match spec
    case Version => None
    case Inline(Some(path), _) => Some(resolve(crate, path))
    case Inline(None, workspace) => if workspace && name in inherited then Some(inherited[name]) else None
  }

  /** Every table of a manifest, in the order they are read. */
  function Tables(m: Manifest): seq<Table>
  {
    [m.dependencies, m.buildDependencies] + TargetTables(m.targets)
  }

  function TargetTables(targets: seq<(Table, Table)>): seq<Table>
  {
    if targets == [] then [] else [targets[0].0, targets[0].1] + TargetTables(targets[1..])
  }

  /** Everything one reading of manifests depends on. */
  datatype Tree = Tree(manifests: map<Dir, Manifest>, inherited: map<string, Dir>, resolve: (Dir, string) -> Dir)

  /** Some entry of some table of `crate`'s manifest leads to `e`. */
  ghost predicate Links(t: Tree, crate: Dir, e: Dir)
    requires crate in t.manifests
  {
    exists k :: 0 <= k < |Tables(t.manifests[crate])| && TableLinks(t, crate, Tables(t.manifests[crate])[k], e)
  }

  ghost predicate TableLinks(t: Tree, crate: Dir, table: Table, e: Dir)
  {
    exists j :: 0 <= j < |table| && EntryLinks(t, crate, table, j, e)
  }

  ghost predicate EntryLinks(t: Tree, crate: Dir, table: Table, j: nat, e: Dir)
    requires j < |table|
  {
    Target(crate, table[j].0, table[j].1, t.inherited, t.resolve) == Some(e)
  }

  /** The entry names `e` by a path, or has none, asks for the workspace's entry of its
      name, and that is `e`. */
  ghost predicate Names(t: Tree, crate: Dir, entry: (string, Spec), e: Dir)
  {
    && entry.1.Inline?
    && (entry.1.path.Some? ==> t.resolve(crate, entry.1.path.value) == e)
    && (entry.1.path.None? ==> entry.1.workspace && entry.0 in t.inherited && t.inherited[entry.0] == e)
  }

  /** Some entry of the table names `e`. */
  ghost predicate SomeNames(t: Tree, crate: Dir, table: Table, e: Dir)
  {
    exists entry :: entry in table && Names(t, crate, entry, e)
  }

  ghost predicate TargetNames(t: Tree, crate: Dir, target: (Table, Table), e: Dir)
  {
    SomeNames(t, crate, target.0, e) || SomeNames(t, crate, target.1, e)
  }

  lemma TableLinksIff(t: Tree, crate: Dir, table: Table, e: Dir)
    ensures TableLinks(t, crate, table, e) <==> SomeNames(t, crate, table, e)
  {
    if SomeNames(t, crate, table, e) {
      var entry :| entry in table && Names(t, crate, entry, e);
      var j :| 0 <= j < |table| && table[j] == entry;
      assert EntryLinks(t, crate, table, j, e);
    }
    if TableLinks(t, crate, table, e) {
      var j :| 0 <= j < |table| && EntryLinks(t, crate, table, j, e);
      assert Names(t, crate, table[j], e);
    }
  }

  lemma {:induction false} TargetTablesHold(targets: seq<(Table, Table)>, table: Table)
    ensures table in TargetTables(targets) <==>
              exists k :: 0 <= k < |targets| && (targets[k].0 == table || targets[k].1 == table)
  {
    if targets != [] {
      TargetTablesHold(targets[1..], table);
      if exists k :: 0 <= k < |targets[1..]| && (targets[1..][k].0 == table || targets[1..][k].1 == table) {
        var k :| 0 <= k < |targets[1..]| && (targets[1..][k].0 == table || targets[1..][k].1 == table);
        assert targets[k + 1] == targets[1..][k];
      }
      if exists k :: 0 < k < |targets| && (targets[k].0 == table || targets[k].1 == table) {
        var k :| 0 < k < |targets| && (targets[k].0 == table || targets[k].1 == table);
        assert targets[1..][k - 1] == targets[k];
      }
    }
  }

  /** A manifest links `e` exactly if an entry of its dependencies, of its build
      dependencies, or of either table of one of its targets names it. */
  lemma LinksIff(t: Tree, crate: Dir, e: Dir)
    requires crate in t.manifests
    ensures var m := t.manifests[crate];
            Links(t, crate, e) <==>
              (|| SomeNames(t, crate, m.dependencies, e)
               || SomeNames(t, crate, m.buildDependencies, e)
               || exists k :: 0 <= k < |m.targets| && TargetNames(t, crate, m.targets[k], e))
  {
    var m := t.manifests[crate];
    var tables := Tables(m);
    forall table ensures TableLinks(t, crate, table, e) <==> SomeNames(t, crate, table, e) {
      TableLinksIff(t, crate, table, e);
    }
    assert tables == [m.dependencies, m.buildDependencies] + TargetTables(m.targets);
    if Links(t, crate, e) {
      var k :| 0 <= k < |tables| && TableLinks(t, crate, tables[k], e);
      assert tables[k] in tables;
      TargetTablesHold(m.targets, tables[k]);
    }
    forall k | 0 <= k < |m.targets| ensures m.targets[k].0 in tables && m.targets[k].1 in tables {
      TargetTablesHold(m.targets, m.targets[k].0);
      TargetTablesHold(m.targets, m.targets[k].1);
    }
    forall table | table in tables && SomeNames(t, crate, table, e) ensures Links(t, crate, e) {
      var k :| 0 <= k < |tables| && tables[k] == table;
    }
  }

  datatype Found = Crates(dirs: set<Dir>) | NoManifest(dir: Dir)

  /** The directories a table leads to, in order. */
  function TableTargets(t: Tree, crate: Dir, table: Table): (links: seq<Dir>)
  {
    if table == [] then []
    else
      var n := |table| - 1;
      var to := Target(crate, table[n].0, table[n].1, t.inherited, t.resolve);
      TableTargets(t, crate, table[..n]) + if to.Some? then [to.value] else []
  }

  function AllTargets(t: Tree, crate: Dir, tables: seq<Table>): seq<Dir>
  {
    if tables == [] then []
    else AllTargets(t, crate, tables[..|tables| - 1]) + TableTargets(t, crate, tables[|tables| - 1])
  }

  /** The graph the manifests describe. */
  function GraphOf(t: Tree): Graph
  {
    map d | d in t.manifests :: AllTargets(t, d, Tables(t.manifests[d]))
  }

  lemma {:induction false} TableTargetsIff(t: Tree, crate: Dir, table: Table, e: Dir)
    ensures e in TableTargets(t, crate, table) <==> TableLinks(t, crate, table, e)
    decreases |table|
  {
    if table != [] {
      var n := |table| - 1;
      TableTargetsIff(t, crate, table[..n], e);
      assert forall j :: 0 <= j < n ==> (EntryLinks(t, crate, table[..n], j, e) <==> EntryLinks(t, crate, table, j, e));
      assert EntryLinks(t, crate, table, n, e) <==>
             Target(crate, table[n].0, table[n].1, t.inherited, t.resolve) == Some(e);
    }
  }

  /** An edge of the graph is an entry of a table. */
  lemma {:induction false} AllTargetsIff(t: Tree, crate: Dir, tables: seq<Table>, e: Dir)
    ensures e in AllTargets(t, crate, tables) <==> exists k :: 0 <= k < |tables| && TableLinks(t, crate, tables[k], e)
    decreases |tables|
  {
    if tables != [] {
      var n := |tables| - 1;
      AllTargetsIff(t, crate, tables[..n], e);
      TableTargetsIff(t, crate, tables[n], e);
      assert forall k :: 0 <= k < n ==> tables[..n][k] == tables[k];
    }
  }

  /** The directories one manifest leads to: every entry of every table is read, by its
      path or through the workspace's own entry. */
  method ReadLinks(t: Tree, crate: Dir) returns (links: seq<Dir>)
    requires crate in t.manifests
    ensures links == GraphOf(t)[crate]
    ensures forall e :: e in links <==> Links(t, crate, e)
  {
    var tables := Tables(t.manifests[crate]);
    links := [];
    for k := 0 to |tables|
      invariant links == AllTargets(t, crate, tables[..k])
    {
      ghost var before := links;
      var table := tables[k];
      for j := 0 to |table|
        invariant links == before + TableTargets(t, crate, table[..j])
      {
        assert table[..j + 1][..j] == table[..j];
        var to := Target(crate, table[j].0, table[j].1, t.inherited, t.resolve);
        if to.Some? {
          links := links + [to.value];
        }
      }
      assert table[..|table|] == table;
      assert tables[..k + 1][..k] == tables[..k];
    }
    assert tables[..|tables|] == tables;
    forall e ensures e in links <==> Links(t, crate, e) {
      AllTargetsIff(t, crate, tables, e);
    }
  }

  /** The walk from `extension`: exactly the crates it links, or the first
      directory met that has no manifest. */
  method Linked(t: Tree, extension: Dir) returns (r: Found)
    ensures r.Crates? ==>
              r.dirs <= t.manifests.Keys && forall d :: d in r.dirs <==> Reachable(GraphOf(t), extension, d)
    ensures r.NoManifest? ==> Reachable(GraphOf(t), extension, r.dir) && r.dir !in t.manifests
  {
    ghost var g := GraphOf(t);
    var seen: set<Dir> := {};
    var todo := [extension];
    ReachableSelf(g, extension);
    while todo != []
      invariant Searching(g, extension, seen, todo) && seen <= t.manifests.Keys
      decreases t.manifests.Keys - seen, |todo|
    {
      ghost var before := todo;
      var crate := todo[|todo| - 1];
      todo := todo[..|todo| - 1];
      assert todo + [crate] == before;
      if crate in seen {
        SearchSkip(g, extension, seen, todo, crate);
      } else {
        if crate !in t.manifests {
          return NoManifest(crate);
        }
        seen := seen + {crate};
        var links := ReadLinks(t, crate);
        SearchStep(g, extension, seen - {crate}, todo, crate);
        assert seen - {crate} + {crate} == seen;
        todo := todo + links;
      }
    }
    SearchDone(g, extension, seen);
    r := Crates(seen);
  }
}

// The byte streams the two scripts feed their digests, and what can be read
// back from them.
module InputStreams {
  import opened Ordering
  import opened Wrappers

  /** One input file: its path and the SHA-256 of its contents. */
  datatype File = File(path: seq<Byte>, hash: seq<Byte>)

  predicate WellFormed(f: File)
  {
    0 !in f.path && |f.hash| == 32
  }

  function Encode(files: seq<File>): seq<Byte>
  {
    if files == [] then [] else files[0].path + [0] + files[0].hash + Encode(files[1..])
  }

  /** Position of the first NUL, or the length when there is none. */
  function FirstNul(s: seq<Byte>): (k: nat)
    ensures k <= |s| && 0 !in s[..k]
    ensures k < |s| ==> s[k] == 0
  {
    if s == [] || s[0] == 0 then 0
    else
      var k := FirstNul(s[1..]);
      assert s[..k + 1] == [s[0]] + s[1..][..k];
      k + 1
  }

  /** Read the files back: a path up to its NUL, then 32 bytes of hash. */
  function Decode(s: seq<Byte>): Option<seq<File>>
    decreases |s|
  {
    if s == [] then Some([])
    else
      var k := FirstNul(s);
      if k + 33 > |s| then None
      else
        match Decode(s[k + 33..])
        case None => None
        case Some(rest) => Some([File(s[..k], s[k + 1..k + 33])] + rest)
  }

  lemma FirstNulAfterPath(path: seq<Byte>, rest: seq<Byte>)
    requires 0 !in path
    ensures FirstNul(path + [0] + rest) == |path|
  {
    var s := path + [0] + rest;
    var k := FirstNul(s);
    assert s[|path|] == 0;
    assert forall i :: 0 <= i < |path| ==> s[i] == path[i];
    assert forall i :: 0 <= i < k ==> s[..k][i] == s[i];
  }

  /** The stream determines the list of files it was made from. */
  lemma {:induction false} DecodeEncode(files: seq<File>)
    requires forall i :: 0 <= i < |files| ==> WellFormed(files[i])
    ensures Decode(Encode(files)) == Some(files)
    decreases |files|
  {
    if files != [] {
      var f, rest := files[0], Encode(files[1..]);
      var s := f.path + [0] + f.hash + rest;
      assert s == f.path + [0] + (f.hash + rest);
      FirstNulAfterPath(f.path, f.hash + rest);
      DecodeEncode(files[1..]);
      var k := |f.path|;
      assert s[..k] == f.path;
      assert s[k + 1..k + 33] == f.hash;
      assert s[k + 33..] == rest;
      assert [f] + files[1..] == files;
    }
  }

  /** Equal streams mean equal files: what the digest is computed over leaves no
      two different input lists indistinguishable. */
  lemma StreamsDetermineFiles(a: seq<File>, b: seq<File>)
    requires forall i :: 0 <= i < |a| ==> WellFormed(a[i])
    requires forall i :: 0 <= i < |b| ==> WellFormed(b[i])
    ensures Encode(a) == Encode(b) <==> a == b
  {
    DecodeEncode(a);
    DecodeEncode(b);
  }

  // ------------------------------------------------------------- sorted order

  function ByteValue(b: Byte): int
  {
    b
  }

  /** The list is sorted bytewise, so it is determined by which paths are in it, and so
      is the stream: it does not depend on the order they were listed in. */
  lemma OrderIrrelevant(a: seq<seq<Byte>>, b: seq<seq<Byte>>, hash: seq<Byte> -> seq<Byte>)
    requires Sorted(ByteValue, a) && Sorted(ByteValue, b) && multiset(a) == multiset(b)
    ensures Encode(Files(a, hash)) == Encode(Files(b, hash))
  {
    SortedUnique(ByteValue, a, b);
  }

  // ------------------------------------------------------- feeding the digest

  /** The loop that feeds the digest, one file at a time. */
  method Feed(paths: seq<seq<Byte>>, hash: seq<Byte> -> seq<Byte>) returns (stream: seq<Byte>)
    ensures stream == Encode(Files(paths, hash))
  {
    stream := [];
    for i := 0 to |paths|
      invariant stream == Encode(Files(paths[..i], hash))
    {
      Associative(stream, paths[i] + [0], hash(paths[i]));
      stream := stream + (paths[i] + [0]);
      stream := stream + hash(paths[i]);
      EncodeAppend(Files(paths[..i], hash), File(paths[i], hash(paths[i])));
      assert Files(paths[..i + 1], hash) == Files(paths[..i], hash) + [File(paths[i], hash(paths[i]))];
    }
    assert paths[..|paths|] == paths;
  }

  function Files(paths: seq<seq<Byte>>, hash: seq<Byte> -> seq<Byte>): seq<File>
  {
    seq(|paths|, i requires 0 <= i < |paths| => File(paths[i], hash(paths[i])))
  }

  lemma {:induction false} EncodeAppend(files: seq<File>, f: File)
    ensures Encode(files + [f]) == Encode(files) + (f.path + [0] + f.hash)
    decreases |files|
  {
    if files == [] {
      assert files + [f] == [f];
      assert Encode([f]) == f.path + [0] + f.hash + [];
    } else {
      EncodeAppend(files[1..], f);
      assert (files + [f])[1..] == files[1..] + [f];
      var first := files[0].path + [0] + files[0].hash;
      Associative(first, Encode(files[1..]), f.path + [0] + f.hash);
    }
  }

  lemma Associative(a: seq<Byte>, b: seq<Byte>, c: seq<Byte>)
    ensures a + (b + c) == (a + b) + c
  {
  }

  // -------------------------------------------- scripts/ci-input-hash.py's lines

  const NEWLINE: Byte := 10

  function EncodeLines(lines: seq<seq<Byte>>): seq<Byte>
  {
    if lines == [] then [] else lines[0] + [NEWLINE] + EncodeLines(lines[1..])
  }

  /** Lines without a newline in them can be told apart in the stream. */
  lemma {:induction false} LinesDetermined(a: seq<seq<Byte>>, b: seq<seq<Byte>>)
    requires forall i :: 0 <= i < |a| ==> NEWLINE !in a[i]
    requires forall i :: 0 <= i < |b| ==> NEWLINE !in b[i]
    requires EncodeLines(a) == EncodeLines(b)
    ensures a == b
    decreases |a|
  {
    if a != [] && b != [] {
      var s := EncodeLines(a);
      var j, k := |a[0]|, |b[0]|;
      assert s[j] == NEWLINE && s[k] == NEWLINE;
      assert s[..j] == a[0] && s[..k] == b[0];
      assert forall i :: 0 <= i < j ==> s[i] == a[0][i];
      assert forall i :: 0 <= i < k ==> s[i] == b[0][i];
      assert s[j + 1..] == EncodeLines(a[1..]) && s[k + 1..] == EncodeLines(b[1..]);
      LinesDetermined(a[1..], b[1..]);
      assert a == [a[0]] + a[1..] && b == [b[0]] + b[1..];
    }
  }
}
