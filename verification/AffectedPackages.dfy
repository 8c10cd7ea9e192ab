/** From changed files to the packages whose tests must run. */
module AffectedPackages {
  import opened Common
  import opened GoListNames
  import opened StringOrder
  import RC = ReverseClosure

  /** One go list entry. */
  datatype Node = Node(importPath: string, dir: string, imports: seq<string>, failed: bool)

  const BUILD_AFFECTING: set<string> := {"go.mod", "go.sum", "go.work", "go.work.sum"}

  predicate InModule(dir: string, root: string) {
    dir != "" && (dir == root || HasPrefix(dir, root + "/"))
  }

  /** A module directory relative to the root; the root itself is ".". */
  function RelativeDir(dir: string, root: string): (r: string)
    ensures r != ""
  {
    var rel := TrimPrefix(TrimPrefix(dir, root), "/");
    if rel == "" then "." else rel
  }

  /** path.Dir on the clean relative paths git prints. */
  function PathDir(f: string): (r: string) {
    var i := LastSlash(f);
    if i < 0 then "." else if i == 0 then "/" else f[..i]
  }

  function LastSlash(f: string): (r: int)
    ensures -1 <= r < |f|
    ensures r >= 0 ==> f[r] == '/'
    ensures forall i | r < i < |f| :: f[i] != '/'
  {
    if f == "" then -1 else if f[|f| - 1] == '/' then |f| - 1 else LastSlash(f[..|f| - 1])
  }

  predicate Encloses(d: string, dir: string) {
    dir == d || HasPrefix(dir, d + "/")
  }

  /** The longest listed directory that encloses the file. */
  ghost predicate IsDeepest(dirs: set<string>, f: string, d: string) {
    && d in dirs && d != "" && Encloses(d, PathDir(f))
    && forall other | other in dirs && Encloses(other, PathDir(f)) :: |other| <= |d|
  }

  /** There is at most one, so the order of the listing cannot matter. */
  lemma DeepestIsUnique(dirs: set<string>, f: string, d: string, e: string)
    requires IsDeepest(dirs, f, d) && IsDeepest(dirs, f, e)
    ensures d == e
  {
    assert |d| == |e|;
    assert d == PathDir(f)[..|d|] by { if PathDir(f) != d { assert d <= d + "/" <= PathDir(f); } }
    assert e == PathDir(f)[..|e|] by { if PathDir(f) != e { assert e <= e + "/" <= PathDir(f); } }
  }

  predicate Homeless(dirs: set<string>, f: string) {
    forall d | d in dirs && d != "" :: !Encloses(d, PathDir(f))
  }

  /** A .go file outside every listed directory and outside test/e2e. */
  predicate Unmapped(dirs: set<string>, f: string) {
    Homeless(dirs, f) && !HasPrefix(f, "test/e2e/") && HasSuffix(f, ".go")
  }

  /** The inner search: the longest enclosing directory, or "" for none. */
  method BestDir(dir: string, dirs: seq<string>) returns (best: string)
    ensures best != "" ==> best in dirs && Encloses(best, dir)
    ensures forall d | d in dirs && Encloses(d, dir) :: |d| <= |best|
  {
    best := "";
    for i := 0 to |dirs|
      invariant best != "" ==> best in dirs && Encloses(best, dir)
      invariant forall j | 0 <= j < i && Encloses(dirs[j], dir) :: |dirs[j]| <= |best|
    {
      if Encloses(dirs[i], dir) && |dirs[i]| > |best| {
        best := dirs[i];
      }
    }
  }

  /** Where one changed file belongs, and whether it is a .go file that belongs nowhere. */
  method LocateFile(f: string, dirs: seq<string>) returns (best: string, stray: bool)
    ensures best == "" ==> forall d :: !IsDeepest(Elements(dirs), f, d)
    ensures best != "" ==> forall d :: IsDeepest(Elements(dirs), f, d) <==> d == best
    ensures stray <==> Unmapped(Elements(dirs), f)
  {
    best := BestDir(PathDir(f), dirs);
    stray := best == "" && !HasPrefix(f, "test/e2e/") && HasSuffix(f, ".go");
    if best != "" {
      assert IsDeepest(Elements(dirs), f, best);
      forall d | IsDeepest(Elements(dirs), f, d) ensures d == best {
        DeepestIsUnique(Elements(dirs), f, d, best);
      }
    }
  }

  /** Some file's deepest directory is `d`. */
  ghost predicate Hit(files: seq<string>, dirs: set<string>, d: string) {
    files != [] && (IsDeepest(dirs, files[|files| - 1], d) || Hit(files[..|files| - 1], dirs, d))
  }

  predicate AnyUnmapped(files: seq<string>, dirs: set<string>) {
    files != [] && (Unmapped(dirs, files[|files| - 1]) || AnyUnmapped(files[..|files| - 1], dirs))
  }

  lemma {:induction false} HitIff(files: seq<string>, dirs: set<string>, d: string)
    ensures Hit(files, dirs, d) <==> exists f :: f in files && IsDeepest(dirs, f, d)
  {
    if files != [] {
      var init, last := files[..|files| - 1], files[|files| - 1];
      HitIff(init, dirs, d);
      assert files == init + [last];
    }
  }

  lemma {:induction false} AnyUnmappedIff(files: seq<string>, dirs: set<string>)
    ensures AnyUnmapped(files, dirs) <==> exists f :: f in files && Unmapped(dirs, f)
  {
    if files != [] {
      var init, last := files[..|files| - 1], files[|files| - 1];
      AnyUnmappedIff(init, dirs);
      assert files == init + [last];
    }
  }

  /** mapFilesToPackages: the deepest directory of each file, and whether some .go
      file belongs nowhere. */
  method MapFilesToPackages(files: seq<string>, dirs: seq<string>) returns (selected: set<string>, unmappedGo: bool)
    ensures forall d :: d in selected <==> Hit(files, Elements(dirs), d)
    ensures unmappedGo <==> AnyUnmapped(files, Elements(dirs))
  {
    selected, unmappedGo := {}, false;
    for n := 0 to |files|
      invariant forall d :: d in selected <==> Hit(files[..n], Elements(dirs), d)
      invariant unmappedGo <==> AnyUnmapped(files[..n], Elements(dirs))
    {
      var best, stray := LocateFile(files[n], dirs);
      assert files[..n + 1][..n] == files[..n];
      unmappedGo := unmappedGo || stray;
      if best != "" {
        selected := selected + {best};
      }
    }
    assert files[..|files|] == files;
  }

  // ---- the import graph -----------------------------------------------------

  function ImportersIn(imports: seq<string>, path: string, y: string): (r: seq<string>) {
    if imports == [] then []
    else ImportersIn(imports[..|imports| - 1], path, y) + if imports[|imports| - 1] == y then [path] else []
  }

  /** The nodes that import `y`, in listing order. */
  function Importers(nodes: seq<Node>, y: string): (r: seq<string>) {
    if nodes == [] then []
    else
      var last := nodes[|nodes| - 1];
      Importers(nodes[..|nodes| - 1], y) + ImportersIn(last.imports, last.importPath, y)
  }

  /** Some node called `x` lists `y` among its imports. */
  ghost predicate Imports(nodes: seq<Node>, x: string, y: string) {
    exists n :: n in nodes && n.importPath == x && y in n.imports
  }

  lemma {:induction false} ImportersInIff(imports: seq<string>, path: string, x: string, y: string)
    ensures x in ImportersIn(imports, path, y) <==> x == path && y in imports
  {
    if imports != [] {
      ImportersInIff(imports[..|imports| - 1], path, x, y);
      assert imports == imports[..|imports| - 1] + [imports[|imports| - 1]];
    }
  }

  lemma {:induction false} ImportersIff(nodes: seq<Node>, x: string, y: string)
    ensures x in Importers(nodes, y) <==> Imports(nodes, x, y)
  {
    if nodes != [] {
      var init, last := nodes[..|nodes| - 1], nodes[|nodes| - 1];
      ImportersIff(init, x, y);
      ImportersInIff(last.imports, last.importPath, x, y);
      assert nodes == init + [last];
    }
  }

  function AddEdge(edges: RC.Edges<string>, k: string, path: string): (r: RC.Edges<string>)
    ensures forall y :: RC.Dependents(r, y) == RC.Dependents(edges, y) + if y == k then [path] else []
  {
    edges[k := RC.Dependents(edges, k) + [path]]
  }

  lemma ImportersStep(edges0: RC.Edges<string>, edges: RC.Edges<string>, path: string, imports: seq<string>, y: string)
    requires imports != []
    requires RC.Dependents(edges, y) == RC.Dependents(edges0, y) + ImportersIn(imports[..|imports| - 1], path, y)
    ensures RC.Dependents(AddEdge(edges, imports[|imports| - 1], path), y) ==
            RC.Dependents(edges0, y) + ImportersIn(imports, path, y)
  {
  }

  method AddImports(edges0: RC.Edges<string>, path: string, imports: seq<string>) returns (edges: RC.Edges<string>)
    ensures forall y :: RC.Dependents(edges, y) == RC.Dependents(edges0, y) + ImportersIn(imports, path, y)
  {
    edges := edges0;
    for i := 0 to |imports|
      invariant forall y :: RC.Dependents(edges, y) == RC.Dependents(edges0, y) + ImportersIn(imports[..i], path, y)
    {
      assert imports[..i + 1][..i] == imports[..i];
      forall y ensures RC.Dependents(AddEdge(edges, imports[i], path), y) ==
                       RC.Dependents(edges0, y) + ImportersIn(imports[..i + 1], path, y)
      {
        ImportersStep(edges0, edges, path, imports[..i + 1], y);
      }
      edges := AddEdge(edges, imports[i], path);
    }
    assert imports[..|imports|] == imports;
  }

  /** importEdges: inverts the import lists of the whole test graph. */
  method ImportEdges(nodes: seq<Node>) returns (edges: RC.Edges<string>)
    ensures forall y :: RC.Dependents(edges, y) == Importers(nodes, y)
  {
    edges := map[];
    for i := 0 to |nodes|
      invariant forall y :: RC.Dependents(edges, y) == Importers(nodes[..i], y)
    {
      assert nodes[..i + 1][..i] == nodes[..i];
      edges := AddImports(edges, nodes[i].importPath, nodes[i].imports);
    }
    assert nodes[..|nodes|] == nodes;
  }

  /** Each element imports the next one. */
  ghost predicate ImportChain(nodes: seq<Node>, p: seq<string>) {
    p != [] && (|p| == 1 || (Imports(nodes, p[0], p[1]) && ImportChain(nodes, p[1..])))
  }

  lemma {:induction false} ChainIsImportChain(nodes: seq<Node>, edges: RC.Edges<string>, p: seq<string>)
    requires forall y :: RC.Dependents(edges, y) == Importers(nodes, y)
    ensures RC.Chain(edges, p) <==> ImportChain(nodes, p)
  {
    if |p| > 1 {
      ImportersIff(nodes, p[0], p[1]);
      ChainIsImportChain(nodes, edges, p[1..]);
    }
  }

  // ---- packages and directories of the module -------------------------------

  /** The import paths listed in one module directory. */
  function PathsIn(nodes: seq<Node>, root: string, d: string): (r: seq<string>) {
    if nodes == [] then []
    else
      var last := nodes[|nodes| - 1];
      PathsIn(nodes[..|nodes| - 1], root, d)
      + if InModule(last.dir, root) && RelativeDir(last.dir, root) == d then [last.importPath] else []
  }

  /** The module directories go list reported. */
  function Dirs(nodes: seq<Node>, root: string): (r: set<string>)
    ensures forall d :: d in r <==> PathsIn(nodes, root, d) != []
  {
    if nodes == [] then {}
    else
      var last := nodes[|nodes| - 1];
      Dirs(nodes[..|nodes| - 1], root)
      + if InModule(last.dir, root) then {RelativeDir(last.dir, root)} else {}
  }

  /** The packages of the module that go test may be asked to run. */
  function Module(nodes: seq<Node>, root: string): (r: set<string>) {
    if nodes == [] then {}
    else
      var last := nodes[|nodes| - 1];
      var pkg := TestablePackage(last.importPath);
      Module(nodes[..|nodes| - 1], root)
      + if InModule(last.dir, root) && !HasSuffix(pkg, "/test/e2e") then {pkg} else {}
  }

  method ModulePackages(nodes: seq<Node>, root: string) returns (out: set<string>)
    ensures out == Module(nodes, root)
  {
    out := {};
    for i := 0 to |nodes|
      invariant out == Module(nodes[..i], root)
    {
      assert nodes[..i + 1][..i] == nodes[..i];
      if !InModule(nodes[i].dir, root) {
        continue;
      }
      var pkg := TestablePackage(nodes[i].importPath);
      if HasSuffix(pkg, "/test/e2e") {
        continue;
      }
      out := out + {pkg};
    }
    assert nodes[..|nodes|] == nodes;
  }

  method PackageDirs(nodes: seq<Node>, root: string) returns (out: map<string, seq<string>>)
    ensures out.Keys == Dirs(nodes, root)
    ensures forall d | d in out :: out[d] == PathsIn(nodes, root, d)
  {
    out := map[];
    for i := 0 to |nodes|
      invariant out.Keys == Dirs(nodes[..i], root)
      invariant forall d | d in out :: out[d] == PathsIn(nodes[..i], root, d)
    {
      assert nodes[..i + 1][..i] == nodes[..i];
      if !InModule(nodes[i].dir, root) {
        continue;
      }
      var rel := RelativeDir(nodes[i].dir, root);
      out := out[rel := (if rel in out then out[rel] else []) + [nodes[i].importPath]];
    }
    assert nodes[..|nodes|] == nodes;
  }

  // ---- selection ------------------------------------------------------------

  function FirstBuildAffecting(files: seq<string>): (r: string)
    ensures r == "" <==> forall f | f in files :: f !in BUILD_AFFECTING
    ensures r != "" ==> exists i | 0 <= i < |files| ::
              files[i] == r && r in BUILD_AFFECTING && forall j | 0 <= j < i :: files[j] !in BUILD_AFFECTING
  {
    if files == [] then ""
    else if files[0] in BUILD_AFFECTING then files[0]
    else
      assert files == [files[0]] + files[1..];
      assert forall i | 0 <= i < |files| - 1 :: files[1..][i] == files[i + 1];
      FirstBuildAffecting(files[1..])
  }

  predicate ListFailed(nodes: seq<Node>) {
    exists n | n in nodes :: n.failed
  }

  /** A package listed in the deepest directory of some changed file. */
  ghost predicate Changed(nodes: seq<Node>, root: string, files: seq<string>, y: string) {
    exists d :: Hit(files, Dirs(nodes, root), d) && y in PathsIn(nodes, root, d)
  }

  ghost predicate AffectedBy(nodes: seq<Node>, root: string, files: seq<string>, x: string, p: seq<string>) {
    ImportChain(nodes, p) && p[0] == x && Changed(nodes, root, files, p[|p| - 1])
  }

  /** Some import chain leads from `x` to a changed package. */
  ghost predicate Affected(nodes: seq<Node>, root: string, files: seq<string>, x: string) {
    exists p :: AffectedBy(nodes, root, files, x, p)
  }

  lemma ReachesIsAffected(nodes: seq<Node>, root: string, files: seq<string>, edges: RC.Edges<string>, seeds: set<string>, x: string)
    requires forall y :: RC.Dependents(edges, y) == Importers(nodes, y)
    requires forall y :: y in seeds <==> Changed(nodes, root, files, y)
    ensures RC.Reaches(edges, x, seeds) <==> Affected(nodes, root, files, x)
  {
    forall p ensures RC.ChainTo(edges, p, x, seeds) <==> AffectedBy(nodes, root, files, x, p) {
      ChainIsImportChain(nodes, edges, p);
    }
  }

  /** The import paths listed in the hit directories. */
  method CollectSeeds(dirs: map<string, seq<string>>, mapped: set<string>) returns (seeds: set<string>)
    requires mapped <= dirs.Keys
    ensures forall y :: y in seeds <==> exists d :: d in mapped && y in dirs[d]
  {
    seeds := {};
    var rest := mapped;
    while rest != {}
      invariant rest <= mapped
      invariant forall y :: y in seeds <==> exists d :: d in mapped - rest && y in dirs[d]
    {
      var d :| d in rest;
      seeds := seeds + Elements(dirs[d]);
      rest := rest - {d};
    }
  }

  /** The testable module packages among the reached nodes. */
  method KeepModulePackages(affected: set<string>, modulePkgs: set<string>) returns (selected: set<string>)
    ensures forall pkg :: pkg in selected <==> pkg in modulePkgs && exists x :: x in affected && TestablePackage(x) == pkg
  {
    selected := {};
    var rest := affected;
    while rest != {}
      invariant rest <= affected
      invariant forall pkg :: pkg in selected <==>
                  pkg in modulePkgs && exists x :: x in affected - rest && TestablePackage(x) == pkg
    {
      var p :| p in rest;
      var pkg := TestablePackage(p);
      if pkg in modulePkgs && pkg !in selected {
        selected := selected + {pkg};
      }
      rest := rest - {p};
    }
  }

  /** The narrow selection, once no fallback applies. */
  method SelectAffected(nodes: seq<Node>, root: string, files: seq<string>,
                        dirs: map<string, seq<string>>, mapped: set<string>, modulePkgs: set<string>)
    returns (selected: set<string>)
    requires dirs.Keys == Dirs(nodes, root) && forall d | d in dirs :: dirs[d] == PathsIn(nodes, root, d)
    requires mapped <= dirs.Keys && forall d :: d in mapped <==> Hit(files, Dirs(nodes, root), d)
    ensures forall pkg :: pkg in selected <==>
              pkg in modulePkgs && exists x :: Affected(nodes, root, files, x) && TestablePackage(x) == pkg
  {
    var seeds := CollectSeeds(dirs, mapped);
    forall y ensures y in seeds <==> Changed(nodes, root, files, y) {
    }
    var edges := ImportEdges(nodes);
    var affected := RC.ReverseClosure(edges, seeds);
    forall x ensures x in affected <==> Affected(nodes, root, files, x) {
      ReachesIsAffected(nodes, root, files, edges, seeds, x);
    }
    selected := KeepModulePackages(affected, modulePkgs);
  }

  lemma {:induction false} HitIsListed(files: seq<string>, dirs: set<string>, d: string)
    requires Hit(files, dirs, d)
    ensures d in dirs
  {
    if !IsDeepest(dirs, files[|files| - 1], d) {
      HitIsListed(files[..|files| - 1], dirs, d);
    }
  }

  /** selectPackages: every package of the module when a build file changed, a .go
      file belongs nowhere or the listing failed; otherwise exactly the module
      packages with a node from which an import chain leads to a changed package. */
  method SelectPackages(nodes: seq<Node>, root: string, files: seq<string>)
    returns (pkgs: seq<string>, all: bool, reason: string)
    ensures all <==>
            || (exists f :: f in files && f in {"go.mod", "go.sum", "go.work", "go.work.sum"})
            || AnyUnmapped(files, Dirs(nodes, root))
            || (exists n :: n in nodes && n.failed)
    ensures reason == (if FirstBuildAffecting(files) != "" then FirstBuildAffecting(files) + " changed"
                       else if AnyUnmapped(files, Dirs(nodes, root)) then "changed .go files belong to no listed package"
                       else if ListFailed(nodes) then "go list reported package errors"
                       else "")
    ensures StrictlySorted(pkgs)
    ensures all ==> Elements(pkgs) == Module(nodes, root)
    ensures !all ==> forall pkg :: pkg in Elements(pkgs) <==>
              pkg in Module(nodes, root) && exists x :: Affected(nodes, root, files, x) && TestablePackage(x) == pkg
  {
    var modulePkgs := ModulePackages(nodes, root);
    var dirs := PackageDirs(nodes, root);
    var dirList := SortedKeys(dirs.Keys);
    var mapped, unmappedGo := MapFilesToPackages(files, dirList);
    if FirstBuildAffecting(files) != "" {
      pkgs := SortedKeys(modulePkgs);
      return pkgs, true, FirstBuildAffecting(files) + " changed";
    }
    if unmappedGo {
      pkgs := SortedKeys(modulePkgs);
      return pkgs, true, "changed .go files belong to no listed package";
    }
    if ListFailed(nodes) {
      pkgs := SortedKeys(modulePkgs);
      return pkgs, true, "go list reported package errors";
    }
    forall d | d in mapped ensures d in dirs.Keys {
      HitIsListed(files, Dirs(nodes, root), d);
    }
    var selected := SelectAffected(nodes, root, files, dirs, mapped, modulePkgs);
    pkgs := SortedKeys(selected);
    return pkgs, false, "";
  }

  /** What a name ending in _test does to the selection: a change that reaches such a
      package only through its test main asks for the tests of another package, and
      not for its own. */
  lemma TestNamedPackageIsMissed(nodes: seq<Node>, root: string, files: seq<string>, x: string)
    requires IndexOf(x, VARIANT) == -1 && Affected(nodes, root, files, x + "_test" + ".test")
    requires forall y | Affected(nodes, root, files, y) && y != x + "_test" + ".test" :: TestablePackage(y) != x + "_test"
    ensures exists y :: Affected(nodes, root, files, y) && TestablePackage(y) == x
    ensures !exists y :: Affected(nodes, root, files, y) && TestablePackage(y) == x + "_test"
  {
    TestNodesOfTestNamedPackage(x, "");
    assert |x + "_test"| != |x|;
  }

  // ---- what the directories mean --------------------------------------------

  /** The directory is the root of the checkout or lies below it. */
  ghost predicate Below(dir: string, root: string) {
    dir != "" && (dir == root || exists rest :: dir == root + "/" + rest)
  }

  lemma InModuleIff(dir: string, root: string)
    ensures InModule(dir, root) <==> Below(dir, root)
  {
    if HasPrefix(dir, root + "/") {
      assert dir == root + "/" + dir[|root| + 1..];
    }
  }

  lemma RelativeDirIs(root: string, d: string)
    requires d != "" && d[0] != '/'
    ensures RelativeDir(root + "/" + d, root) == d
    ensures RelativeDir(root, root) == "."
  {
    var dir := root + "/" + d;
    assert dir[|root|..] == "/" + d && ("/" + d)[1..] == d;
    assert root[|root|..] == "";
  }

  lemma {:induction false} LastSlashIs(d: string, name: string)
    requires '/' !in name
    ensures LastSlash(d + "/" + name) == |d|
  {
    var f := d + "/" + name;
    if name != "" {
      assert f[..|f| - 1] == d + "/" + name[..|name| - 1];
      LastSlashIs(d, name[..|name| - 1]);
    }
  }

  lemma {:induction false} NoSlash(name: string)
    requires '/' !in name
    ensures LastSlash(name) == -1
  {
    if name != "" { NoSlash(name[..|name| - 1]); }
  }

  lemma PathDirIs(d: string, name: string)
    requires '/' !in name
    ensures d != "" ==> PathDir(d + "/" + name) == d
    ensures PathDir(name) == "."
  {
    LastSlashIs(d, name);
    NoSlash(name);
    assert (d + "/" + name)[..|d|] == d;
  }

  predicate Hosts(n: Node, root: string, d: string, y: string) {
    n.importPath == y && InModule(n.dir, root) && RelativeDir(n.dir, root) == d
  }

  ghost predicate SomeHosts(nodes: seq<Node>, root: string, d: string, y: string) {
    exists i | 0 <= i < |nodes| :: Hosts(nodes[i], root, d, y)
  }

  lemma {:induction false} SomeHostsSplit(nodes: seq<Node>, root: string, d: string, y: string)
    requires nodes != []
    ensures SomeHosts(nodes, root, d, y) <==>
            SomeHosts(nodes[..|nodes| - 1], root, d, y) || Hosts(nodes[|nodes| - 1], root, d, y)
  {
    var init := nodes[..|nodes| - 1];
    if i :| 0 <= i < |nodes| && Hosts(nodes[i], root, d, y) {
      if i < |init| { assert Hosts(init[i], root, d, y); }
    }
    if i :| 0 <= i < |init| && Hosts(init[i], root, d, y) {
      assert Hosts(nodes[i], root, d, y);
    }
  }

  lemma {:induction false} PathsInIff(nodes: seq<Node>, root: string, d: string, y: string)
    ensures y in PathsIn(nodes, root, d) <==> SomeHosts(nodes, root, d, y)
  {
    if nodes != [] {
      PathsInIff(nodes[..|nodes| - 1], root, d, y);
      SomeHostsSplit(nodes, root, d, y);
    }
  }

  lemma ListedHere(nodes: seq<Node>, root: string, n: Node)
    requires n in nodes && InModule(n.dir, root)
    ensures n.importPath in PathsIn(nodes, root, RelativeDir(n.dir, root))
    ensures RelativeDir(n.dir, root) in Dirs(nodes, root)
  {
    PathsInIff(nodes, root, RelativeDir(n.dir, root), n.importPath);
    var i :| 0 <= i < |nodes| && nodes[i] == n;
    assert Hosts(nodes[i], root, RelativeDir(n.dir, root), n.importPath);
  }

  lemma OwnDirIsDeepest(dirs: set<string>, f: string, d: string)
    requires d in dirs && d != "" && PathDir(f) == d
    ensures IsDeepest(dirs, f, d) && Hit([f], dirs, d)
  {
    assert [f][..0] == [];
  }

  /** A file in the directory of a listed package changes that package: below the root,
      and in the root itself. */
  lemma FileInDirectoryChangesPackage(nodes: seq<Node>, root: string, n: Node, d: string, name: string)
    requires n in nodes && '/' !in name && d != "" && d[0] != '/'
    ensures n.dir == root + "/" + d ==> Changed(nodes, root, [d + "/" + name], n.importPath)
    ensures n.dir == root && root != "" ==> Changed(nodes, root, [name], n.importPath)
  {
    RelativeDirIs(root, d);
    PathDirIs(d, name);
    if n.dir == root + "/" + d {
      InModuleIff(n.dir, root);
      ListedHere(nodes, root, n);
      OwnDirIsDeepest(Dirs(nodes, root), d + "/" + name, d);
    }
    if n.dir == root && root != "" {
      ListedHere(nodes, root, n);
      OwnDirIsDeepest(Dirs(nodes, root), name, ".");
    }
  }

  /** A changed package is listed at or below the root; nothing outside is changed. */
  lemma ChangedIsBelowRoot(nodes: seq<Node>, root: string, files: seq<string>, y: string)
    requires Changed(nodes, root, files, y)
    ensures exists n :: n in nodes && n.importPath == y && Below(n.dir, root)
  {
    var d :| Hit(files, Dirs(nodes, root), d) && y in PathsIn(nodes, root, d);
    PathsInIff(nodes, root, d, y);
    var i :| 0 <= i < |nodes| && Hosts(nodes[i], root, d, y);
    InModuleIff(nodes[i].dir, root);
  }

  /** The module's packages are what the nodes at or below the root reduce to, without
      those that end in /test/e2e. */
  lemma {:induction false} ModuleIff(nodes: seq<Node>, root: string, pkg: string)
    ensures pkg in Module(nodes, root) <==>
            && (exists n :: n in nodes && Below(n.dir, root) && TestablePackage(n.importPath) == pkg)
            && !HasSuffix(pkg, "/test/e2e")
  {
    if nodes != [] {
      var init, last := nodes[..|nodes| - 1], nodes[|nodes| - 1];
      ModuleIff(init, root, pkg);
      InModuleIff(last.dir, root);
      assert nodes == init + [last];
    }
  }

  /** A file falls back to everything exactly when it is a .go file outside test/e2e
      and every listed directory is neither its directory nor above it. */
  lemma UnmappedIff(dirs: set<string>, f: string)
    ensures Unmapped(dirs, f) <==>
            && (exists stem :: f == stem + ".go") && !(exists rest :: f == "test/e2e/" + rest)
            && (forall d | d in dirs && d != "" :: PathDir(f) != d && !exists rest :: PathDir(f) == d + "/" + rest)
  {
    if HasSuffix(f, ".go") { assert f == f[..|f| - 3] + ".go"; }
    if HasPrefix(f, "test/e2e/") { assert f == "test/e2e/" + f[9..]; }
    forall d | d in dirs && d != ""
      ensures Encloses(d, PathDir(f)) <==> PathDir(f) == d || exists rest :: PathDir(f) == d + "/" + rest
    {
      EnclosesIff(d, PathDir(f));
    }
  }

  lemma EnclosesIff(d: string, dir: string)
    ensures Encloses(d, dir) <==> dir == d || exists rest :: dir == d + "/" + rest
  {
    if HasPrefix(dir, d + "/") { assert dir == d + "/" + dir[|d| + 1..]; }
  }
}
