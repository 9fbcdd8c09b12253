/**
 * How the command flattens the nested output of `npm ls --json` into one record per
 * `name:version`, with every scope (dev, prod) it was listed under and every path through
 * which it was pulled in.
 *
 * The walk is specified as a pre-order flattening of the tree into visits, folded into the map
 * one visit at a time by the upsert appendDependency performs.
 */
module DependencyTree {
  import opened Wrappers
  import opened Seqs
  import opened NpmrcConfig

  /** One member of a `dependencies` object of `npm ls --json`: its name, its `version` field if any, its own `dependencies`. */
  datatype Node = Node(name: string, version: Option<string>, children: seq<Node>)

  /** The whole listing: its top-level `dependencies` (empty when absent), or output that is not a JSON object. */
  datatype Listing = Malformed(error: Error) | Listing(dependencies: seq<Node>)

  /** The digests of an artifact (the checksum record of build info). */
  datatype Checksum = Checksum(sha1: string, md5: string)

  /** The record kept per `name:version`. */
  datatype Dependency = Dependency(
    name: string,
    version: string,
    scopes: seq<string>,
    fileType: string,
    checksum: Option<Checksum>,
    pathToRoot: seq<seq<string>>)

  type DependencyMap = map<string, Dependency>

  /** The version as the command reads it: the empty text when the field is absent. */
  function VersionText(version: Option<string>): string
  {
    match version
    case Some(v) => v
    case None => ""
  }

  /** The identity `name:version` (`name:` when there is no version). */
  function NodeKey(n: Node): string
  {
    n.name + ":" + VersionText(n.version)
  }

  predicate NoDuplicates<T(==)>(s: seq<T>)
  {
    forall i, j :: 0 <= i < j < |s| ==> s[i] != s[j]
  }

  /** The scopes after `scope` is recorded: added at the end unless already there. */
  function AddScope(scopes: seq<string>, scope: string): seq<string>
  {
    if scope in scopes then scopes else scopes + [scope]
  }

  /** appendDependency: create the record or add the scope if new, and always record one more path. */
  function Upsert(m: DependencyMap, key: string, name: string, version: string, scope: string, path: seq<string>): DependencyMap
  {
    if key !in m then m[key := Dependency(name, version, [scope], "", None, [path])]
    else m[key := m[key].(scopes := AddScope(m[key].scopes, scope), pathToRoot := m[key].pathToRoot + [path])]
  }

  /** One call of appendDependency, in the order the walk makes them. */
  datatype Visit = Visit(key: string, name: string, version: string, path: seq<string>)

  /**
   * The visits of the walk of `nodes` whose parent path is `path`, in pre-order: a node with a
   * version is visited with its parent's path; its children are walked with its key prepended.
   */
  function ForestVisits(nodes: seq<Node>, path: seq<string>): seq<Visit>
    decreases nodes
  {
    if |nodes| == 0 then []
    else ForestVisits(nodes[..|nodes| - 1], path) + NodeVisits(nodes[|nodes| - 1], path)
  }

  function NodeVisits(n: Node, path: seq<string>): seq<Visit>
    decreases n
  {
    var own := match n.version
      case Some(v) => [Visit(NodeKey(n), n.name, v, path)]
      case None => [];
    own + ForestVisits(n.children, [NodeKey(n)] + path)
  }

  /** The map after the visits have been applied in order. */
  function UpsertAll(m: DependencyMap, visits: seq<Visit>, scope: string): DependencyMap
  {
    if |visits| == 0 then m
    else
      var v := visits[|visits| - 1];
      Upsert(UpsertAll(m, visits[..|visits| - 1], scope), v.key, v.name, v.version, scope, v.path)
  }

  /** parseDependencies: the map after walking `nodes` under `scope` from the parent path `path`. */
  function Walk(m: DependencyMap, nodes: seq<Node>, scope: string, path: seq<string>): DependencyMap
  {
    UpsertAll(m, ForestVisits(nodes, path), scope)
  }

  // ---------------------------------------------------------------------------------------
  // The fold of visits

  /** The keys the visits touch. */
  function VisitedKeys(visits: seq<Visit>): set<string>
  {
    set v | v in visits :: v.key
  }

  /** The paths of the visits of `key`, in visit order. */
  function PathsOf(visits: seq<Visit>, key: string): seq<seq<string>>
  {
    if |visits| == 0 then []
    else
      var v := visits[|visits| - 1];
      PathsOf(visits[..|visits| - 1], key) + if v.key == key then [v.path] else []
  }

  /** A key that is never visited has no path. */
  lemma {:induction false} PathsOfUnvisited(visits: seq<Visit>, key: string)
    requires key !in VisitedKeys(visits)
    ensures PathsOf(visits, key) == []
  {
    if |visits| > 0 {
      var init := visits[..|visits| - 1];
      assert VisitedKeys(init) <= VisitedKeys(visits);
      PathsOfUnvisited(init, key);
    }
  }

  lemma {:induction false} UpsertAllAppend(m: DependencyMap, a: seq<Visit>, b: seq<Visit>, scope: string)
    ensures UpsertAll(m, a + b, scope) == UpsertAll(UpsertAll(m, a, scope), b, scope)
    decreases |b|
  {
    if |b| == 0 {
      assert a + b == a;
    } else {
      assert (a + b)[..|a + b| - 1] == a + b[..|b| - 1];
      UpsertAllAppend(m, a, b[..|b| - 1], scope);
    }
  }

  /** Walking the first i+1 nodes is walking the first i, then node i. */
  lemma WalkStep(m: DependencyMap, nodes: seq<Node>, i: nat, scope: string, path: seq<string>)
    requires i < |nodes|
    ensures Walk(m, nodes[..i + 1], scope, path) == UpsertAll(Walk(m, nodes[..i], scope, path), NodeVisits(nodes[i], path), scope)
  {
    assert nodes[..i + 1][..i] == nodes[..i];
    UpsertAllAppend(m, ForestVisits(nodes[..i], path), NodeVisits(nodes[i], path), scope);
  }

  /** Visiting one node: its own upsert when it has a version, then the walk of its children under its key. */
  lemma NodeWalk(m: DependencyMap, n: Node, scope: string, path: seq<string>)
    ensures UpsertAll(m, NodeVisits(n, path), scope)
         == Walk(if n.version.Some? then Upsert(m, NodeKey(n), n.name, n.version.value, scope, path) else m,
                 n.children, scope, [NodeKey(n)] + path)
  {
    var own := match n.version
      case Some(v) => [Visit(NodeKey(n), n.name, v, path)]
      case None => [];
    UpsertAllAppend(m, own, ForestVisits(n.children, [NodeKey(n)] + path), scope);
    if n.version.Some? {
      assert own[..0] == [];
    }
  }

  /** The scopes a key has before the fold: none when it is new. */
  function PriorScopes(m: DependencyMap, key: string): seq<string>
  {
    if key in m then m[key].scopes else []
  }

  /** The paths a key has before the fold: none when it is new. */
  function PriorPaths(m: DependencyMap, key: string): seq<seq<string>>
  {
    if key in m then m[key].pathToRoot else []
  }

  lemma AddScopeTwice(scopes: seq<string>, scope: string)
    ensures AddScope(AddScope(scopes, scope), scope) == AddScope(scopes, scope)
  {
  }

  /** After the fold a key is present exactly when it was already there or is visited. */
  lemma {:induction false} UpsertAllKeys(m: DependencyMap, visits: seq<Visit>, scope: string)
    ensures UpsertAll(m, visits, scope).Keys == m.Keys + VisitedKeys(visits)
  {
    if |visits| > 0 {
      var init, v := visits[..|visits| - 1], visits[|visits| - 1];
      UpsertAllKeys(m, init, scope);
      assert visits == init + [v];
      assert VisitedKeys(visits) == VisitedKeys(init) + {v.key};
    }
  }

  /** Every visit of a key records exactly one path, in visit order, after the paths it had. */
  lemma {:induction false} UpsertAllPaths(m: DependencyMap, visits: seq<Visit>, scope: string, key: string)
    requires key in UpsertAll(m, visits, scope)
    ensures UpsertAll(m, visits, scope)[key].pathToRoot == PriorPaths(m, key) + PathsOf(visits, key)
  {
    if |visits| > 0 {
      var init, v := visits[..|visits| - 1], visits[|visits| - 1];
      var before := UpsertAll(m, init, scope);
      UpsertAllKeys(m, init, scope);
      if key in before {
        UpsertAllPaths(m, init, scope, key);
      } else {
        PathsOfUnvisited(init, key);
      }
    }
  }

  /** A visited key gains the scope once; an unvisited one keeps its scopes. */
  lemma {:induction false} UpsertAllScopes(m: DependencyMap, visits: seq<Visit>, scope: string, key: string)
    requires key in UpsertAll(m, visits, scope)
    ensures UpsertAll(m, visits, scope)[key].scopes
         == if key in VisitedKeys(visits) then AddScope(PriorScopes(m, key), scope) else PriorScopes(m, key)
  {
    if |visits| > 0 {
      var init, v := visits[..|visits| - 1], visits[|visits| - 1];
      var before := UpsertAll(m, init, scope);
      UpsertAllKeys(m, init, scope);
      assert visits == init + [v];
      assert VisitedKeys(visits) == VisitedKeys(init) + {v.key};
      if key in before {
        UpsertAllScopes(m, init, scope, key);
        AddScopeTwice(PriorScopes(m, key), scope);
      }
    }
  }

  /** The fold leaves the identity, file type and checksum of an existing entry alone; a new entry has neither file type nor checksum. */
  lemma {:induction false} UpsertAllFields(m: DependencyMap, visits: seq<Visit>, scope: string, key: string)
    requires key in UpsertAll(m, visits, scope)
    ensures var d := UpsertAll(m, visits, scope)[key];
      && (key in m ==> d.name == m[key].name && d.version == m[key].version
                       && d.fileType == m[key].fileType && d.checksum == m[key].checksum)
      && (key !in m ==> d.fileType == "" && d.checksum == None)
  {
    if |visits| > 0 {
      var init := visits[..|visits| - 1];
      if key in UpsertAll(m, init, scope) {
        UpsertAllFields(m, init, scope, key);
      } else {
        UpsertAllKeys(m, init, scope);
      }
    }
  }

  /** appendDependency's promise: the key is present, the scope is there once, one path more, others untouched. */
  lemma UpsertSpec(m: DependencyMap, key: string, name: string, version: string, scope: string, path: seq<string>)
    requires key in m ==> NoDuplicates(m[key].scopes)
    ensures var r := Upsert(m, key, name, version, scope, path);
      && key in r
      && scope in r[key].scopes && NoDuplicates(r[key].scopes)
      && r[key].pathToRoot == PriorPaths(m, key) + [path]
      && r.Keys == m.Keys + {key}
      && (forall k :: k in m && k != key ==> r[k] == m[k])
  {
    if key in m {
      var scopes := m[key].scopes;
      if scope !in scopes {
        var added := scopes + [scope];
        forall i, j | 0 <= i < j < |added| ensures added[i] != added[j] {
          if j == |scopes| {
            assert added[i] == scopes[i];
          }
        }
      }
    }
  }

  // ---------------------------------------------------------------------------------------
  // Properties of the walk

  /** The visits are keyed by `name:version`. */
  predicate KeyedByNameVersion(visits: seq<Visit>)
  {
    forall i :: 0 <= i < |visits| ==> visits[i].key == visits[i].name + ":" + visits[i].version
  }

  /** Every path of a visit ends with the path the walk was started from. */
  predicate PathsExtend(visits: seq<Visit>, path: seq<string>)
  {
    forall i :: 0 <= i < |visits| ==> |path| <= |visits[i].path| && visits[i].path[|visits[i].path| - |path|..] == path
  }

  lemma ShapeAppend(a: seq<Visit>, b: seq<Visit>, path: seq<string>)
    requires KeyedByNameVersion(a) && KeyedByNameVersion(b)
    requires PathsExtend(a, path) && PathsExtend(b, path)
    ensures KeyedByNameVersion(a + b) && PathsExtend(a + b, path)
  {
    forall i | 0 <= i < |a + b|
      ensures (a + b)[i].key == (a + b)[i].name + ":" + (a + b)[i].version
      ensures |path| <= |(a + b)[i].path| && (a + b)[i].path[|(a + b)[i].path| - |path|..] == path
    {
      if i >= |a| {
        assert (a + b)[i] == b[i - |a|];
      }
    }
  }

  /** A path that ends with `[key] + path` ends with `path`. */
  lemma PathsExtendShorter(visits: seq<Visit>, key: string, path: seq<string>)
    requires PathsExtend(visits, [key] + path)
    ensures PathsExtend(visits, path)
  {
    forall i | 0 <= i < |visits| ensures |path| <= |visits[i].path| && visits[i].path[|visits[i].path| - |path|..] == path {
      var p, inner := visits[i].path, [key] + path;
      assert p[|p| - |inner|..] == inner;
      assert p[|p| - |path|..] == p[|p| - |inner|..][1..];
    }
  }

  lemma {:induction false} ForestVisitsShape(nodes: seq<Node>, path: seq<string>)
    ensures KeyedByNameVersion(ForestVisits(nodes, path))
    ensures PathsExtend(ForestVisits(nodes, path), path)
    decreases nodes
  {
    if |nodes| > 0 {
      ForestVisitsShape(nodes[..|nodes| - 1], path);
      NodeVisitsShape(nodes[|nodes| - 1], path);
      ShapeAppend(ForestVisits(nodes[..|nodes| - 1], path), NodeVisits(nodes[|nodes| - 1], path), path);
    }
  }

  lemma {:induction false} NodeVisitsShape(n: Node, path: seq<string>)
    ensures KeyedByNameVersion(NodeVisits(n, path))
    ensures PathsExtend(NodeVisits(n, path), path)
    decreases n
  {
    ForestVisitsShape(n.children, [NodeKey(n)] + path);
    PathsExtendShorter(ForestVisits(n.children, [NodeKey(n)] + path), NodeKey(n), path);
    var own := match n.version
      case Some(v) => [Visit(NodeKey(n), n.name, v, path)]
      case None => [];
    assert |own| == 1 ==> own[0].path == path;
    assert own[..] == own && path[|path| - |path|..] == path;
    ShapeAppend(own, ForestVisits(n.children, [NodeKey(n)] + path), path);
  }

  /** A node without a version produces no visit of its own: only its descendants are visited. */
  lemma VersionlessNodeSkipped(n: Node, path: seq<string>)
    requires n.version.None?
    ensures NodeVisits(n, path) == ForestVisits(n.children, [n.name + ":"] + path)
  {
    assert NodeKey(n) == n.name + ":" + "" == n.name + ":";
  }

  // ---------------------------------------------------------------------------------------
  // The invariant of the map

  /** Every record is stored under its own `name:version`. */
  predicate KeyedRecords(m: DependencyMap)
  {
    forall key :: key in m ==> key == m[key].name + ":" + m[key].version
  }

  /**
   * Every record is stored under its own `name:version`, lists each scope once, was reached through
   * at least one path, and every one of its paths ends at the root module.
   */
  predicate WellFormed(m: DependencyMap, moduleId: string)
  {
    KeyedRecords(m) && forall key :: key in m ==> WellFormedRecord(m[key], moduleId)
  }

  /** A record lists each scope once, was reached through at least one path, and every path ends at the root module. */
  predicate WellFormedRecord(d: Dependency, moduleId: string)
  {
    && NoDuplicates(d.scopes)
    && |d.pathToRoot| > 0
    && forall i :: 0 <= i < |d.pathToRoot| ==> |d.pathToRoot[i]| > 0 && d.pathToRoot[i][|d.pathToRoot[i]| - 1] == moduleId
  }

  lemma UpsertWellFormed(m: DependencyMap, v: Visit, scope: string, moduleId: string)
    requires WellFormed(m, moduleId)
    requires v.key == v.name + ":" + v.version
    requires |v.path| > 0 && v.path[|v.path| - 1] == moduleId
    ensures WellFormed(Upsert(m, v.key, v.name, v.version, scope, v.path), moduleId)
  {
    var r := Upsert(m, v.key, v.name, v.version, scope, v.path);
    UpsertSpec(m, v.key, v.name, v.version, scope, v.path);
    var d := r[v.key];
    if v.key in m {
      assert d.name == m[v.key].name && d.version == m[v.key].version;
      assert WellFormedRecord(m[v.key], moduleId);
    }
    forall i | 0 <= i < |d.pathToRoot|
      ensures |d.pathToRoot[i]| > 0 && d.pathToRoot[i][|d.pathToRoot[i]| - 1] == moduleId
    {
      if i < |d.pathToRoot| - 1 {
        assert d.pathToRoot[i] == m[v.key].pathToRoot[i];
      }
    }
    assert WellFormedRecord(d, moduleId);
    forall k | k in r
      ensures k == r[k].name + ":" + r[k].version && WellFormedRecord(r[k], moduleId)
    {
      if k != v.key {
        assert r[k] == m[k];
      }
    }
  }

  lemma {:induction false} UpsertAllWellFormed(m: DependencyMap, visits: seq<Visit>, scope: string, moduleId: string)
    requires WellFormed(m, moduleId)
    requires KeyedByNameVersion(visits) && PathsExtend(visits, [moduleId])
    ensures WellFormed(UpsertAll(m, visits, scope), moduleId)
  {
    if |visits| > 0 {
      var init, v := visits[..|visits| - 1], visits[|visits| - 1];
      assert forall i :: 0 <= i < |init| ==> init[i] == visits[i];
      UpsertAllWellFormed(m, init, scope, moduleId);
      assert v.path[|v.path| - 1..] == [moduleId];
      UpsertWellFormed(UpsertAll(m, init, scope), v, scope, moduleId);
    }
  }

  // ---------------------------------------------------------------------------------------
  // setDependenciesList

  /** The map and the error the listings leave. */
  datatype Collected = Collected(dependencies: DependencyMap, error: Option<Error>)

  /** prepareDependencies: walk the listing of one scope from the path holding only the root module. */
  function PrepareDependencies(m: DependencyMap, listing: Listing, scope: string, moduleId: string): Collected
  {
    match listing
    case Malformed(e) => Collected(m, Some(e))
    case Listing(nodes) => Collected(Walk(m, nodes, scope, [moduleId]), None)
  }

  /**
   * setDependenciesList: start from an empty map, walk the "dev" listing unless only production
   * dependencies are installed, then the "prod" listing unless only development ones are; the
   * first listing that cannot be read stops the collection with its error.
   */
  function CollectedDependencies(restriction: TypeRestriction, dev: Listing, prod: Listing, moduleId: string): Collected
  {
    var afterDev := if restriction != ProdOnly then PrepareDependencies(map[], dev, "dev", moduleId) else Collected(map[], None);
    if afterDev.error.Some? then afterDev
    else if restriction != DevOnly then PrepareDependencies(afterDev.dependencies, prod, "prod", moduleId)
    else afterDev
  }

  /** The keys a listing visits when walked from the root module. */
  function ListedKeys(nodes: seq<Node>, moduleId: string): set<string>
  {
    VisitedKeys(ForestVisits(nodes, [moduleId]))
  }

  /** The map after the dev walk (when made), before the prod walk. */
  function AfterDevWalk(restriction: TypeRestriction, devNodes: seq<Node>, moduleId: string): DependencyMap
  {
    if restriction != ProdOnly then UpsertAll(map[], ForestVisits(devNodes, [moduleId]), "dev") else map[]
  }

  lemma CollectedUnfold(restriction: TypeRestriction, devNodes: seq<Node>, prodNodes: seq<Node>, moduleId: string)
    ensures var c := CollectedDependencies(restriction, Listing(devNodes), Listing(prodNodes), moduleId);
      var m1 := AfterDevWalk(restriction, devNodes, moduleId);
      && c.error == None
      && c.dependencies == if restriction != DevOnly then UpsertAll(m1, ForestVisits(prodNodes, [moduleId]), "prod") else m1
  {
  }

  /** The dev walk's contribution to one key: present when visited, scope "dev", one path per visit. */
  lemma AfterDevEntry(restriction: TypeRestriction, devNodes: seq<Node>, moduleId: string, key: string)
    ensures var m1 := AfterDevWalk(restriction, devNodes, moduleId);
      var inDev := restriction != ProdOnly && key in ListedKeys(devNodes, moduleId);
      && (key in m1 <==> inDev)
      && PriorScopes(m1, key) == (if inDev then ["dev"] else [])
      && PriorPaths(m1, key) == (if restriction != ProdOnly then PathsOf(ForestVisits(devNodes, [moduleId]), key) else [])
  {
    var devVisits := ForestVisits(devNodes, [moduleId]);
    var empty: DependencyMap := map[];
    if restriction != ProdOnly {
      var m1 := UpsertAll(empty, devVisits, "dev");
      UpsertAllKeys(empty, devVisits, "dev");
      if key in m1 {
        UpsertAllScopes(empty, devVisits, "dev", key);
        UpsertAllPaths(empty, devVisits, "dev", key);
      } else {
        PathsOfUnvisited(devVisits, key);
      }
    }
  }

  /**
   * What setDependenciesList records for a key when both listings can be read: present exactly when
   * a walked listing visits it; its scopes are "dev" then "prod", each once, for the walked listings
   * that visit it; its paths are one per visit, those of the dev walk first.
   */
  lemma CollectedEntry(restriction: TypeRestriction, devNodes: seq<Node>, prodNodes: seq<Node>, moduleId: string, key: string)
    ensures var c := CollectedDependencies(restriction, Listing(devNodes), Listing(prodNodes), moduleId);
      var inDev := restriction != ProdOnly && key in ListedKeys(devNodes, moduleId);
      var inProd := restriction != DevOnly && key in ListedKeys(prodNodes, moduleId);
      && c.error == None
      && (key in c.dependencies <==> inDev || inProd)
      && (key in c.dependencies ==>
            && c.dependencies[key].scopes == (if inDev then ["dev"] else []) + (if inProd then ["prod"] else [])
            && c.dependencies[key].pathToRoot
               == (if restriction != ProdOnly then PathsOf(ForestVisits(devNodes, [moduleId]), key) else [])
                  + (if restriction != DevOnly then PathsOf(ForestVisits(prodNodes, [moduleId]), key) else []))
  {
    CollectedUnfold(restriction, devNodes, prodNodes, moduleId);
    AfterDevEntry(restriction, devNodes, moduleId, key);
    var m1 := AfterDevWalk(restriction, devNodes, moduleId);
    var prodVisits := ForestVisits(prodNodes, [moduleId]);
    if restriction != DevOnly {
      var m2 := UpsertAll(m1, prodVisits, "prod");
      UpsertAllKeys(m1, prodVisits, "prod");
      if key in m2 {
        UpsertAllScopes(m1, prodVisits, "prod", key);
        UpsertAllPaths(m1, prodVisits, "prod", key);
      }
    } else {
      assert key in m1 ==> m1[key].pathToRoot == PriorPaths(m1, key);
    }
  }

  /** With no restriction, a dependency listed both as dev and as prod ends with the scopes "dev" and "prod", each exactly once. */
  lemma BothScopesOnce(restriction: TypeRestriction, devNodes: seq<Node>, prodNodes: seq<Node>, moduleId: string, key: string)
    requires restriction == DefaultRestriction || restriction == All
    requires key in ListedKeys(devNodes, moduleId) && key in ListedKeys(prodNodes, moduleId)
    ensures var c := CollectedDependencies(restriction, Listing(devNodes), Listing(prodNodes), moduleId);
      key in c.dependencies && c.dependencies[key].scopes == ["dev", "prod"]
  {
    CollectedEntry(restriction, devNodes, prodNodes, moduleId, key);
  }

  /** The collected map is well formed: records under their own key, scopes once, every path ending at the root module. */
  lemma CollectedWellFormed(restriction: TypeRestriction, dev: Listing, prod: Listing, moduleId: string)
    ensures WellFormed(CollectedDependencies(restriction, dev, prod, moduleId).dependencies, moduleId)
  {
    var empty: DependencyMap := map[];
    if dev.Listing? {
      ForestVisitsShape(dev.dependencies, [moduleId]);
      UpsertAllWellFormed(empty, ForestVisits(dev.dependencies, [moduleId]), "dev", moduleId);
    }
    var afterDev := if restriction != ProdOnly then PrepareDependencies(empty, dev, "dev", moduleId) else Collected(empty, None);
    if prod.Listing? {
      ForestVisitsShape(prod.dependencies, [moduleId]);
      UpsertAllWellFormed(afterDev.dependencies, ForestVisits(prod.dependencies, [moduleId]), "prod", moduleId);
    }
  }

  /**
   * A dependency `a` with a dependency `b` of its own, walked from the root module: `a` is recorded
   * under the root's path, `b` under the path `[a's key, root]` (the path of its parent).
   */
  lemma TwoLevelExample(aName: string, aVersion: string, bName: string, bVersion: string, root: string, scope: string)
    requires aName + ":" + aVersion != bName + ":" + bVersion
    ensures var b := Node(bName, Some(bVersion), []);
      var a := Node(aName, Some(aVersion), [b]);
      var aKey, bKey := aName + ":" + aVersion, bName + ":" + bVersion;
      Walk(map[], [a], scope, [root])
        == map[aKey := Dependency(aName, aVersion, [scope], "", None, [[root]]),
               bKey := Dependency(bName, bVersion, [scope], "", None, [[aKey, root]])]
  {
    var b := Node(bName, Some(bVersion), []);
    var a := Node(aName, Some(aVersion), [b]);
    var aKey, bKey := NodeKey(a), NodeKey(b);
    var va := Visit(aKey, aName, aVersion, [root]);
    var vb := Visit(bKey, bName, bVersion, [aKey, root]);
    assert [aKey] + [root] == [aKey, root];
    assert [b][..0] == [] && [a][..0] == [];
    assert NodeVisits(b, [aKey, root]) == [vb] + ForestVisits([], [bKey, aKey, root]) == [vb];
    assert ForestVisits([b], [aKey, root]) == ForestVisits([], [aKey, root]) + [vb] == [vb];
    assert NodeVisits(a, [root]) == [va, vb];
    assert ForestVisits([a], [root]) == [va, vb];
    assert [va, vb][..1] == [va] && [va][..0] == [];
    assert UpsertAll(map[], [va], scope) == map[aKey := Dependency(aName, aVersion, [scope], "", None, [[root]])];
  }

  /** A member listed without a version (a peer dependency) is left out, but its own dependencies are still recorded, under `name:`. */
  lemma VersionlessExample(peerName: string, cName: string, cVersion: string, root: string, scope: string)
    ensures var c := Node(cName, Some(cVersion), []);
      var peer := Node(peerName, None, [c]);
      Walk(map[], [peer], scope, [root])
        == map[cName + ":" + cVersion := Dependency(cName, cVersion, [scope], "", None, [[peerName + ":", root]])]
  {
    var c := Node(cName, Some(cVersion), []);
    var peer := Node(peerName, None, [c]);
    assert NodeKey(peer) == peerName + ":";
    assert [peer][..0] == [] && [c][..0] == [];
    var vc := Visit(NodeKey(c), cName, cVersion, [peerName + ":", root]);
    assert [peerName + ":"] + [root] == [peerName + ":", root];
    assert NodeVisits(c, [peerName + ":", root]) == [vc] + ForestVisits([], [NodeKey(c), peerName + ":", root]) == [vc];
    assert ForestVisits([c], [peerName + ":", root]) == ForestVisits([], [peerName + ":", root]) + [vc] == [vc];
    assert NodeVisits(peer, [root]) == [vc];
    assert ForestVisits([peer], [root]) == [vc];
    assert [vc][..0] == [];
    assert UpsertAll(map[], [vc], scope) == map[NodeKey(c) := Dependency(cName, cVersion, [scope], "", None, [[peerName + ":", root]])];
  }
}
