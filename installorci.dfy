/**
 * The command object of `npm install`/`npm ci` and the in-memory steps it runs: the translation
 * of `npm config list` into the project `.npmrc`, the collection of the dependency tree printed by
 * `npm ls`, the checksum tasks and the split into build-info dependencies.
 *
 * Every method is proved against the specification functions of NpmrcConfig, DependencyTree and
 * Manifest, whose properties are proved there.
 */
module InstallOrCi {
  import opened Wrappers
  import opened Text
  import opened Seqs
  import opened NpmrcConfig
  import opened DependencyTree
  import opened Manifest
  import opened NpmArguments

  /** addArrayConfigs: append one `key[] = element` directive and a newline per element of a list value. */
  method AddArrayConfigs(conf: seq<string>, key: string, arrayValue: string) returns (r: seq<string>)
    ensures r == conf + Terminated(ArrayDirectives(key, arrayValue))
  {
    if arrayValue == "[]" {
      return conf;
    }
    var valuesSlice := ArrayElements(arrayValue);
    r := conf;
    for i := 0 to |valuesSlice|
      invariant r == conf + Terminated(ElementDirectives(key, valuesSlice[..i]))
    {
      var confToAdd := key + "[] = " + valuesSlice[i];
      ElementDirectivesStep(conf, key, valuesSlice, i);
      r := r + [confToAdd, "\n"];
    }
    assert valuesSlice[..|valuesSlice|] == valuesSlice;
  }

  /** scopeAlreadyExists */
  method ScopeAlreadyExists(scope: string, existingScopes: seq<string>) returns (found: bool)
    ensures found <==> scope in existingScopes
  {
    for i := 0 to |existingScopes|
      invariant scope !in existingScopes[..i]
    {
      if existingScopes[i] == scope {
        return true;
      }
    }
    return false;
  }

  /** filterFlags */
  method FilterFlags(splitArgs: seq<string>) returns (filteredArgs: seq<string>)
    ensures filteredArgs == NonFlags(splitArgs)
  {
    filteredArgs := [];
    for i := 0 to |splitArgs|
      invariant filteredArgs == NonFlags(splitArgs[..i])
    {
      assert splitArgs[..i + 1][..i] == splitArgs[..i];
      if !HasPrefix(splitArgs[i], "-") {
        filteredArgs := filteredArgs + [splitArgs[i]];
      }
    }
    assert splitArgs[..|splitArgs|] == splitArgs;
  }

  /**
   * NpmCommandArgs, with the fields the in-memory steps read and write. The fields the
   * prerequisites fill from npm and Artifactory (the json flag, the registry, the auth text, the
   * build-info module id) are given to the constructor.
   */
  class NpmCommandArgs {
    var jsonOutput: bool
    var registry: string
    var npmAuth: string
    var moduleId: string
    var typeRestriction: TypeRestriction
    var dependencies: DependencyMap

    constructor (jsonOutput: bool, registry: string, npmAuth: string, moduleId: string)
      ensures this.jsonOutput == jsonOutput && this.registry == registry && this.npmAuth == npmAuth
      ensures this.moduleId == moduleId
      ensures typeRestriction == DefaultRestriction && dependencies == map[]
    {
      this.jsonOutput := jsonOutput;
      this.registry := registry;
      this.npmAuth := npmAuth;
      this.moduleId := moduleId;
      typeRestriction := DefaultRestriction;
      dependencies := map[];
    }

    /** setTypeRestriction */
    method SetTypeRestriction(key: string, value: string)
      modifies this`typeRestriction
      ensures typeRestriction == NextRestriction(old(typeRestriction), key, value)
    {
      if key == "omit" {
        if Contains(value, "dev") {
          typeRestriction := ProdOnly;
        } else {
          typeRestriction := All;
        }
      } else if typeRestriction == DefaultRestriction {
        if key == "only" {
          if Contains(value, "prod") {
            typeRestriction := ProdOnly;
          } else if Contains(value, "dev") {
            typeRestriction := DevOnly;
          }
        } else if key == "production" && Contains(value, "true") {
          typeRestriction := ProdOnly;
        }
      }
    }

    /**
     * One iteration of the scan in prepareConfigData: the pieces the line adds to the configuration
     * join to its directives, and a kept setting goes through setTypeRestriction.
     */
    method ScanLine(filteredConf: seq<string>, currOption: string) returns (conf: seq<string>)
      modifies this`typeRestriction
      ensures Concat(conf) == Concat(filteredConf) + Concat(Terminated(LineDirectives(currOption, registry)))
      ensures typeRestriction == RestrictionAfter(old(typeRestriction), [Setting(currOption)])
    {
      LineCases(currOption, registry);
      ghost var added := LineDirectives(currOption, registry);
      assert [Setting(currOption)][..0] == [];
      conf := filteredConf;
      if currOption != "" {
        var (left, right) := SplitOnce(currOption, '=');
        var key := TrimSpace(left);
        if right.Some? && IsValidKey(key) {
          var value := TrimSpace(right.value);
          if HasPrefix(value, "[") && HasSuffix(value, "]") {
            conf := AddArrayConfigs(filteredConf, key, value);
            ConcatAppend(filteredConf, Terminated(added));
          } else {
            conf := filteredConf + [currOption, "\n"];
            TerminatedOne(currOption);
            ConcatAppend(filteredConf, [currOption, "\n"]);
          }
          SetTypeRestriction(key, value);
        } else if HasPrefix(left, "@") {
          conf := filteredConf + [left, " = ", registry, "\n"];
          ScopedPieces(left, registry);
          ConcatAppend(filteredConf, [left, " = ", registry, "\n"]);
        }
      }
    }

    /**
     * prepareConfigData, on the lines the scanner yields; `scanError` is the error it stopped on, if
     * any. The restriction is updated by every kept setting scanned, even when the scan then fails.
     */
    method PrepareConfigData(lines: seq<string>, scanError: Option<Error>) returns (r: Result<string>)
      modifies this`typeRestriction
      ensures typeRestriction == RestrictionAfter(old(typeRestriction), Settings(lines))
      ensures scanError.Some? ==> r == Failure(scanError.value)
      ensures scanError.None? ==> r == Success(NpmrcText(lines, jsonOutput, registry, npmAuth))
    {
      var filteredConf: seq<string> := [];
      for i := 0 to |lines|
        invariant Concat(filteredConf) == Concat(Terminated(ConfigDirectives(lines[..i], registry)))
        invariant typeRestriction == RestrictionAfter(old(typeRestriction), Settings(lines[..i]))
      {
        LinesStep(lines, i, registry);
        RestrictionAppend(old(typeRestriction), Settings(lines[..i]), [Setting(lines[i])]);
        ghost var conf := filteredConf;
        filteredConf := ScanLine(filteredConf, lines[i]);
        JoinedStep(conf, filteredConf, ConfigDirectives(lines[..i], registry), LineDirectives(lines[i], registry));
      }
      assert lines[..|lines|] == lines;
      if scanError.Some? {
        return Failure(scanError.value);
      }
      var tail := ["json = ", FormatBool(jsonOutput), "\n", "registry = ", registry, "\n", npmAuth];
      ConcatAppend(filteredConf, tail);
      ConcatAppend(Terminated(ConfigDirectives(lines, registry)), tail);
      return Success(Concat(filteredConf + tail));
    }

    /** appendDependency */
    method AppendDependency(depKey: string, depName: string, depVersion: string, scope: string, pathToRoot: seq<string>)
      modifies this`dependencies
      ensures dependencies == Upsert(old(dependencies), depKey, depName, depVersion, scope, pathToRoot)
    {
      ghost var m := dependencies;
      if depKey !in dependencies {
        dependencies := dependencies[depKey := Dependency(depName, depVersion, [scope], "", None, [])];
      } else {
        var known := ScopeAlreadyExists(scope, dependencies[depKey].scopes);
        if !known {
          dependencies := dependencies[depKey := dependencies[depKey].(scopes := dependencies[depKey].scopes + [scope])];
        }
        assert dependencies == m[depKey := m[depKey].(scopes := AddScope(m[depKey].scopes, scope))];
      }
      dependencies := dependencies[depKey := dependencies[depKey].(pathToRoot := dependencies[depKey].pathToRoot + [pathToRoot])];
      if depKey !in m {
        assert dependencies[depKey] == Dependency(depName, depVersion, [scope], "", None, [pathToRoot]);
      } else {
        assert dependencies[depKey] == m[depKey].(scopes := AddScope(m[depKey].scopes, scope), pathToRoot := m[depKey].pathToRoot + [pathToRoot]);
      }
    }

    /**
     * parseDependencies: walk the members of a `dependencies` object in order, recording each one
     * that has a version under the parent path, and walking its own dependencies under its key.
     */
    method ParseDependencies(nodes: seq<Node>, scope: string, pathToRoot: seq<string>)
      modifies this`dependencies
      ensures dependencies == Walk(old(dependencies), nodes, scope, pathToRoot)
      decreases nodes
    {
      for i := 0 to |nodes|
        invariant dependencies == Walk(old(dependencies), nodes[..i], scope, pathToRoot)
      {
        var node := nodes[i];
        var depKey := node.name + ":" + VersionText(node.version);
        assert depKey == NodeKey(node);
        WalkStep(old(dependencies), nodes, i, scope, pathToRoot);
        NodeWalk(dependencies, node, scope, pathToRoot);
        if node.version.Some? {
          AppendDependency(depKey, node.name, node.version.value, scope, pathToRoot);
        }
        if |node.children| > 0 {
          ParseDependencies(node.children, scope, [depKey] + pathToRoot);
        }
      }
      assert nodes[..|nodes|] == nodes;
    }

    /** prepareDependencies: walk the listing of one scope from the path holding only the root module. */
    method PrepareDependencies(listing: Listing, scope: string) returns (err: Option<Error>)
      modifies this`dependencies
      ensures Collected(dependencies, err) == DependencyTree.PrepareDependencies(old(dependencies), listing, scope, moduleId)
    {
      match listing
      case Malformed(e) =>
        err := Some(e);
      case Listing(nodes) =>
        ParseDependencies(nodes, scope, [moduleId]);
        err := None;
    }

    /** setDependenciesList, given what `npm ls` prints for the dev and the prod listings. */
    method SetDependenciesList(dev: Listing, prod: Listing) returns (err: Option<Error>)
      modifies this`dependencies
      ensures Collected(dependencies, err) == CollectedDependencies(typeRestriction, dev, prod, moduleId)
    {
      dependencies := map[];
      err := None;
      if typeRestriction != ProdOnly {
        err := PrepareDependencies(dev, "dev");
        if err.Some? {
          return;
        }
      }
      if typeRestriction != DevOnly {
        err := PrepareDependencies(prod, "prod");
      }
    }

    /** The checksum task createGetDependencyInfoFunc builds for one key. */
    method DependencyInfoTask(dependencyIndex: string, lookup: Lookup) returns (err: Option<Error>)
      requires dependencyIndex in dependencies
      modifies this`dependencies
      ensures dependencies == old(dependencies)[dependencyIndex :=
        ApplyInfo(old(dependencies)[dependencyIndex], InfoOf(lookup, old(dependencies)[dependencyIndex]))]
      ensures err == InfoOf(lookup, old(dependencies)[dependencyIndex]).error
    {
      var name := dependencies[dependencyIndex].name;
      var ver := dependencies[dependencyIndex].version;
      var info := lookup(name, ver);
      if info.error.Some? || info.checksum.None? {
        return info.error;
      }
      dependencies := dependencies[dependencyIndex := dependencies[dependencyIndex].(fileType := info.fileType, checksum := info.checksum)];
      err := None;
    }

    /**
     * collectDependenciesChecksums, with the tasks run one after the other in some order of the keys:
     * every task runs, and the first error reported is returned.
     */
    method CollectDependenciesChecksums(lookup: Lookup) returns (err: Option<Error>)
      modifies this`dependencies
      ensures dependencies == Enriched(old(dependencies), lookup)
      ensures err.None? <==> forall key :: key in old(dependencies) ==> InfoOf(lookup, old(dependencies)[key]).error.None?
      ensures err.Some? ==> exists key :: key in old(dependencies) && InfoOf(lookup, old(dependencies)[key]).error == err
    {
      ghost var start := dependencies;
      var remaining := dependencies.Keys;
      err := None;
      while remaining != {}
        invariant remaining <= start.Keys && dependencies.Keys == start.Keys
        invariant forall key :: key in start ==>
          dependencies[key] == if key in remaining then start[key] else ApplyInfo(start[key], InfoOf(lookup, start[key]))
        invariant err.None? <==> forall key :: key in start && key !in remaining ==> InfoOf(lookup, start[key]).error.None?
        invariant err.Some? ==> exists key :: key in start && key !in remaining && InfoOf(lookup, start[key]).error == err
        decreases remaining
      {
        var key :| key in remaining;
        var taskErr := DependencyInfoTask(key, lookup);
        if err.None? {
          err := taskErr;
        }
        remaining := remaining - {key};
      }
    }

    /** transformDependencies: `order` is the order in which the loop meets the keys of the map. */
    method TransformDependencies() returns (resolved: seq<BuildInfoDependency>, missing: seq<BuildInfoDependency>, ghost order: seq<string>)
      ensures IsKeyOrder(dependencies, order)
      ensures (resolved, missing) == SplitByChecksum(dependencies, order)
    {
      var remaining := dependencies.Keys;
      resolved, missing, order := [], [], [];
      while remaining != {}
        invariant remaining <= dependencies.Keys && NoDuplicates(order)
        invariant forall key :: key in order <==> key in dependencies && key !in remaining
        invariant (resolved, missing) == SplitByChecksum(dependencies, order)
        decreases remaining
      {
        var key :| key in remaining;
        var dependency := dependencies[key];
        var biDependency := BuildInfoDependency(dependency.name + ":" + dependency.version, dependency.fileType,
          dependency.scopes, dependency.checksum, dependency.pathToRoot);
        if dependency.checksum.Some? {
          resolved := resolved + [biDependency];
        } else {
          missing := missing + [biDependency];
        }
        order := order + [key];
        remaining := remaining - {key};
      }
    }
  }
}
