/**
 * The checksum task run for every collected dependency, and the split of the enriched records
 * into the dependencies recorded in the build info and the ones reported missing.
 *
 * The lookup (a previous build's record or Artifactory) is a parameter: which of the two answers
 * is not part of this model.
 */
module Manifest {
  import opened Wrappers
  import opened DependencyTree

  /** What the lookup of one `name`, `version` returns: a checksum or nil, a file type, an error or nil. */
  datatype DependencyInfo = DependencyInfo(checksum: Option<Checksum>, fileType: string, error: Option<Error>)

  /** The lookup the checksum task calls (commandUtils.GetDependencyInfo with its build and service arguments bound). */
  type Lookup = (string, string) -> DependencyInfo

  /** The record after the checksum task: updated only when the lookup succeeded with a checksum. */
  function ApplyInfo(d: Dependency, info: DependencyInfo): Dependency
  {
    if info.error.Some? || info.checksum.None? then d
    else d.(fileType := info.fileType, checksum := info.checksum)
  }

  /** The information the lookup returns for a record. */
  function InfoOf(lookup: Lookup, d: Dependency): DependencyInfo
  {
    lookup(d.name, d.version)
  }

  /** The map after the checksum task has run once for every key, in any order. */
  function Enriched(m: DependencyMap, lookup: Lookup): DependencyMap
  {
    map key | key in m :: ApplyInfo(m[key], InfoOf(lookup, m[key]))
  }

  /**
   * The task changes nothing but the file type and checksum of its own record, and those only when
   * the lookup returned no error and a checksum; a lookup that fails or finds nothing leaves the record as it was.
   */
  lemma ApplyInfoChanges(d: Dependency, info: DependencyInfo)
    ensures var e := ApplyInfo(d, info);
      && e.name == d.name && e.version == d.version && e.scopes == d.scopes && e.pathToRoot == d.pathToRoot
      && (if info.error.None? && info.checksum.Some?
          then e.checksum == info.checksum && e.fileType == info.fileType
          else e == d)
  {
  }

  /** Running every task a second time with the same answers changes nothing more. */
  lemma EnrichedIdempotent(m: DependencyMap, lookup: Lookup)
    ensures Enriched(Enriched(m, lookup), lookup) == Enriched(m, lookup)
  {
    var once := Enriched(m, lookup);
    forall key | key in m ensures Enriched(once, lookup)[key] == once[key] {
      ApplyInfoChanges(m[key], InfoOf(lookup, m[key]));
    }
  }

  /** Enrichment keeps the keys and the walk's data, so a well-formed map stays well formed. */
  lemma EnrichedWellFormed(m: DependencyMap, lookup: Lookup, moduleId: string)
    requires WellFormed(m, moduleId)
    ensures Enriched(m, lookup).Keys == m.Keys
    ensures WellFormed(Enriched(m, lookup), moduleId)
  {
    forall key | key in m ensures Enriched(m, lookup)[key].(fileType := m[key].fileType, checksum := m[key].checksum) == m[key] {
      ApplyInfoChanges(m[key], InfoOf(lookup, m[key]));
    }
  }

  // ---------------------------------------------------------------------------------------
  // transformDependencies

  /** A dependency of the build info. */
  datatype BuildInfoDependency = BuildInfoDependency(
    id: string,
    fileType: string,
    scopes: seq<string>,
    checksum: Option<Checksum>,
    requestedBy: seq<seq<string>>)

  function ToBuildInfo(d: Dependency): (b: BuildInfoDependency)
  {
    BuildInfoDependency(d.name + ":" + d.version, d.fileType, d.scopes, d.checksum, d.pathToRoot)
  }

  function Ids(deps: seq<BuildInfoDependency>): (ids: seq<string>)
    ensures |ids| == |deps|
  {
    seq(|deps|, i requires 0 <= i < |deps| => deps[i].id)
  }

  /** The ids of the dependencies of a list. */
  function IdSet(deps: seq<BuildInfoDependency>): set<string>
  {
    set i | 0 <= i < |deps| :: deps[i].id
  }

  /** `order` lists every key of `m` once: an order in which a loop over the map may meet them. */
  ghost predicate IsKeyOrder(m: DependencyMap, order: seq<string>)
  {
    NoDuplicates(order) && forall key :: key in order <==> key in m
  }

  /**
   * transformDependencies, for the keys met in `order`: every record converted to build info and
   * appended to the first list when it has a checksum, to the second otherwise.
   */
  function SplitByChecksum(m: DependencyMap, order: seq<string>): (lists: (seq<BuildInfoDependency>, seq<BuildInfoDependency>))
    requires forall key :: key in order ==> key in m
    ensures |lists.0| + |lists.1| == |order|
  {
    if |order| == 0 then ([], [])
    else
      var (resolved, missing) := SplitByChecksum(m, order[..|order| - 1]);
      var d := ToBuildInfo(m[order[|order| - 1]]);
      if d.checksum.Some? then (resolved + [d], missing) else (resolved, missing + [d])
  }

  /**
   * `resolved` and `missing` hold every record of `m` exactly once, converted to build info: the
   * ones with a checksum in `resolved`, the others in `missing`; in any order.
   */
  predicate IsPartition(m: DependencyMap, resolved: seq<BuildInfoDependency>, missing: seq<BuildInfoDependency>)
  {
    && (forall i :: 0 <= i < |resolved| ==>
          resolved[i].id in m && resolved[i] == ToBuildInfo(m[resolved[i].id]) && resolved[i].checksum.Some?)
    && (forall i :: 0 <= i < |missing| ==>
          missing[i].id in m && missing[i] == ToBuildInfo(m[missing[i].id]) && missing[i].checksum.None?)
    && NoDuplicates(Ids(resolved)) && NoDuplicates(Ids(missing))
    && IdSet(resolved) + IdSet(missing) == m.Keys
  }

  /**
   * `list` holds converted records of keys met in `order`, each key at most once, all with a
   * checksum when `withChecksum` and all without otherwise.
   */
  predicate ConvertedFrom(m: DependencyMap, order: seq<string>, list: seq<BuildInfoDependency>, withChecksum: bool)
  {
    && (forall i :: 0 <= i < |list| ==>
          list[i].id in order && list[i].id in m && list[i] == ToBuildInfo(m[list[i].id])
          && list[i].checksum.Some? == withChecksum)
    && NoDuplicates(Ids(list))
  }

  /** Appending the record of a key not met before keeps a list converted, and adds that key to its ids. */
  lemma ConvertedSnoc(m: DependencyMap, init: seq<string>, key: string, list: seq<BuildInfoDependency>, withChecksum: bool)
    requires KeyedRecords(m) && key in m && key !in init
    requires ConvertedFrom(m, init, list, withChecksum)
    requires ToBuildInfo(m[key]).checksum.Some? == withChecksum
    ensures ConvertedFrom(m, init + [key], list + [ToBuildInfo(m[key])], withChecksum)
    ensures IdSet(list + [ToBuildInfo(m[key])]) == IdSet(list) + {key}
  {
    var d := ToBuildInfo(m[key]);
    var longer := list + [d];
    assert d.id == key;
    assert forall i :: 0 <= i < |list| ==> longer[i] == list[i];
    assert longer[|list|] == d;
    assert Ids(longer) == Ids(list) + [key];
    assert key !in Ids(list);
  }

  /** A list converted from the keys met so far stays so when one more key is met. */
  lemma ConvertedWiden(m: DependencyMap, init: seq<string>, key: string, list: seq<BuildInfoDependency>, withChecksum: bool)
    requires ConvertedFrom(m, init, list, withChecksum)
    ensures ConvertedFrom(m, init + [key], list, withChecksum)
  {
  }

  /**
   * The split of the first keys of an order, when every record is stored under its own
   * `name:version`: each list holds the converted records of the keys met, with and without a
   * checksum, and together their ids are exactly those keys.
   */
  lemma {:induction false} SplitPrefix(m: DependencyMap, order: seq<string>)
    requires KeyedRecords(m) && NoDuplicates(order) && forall key :: key in order ==> key in m
    ensures var (resolved, missing) := SplitByChecksum(m, order);
      && ConvertedFrom(m, order, resolved, true)
      && ConvertedFrom(m, order, missing, false)
      && IdSet(resolved) + IdSet(missing) == set key | key in order
  {
    if |order| > 0 {
      var init := order[..|order| - 1];
      var key := order[|order| - 1];
      assert order == init + [key];
      assert key !in init;
      SplitPrefix(m, init);
      var (resolved, missing) := SplitByChecksum(m, init);
      var d := ToBuildInfo(m[key]);
      assert (set k | k in order) == (set k | k in init) + {key};
      if d.checksum.Some? {
        assert SplitByChecksum(m, order) == (resolved + [d], missing);
        ConvertedSnoc(m, init, key, resolved, true);
        ConvertedWiden(m, init, key, missing, false);
      } else {
        assert SplitByChecksum(m, order) == (resolved, missing + [d]);
        ConvertedWiden(m, init, key, resolved, true);
        ConvertedSnoc(m, init, key, missing, false);
      }
    }
  }

  /** When keys are `name:version`, the split over any key order is a partition of the map. */
  lemma SplitIsPartition(m: DependencyMap, order: seq<string>)
    requires KeyedRecords(m) && IsKeyOrder(m, order)
    ensures IsPartition(m, SplitByChecksum(m, order).0, SplitByChecksum(m, order).1)
  {
    SplitPrefix(m, order);
  }

  /** A sequence without repetitions holds each of its elements once. */
  lemma {:induction false} MultisetOfNoDuplicates<T>(s: seq<T>, x: T)
    requires NoDuplicates(s)
    ensures multiset(s)[x] == if x in s then 1 else 0
  {
    if |s| > 0 {
      var init := s[..|s| - 1];
      assert s == init + [s[|s| - 1]];
      MultisetOfNoDuplicates(init, x);
      if x == s[|s| - 1] {
        assert x !in init;
      }
    }
  }

  lemma SameElementsSameMultiset<T>(s: seq<T>, t: seq<T>)
    requires NoDuplicates(s) && NoDuplicates(t)
    requires forall x :: x in s <==> x in t
    ensures multiset(s) == multiset(t)
  {
    forall x ensures multiset(s)[x] == multiset(t)[x] {
      MultisetOfNoDuplicates(s, x);
      MultisetOfNoDuplicates(t, x);
    }
  }

  lemma NoDuplicatesByIds(deps: seq<BuildInfoDependency>)
    requires NoDuplicates(Ids(deps))
    ensures NoDuplicates(deps)
  {
    forall i, j | 0 <= i < j < |deps| ensures deps[i] != deps[j] {
      assert Ids(deps)[i] != Ids(deps)[j];
    }
  }

  /** The records with an id in `m` that match their map entry. */
  predicate Converted(m: DependencyMap, b: BuildInfoDependency)
  {
    b.id in m && b == ToBuildInfo(m[b.id])
  }

  /** A partition holds exactly the converted records, split by whether they carry a checksum. */
  lemma PartitionMembers(m: DependencyMap, resolved: seq<BuildInfoDependency>, missing: seq<BuildInfoDependency>, b: BuildInfoDependency)
    requires IsPartition(m, resolved, missing)
    ensures b in resolved <==> Converted(m, b) && b.checksum.Some?
    ensures b in missing <==> Converted(m, b) && b.checksum.None?
  {
    if Converted(m, b) {
      assert b.id in IdSet(resolved) + IdSet(missing);
      if b.id in IdSet(resolved) {
        var j :| 0 <= j < |resolved| && resolved[j].id == b.id;
      } else {
        var j :| 0 <= j < |missing| && missing[j].id == b.id;
      }
    }
  }

  /** Which record lands in which list is fixed by the map: two partitions differ only in order. */
  lemma PartitionUnique(m: DependencyMap, r1: seq<BuildInfoDependency>, m1: seq<BuildInfoDependency>,
                        r2: seq<BuildInfoDependency>, m2: seq<BuildInfoDependency>)
    requires IsPartition(m, r1, m1) && IsPartition(m, r2, m2)
    ensures multiset(r1) == multiset(r2) && multiset(m1) == multiset(m2)
  {
    forall b ensures (b in r1 <==> b in r2) && (b in m1 <==> b in m2) {
      PartitionMembers(m, r1, m1, b);
      PartitionMembers(m, r2, m2, b);
    }
    NoDuplicatesByIds(r1);
    NoDuplicatesByIds(r2);
    NoDuplicatesByIds(m1);
    NoDuplicatesByIds(m2);
    SameElementsSameMultiset(r1, r2);
    SameElementsSameMultiset(m1, m2);
  }

  /** Map iteration order does not matter: two loops over the same map produce the same lists up to order. */
  lemma SplitOrderIrrelevant(m: DependencyMap, o1: seq<string>, o2: seq<string>)
    requires KeyedRecords(m) && IsKeyOrder(m, o1) && IsKeyOrder(m, o2)
    ensures multiset(SplitByChecksum(m, o1).0) == multiset(SplitByChecksum(m, o2).0)
    ensures multiset(SplitByChecksum(m, o1).1) == multiset(SplitByChecksum(m, o2).1)
  {
    SplitIsPartition(m, o1);
    SplitIsPartition(m, o2);
    PartitionUnique(m, SplitByChecksum(m, o1).0, SplitByChecksum(m, o1).1, SplitByChecksum(m, o2).0, SplitByChecksum(m, o2).1);
  }
}

/** The scenario of a lookup that finds one dependency and not the other. */
module ManifestExample {
  import opened Wrappers
  import opened DependencyTree
  import opened Manifest

  const C: Dependency := Dependency("c", "3.0.0", ["prod"], "", None, [["app@1.0.0"]])
  const D: Dependency := Dependency("d", "4.0.0", ["prod"], "", None, [["app@1.0.0"]])
  const DigestD: Checksum := Checksum("d-sha1", "d-md5")

  /** `c` is not found (no checksum, no error); `d` has a checksum. */
  function ScenarioLookup(name: string, version: string): DependencyInfo
  {
    if name == "d" then DependencyInfo(Some(DigestD), "tgz", None) else DependencyInfo(None, "", None)
  }

  const Before: DependencyMap := map["c:3.0.0" := C, "d:4.0.0" := D]
  const After: DependencyMap := map["c:3.0.0" := C, "d:4.0.0" := D.(fileType := "tgz", checksum := Some(DigestD))]

  lemma ScenarioEnriched()
    ensures Enriched(Before, ScenarioLookup) == After
    ensures forall key :: key in Before ==> InfoOf(ScenarioLookup, Before[key]).error.None?
  {
    assert Before.Keys == {"c:3.0.0", "d:4.0.0"};
  }

  lemma ScenarioPartition()
    ensures IsPartition(After, [ToBuildInfo(After["d:4.0.0"])], [ToBuildInfo(C)])
  {
    var dB, cB := ToBuildInfo(After["d:4.0.0"]), ToBuildInfo(C);
    assert dB.id == "d:4.0.0" && cB.id == "c:3.0.0";
    assert IdSet([dB]) == {"d:4.0.0"} by { assert [dB][0] == dB; }
    assert IdSet([cB]) == {"c:3.0.0"} by { assert [cB][0] == cB; }
  }

  /**
   * Whatever order the map is met in, `d:4.0.0` is the one resolved dependency and `c:3.0.0` the one
   * missing, and no task reports an error.
   */
  lemma NotFoundGoesToMissing(order: seq<string>)
    requires IsKeyOrder(Enriched(Before, ScenarioLookup), order)
    ensures var lists := SplitByChecksum(Enriched(Before, ScenarioLookup), order);
      && multiset(lists.0) == multiset{ToBuildInfo(D.(fileType := "tgz", checksum := Some(DigestD)))}
      && multiset(lists.1) == multiset{ToBuildInfo(C)}
    ensures forall key :: key in Before ==> InfoOf(ScenarioLookup, Before[key]).error.None?
  {
    ScenarioEnriched();
    ScenarioPartition();
    assert KeyedRecords(After) by {
      assert After.Keys == {"c:3.0.0", "d:4.0.0"};
    }
    SplitIsPartition(After, order);
    PartitionUnique(After, SplitByChecksum(After, order).0, SplitByChecksum(After, order).1,
                    [ToBuildInfo(After["d:4.0.0"])], [ToBuildInfo(C)]);
  }
}
