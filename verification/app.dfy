/** The entry point's own copies of the producers and the repository skip
    (app.go). They use the flat layout of src/storage.go, and `versions`
    also builds each artifact's string key `namespace:package:version`. */
module App {
  import opened Prelude
  import opened Domain
  import opened Config
  import opened Registry
  import Storage
  import Ingest

  // ---------------------------------------------------------------------
  // The artifact key
  // ---------------------------------------------------------------------

  /** The key `versions` gives an artifact: the three parts joined by colons. */
  function MakeId(namespace: string, package: string, version: string): (id: string)
    ensures |id| == |namespace| + |package| + |version| + 2
    ensures id[|namespace|] == ':' && id[|namespace| + 1 + |package|] == ':'
    ensures id[..|namespace|] == namespace
    ensures id[|namespace| + 1..|namespace| + 1 + |package|] == package
    ensures id[|namespace| + 2 + |package|..] == version
  {
    namespace + ":" + package + ":" + version
  }

  /** Splits `s` at its first colon, if it has one. */
  function SplitAtColon(s: string): (r: Option<(string, string)>)
    ensures r.Some? ==> s == r.value.0 + ":" + r.value.1 && ':' !in r.value.0
    ensures r.None? ==> ':' !in s
    decreases |s|
  {
    if |s| == 0 then None
    else if s[0] == ':' then Some(([], s[1..]))
    else match SplitAtColon(s[1..]) {
      case None => None
      case Some((head, tail)) => Some(([s[0]] + head, tail))
    }
  }

  /** Reads a key back into namespace, package and version: the text before
      the first colon, between the first and second, and after the second. */
  function ParseId(id: string): (r: Option<(string, string, string)>)
    ensures r.Some? ==> MakeId(r.value.0, r.value.1, r.value.2) == id
    ensures r.Some? ==> ':' !in r.value.0 && ':' !in r.value.1
  {
    match SplitAtColon(id) {
      case None => None
      case Some((namespace, rest)) =>
        match SplitAtColon(rest) {
          case None => None
          case Some((package, version)) =>
            assert id == namespace + ":" + package + ":" + version;
            Some((namespace, package, version))
        }
    }
  }

  /** A colon-free prefix followed by a colon is exactly what the split finds. */
  lemma {:induction false} SplitAtColonOfJoin(head: string, tail: string)
    requires ':' !in head
    ensures SplitAtColon(head + ":" + tail) == Some((head, tail))
    decreases |head|
  {
    var s := head + ":" + tail;
    if |head| > 0 {
      assert s[0] == head[0];
      assert s[1..] == head[1..] + ":" + tail;
      SplitAtColonOfJoin(head[1..], tail);
      assert [head[0]] + head[1..] == head;
    } else {
      assert s[1..] == tail;
    }
  }

  /** Keys round-trip when the namespace and package hold no colon; the
      version may hold any text. */
  lemma IdRoundTrip(namespace: string, package: string, version: string)
    requires ':' !in namespace && ':' !in package
    ensures ParseId(MakeId(namespace, package, version)) == Some((namespace, package, version))
  {
    var id := MakeId(namespace, package, version);
    var rest := package + ":" + version;
    assert id == namespace + ":" + rest;
    SplitAtColonOfJoin(namespace, rest);
    assert SplitAtColon(id) == Some((namespace, rest));
    SplitAtColonOfJoin(package, version);
    assert SplitAtColon(rest) == Some((package, version));
  }

  /** Under the same condition two keys are equal iff their parts are. */
  lemma IdInjective(n1: string, p1: string, v1: string, n2: string, p2: string, v2: string)
    requires ':' !in n1 && ':' !in p1 && ':' !in n2 && ':' !in p2
    ensures MakeId(n1, p1, v1) == MakeId(n2, p2, v2) <==> n1 == n2 && p1 == p2 && v1 == v2
  {
    IdRoundTrip(n1, p1, v1);
    IdRoundTrip(n2, p2, v2);
  }

  /** Without that condition distinct artifacts can share a key, and the
      store keeps only one of them. */
  lemma IdCollision()
    ensures MakeId("a:b", "c", "d") == MakeId("a", "b:c", "d")
  {
    assert MakeId("a:b", "c", "d") == "a:b:c:d";
    assert MakeId("a", "b:c", "d") == "a:b:c:d";
  }

  // ---------------------------------------------------------------------
  // versions and packages
  // ---------------------------------------------------------------------

  /** `a` is the flat artifact built from version `v` of package `pack` in
      repository `repo` at time `now`, keyed by the joined identity. */
  predicate Stored(a: Storage.Artifact, repo: RepositorySummary, pack: PackageSummary, v: VersionSummary, now: Time) {
    && a.id == MakeId(pack.namespace, pack.package, v.version)
    && a.namespace == pack.namespace && a.package == pack.package && a.version == v.version
    && a.revision == v.revision && a.status == Domain.Status(v.status)
    && a.repository == repo.name && a.domainName == repo.domainName && a.format == pack.format
    && a.error.None? && a.createTime == now
  }

  /** A flat artifact whose only non-zero field is the error; its key is empty. */
  predicate ErrorOnly(a: Storage.Artifact) {
    && a.error.Some? && a.id == [] && a.namespace == [] && a.package == [] && a.version == []
    && a.repository == [] && a.revision == [] && a.domainName == [] && a.format == []
    && a.status == Domain.Status([]) && a.createTime == ZeroTime
  }

  function StoredArtifacts(repo: RepositorySummary, pack: PackageSummary, vs: seq<VersionSummary>, now: Time): (r: seq<Storage.Artifact>)
    ensures |r| == |vs|
    ensures forall i :: 0 <= i < |vs| ==> Stored(r[i], repo, pack, vs[i], now)
  {
    seq(|vs|, i requires 0 <= i < |vs| =>
      Storage.Artifact(repo.name, pack.namespace, pack.package, vs[i].version, vs[i].revision,
                       repo.domainName, pack.format, MakeId(pack.namespace, pack.package, vs[i].version),
                       None, Domain.Status(vs[i].status), now))
  }

  /** The version producer of app.go. The package must carry both summaries:
      the listing call reads through both pointers. */
  function Versions(spec: Specification, p: Domain.Package, script: seq<Reply<VersionsPage>>, now: Time): (r: Stream<Storage.Artifact>)
    requires p.repository.Some? && p.summary.Some?
    ensures var call := AllPackageVersions(spec, p.summary.value, p.repository.value, script);
      && r.closed == call.returned
      && (call.error.Some? ==> |r.values| == 1 && ErrorOnly(r.values[0]) && r.values[0].error == call.error)
      && (call.returned && call.error.None? ==>
            && |r.values| == |call.output.items|
            && forall i :: 0 <= i < |r.values| ==>
                 Stored(r.values[i], p.repository.value, p.summary.value, call.output.items[i], now))
      && (!call.returned ==> r.values == [])
  {
    var call := AllPackageVersions(spec, p.summary.value, p.repository.value, script);
    if !call.returned then Stream([], false)
    else if call.error.Some? then
      Stream([Storage.Artifact([], [], [], [], [], [], [], [], call.error, Domain.Status([]), ZeroTime)], true)
    else Stream(StoredArtifacts(p.repository.value, p.summary.value, call.output.items, now), true)
  }

  /** Both version producers send the same artifacts, in the same order, up
      to layout: same identity parts, revision, status, repository, domain,
      format, error and time. */
  lemma VersionsAgreeWithImport(spec: Specification, p: Domain.Package, script: seq<Reply<VersionsPage>>, now: Time)
    requires p.repository.Some? && p.summary.Some?
    ensures var flat := Versions(spec, p, script, now);
      var nested := Ingest.Versions(spec, p, script, now);
      && flat.closed == nested.closed && |flat.values| == |nested.values|
      && forall i :: 0 <= i < |flat.values| ==>
           var a := flat.values[i]; var b := nested.values[i];
           && a.namespace == b.id.namespace && a.package == b.id.package && a.version == b.id.version
           && a.revision == b.revision && a.status == b.status && a.repository == b.repository
           && a.domainName == b.domainName && a.format == b.format && a.error == b.error
           && a.createTime == b.createTime
  {
  }

  /** The package producer of app.go, the same loop as src/import.go's. */
  function Packages(spec: Specification, repo: RepositorySummary, script: seq<Reply<PackagesPage>>): (r: Stream<Domain.Package>)
    ensures var call := AllPackagesInRepo(spec, repo, script);
      && r.closed == call.returned
      && (forall p :: p in r.values ==> Domain.WellFormed(p))
      && (call.error.Some? ==> |r.values| == 1 && r.values[0].error == call.error)
      && (call.returned && call.error.None? ==>
            && |r.values| == |call.output.items|
            && forall i :: 0 <= i < |r.values| ==>
                 r.values[i].repository == Some(repo) && r.values[i].summary == Some(call.output.items[i]))
      && (!call.returned ==> r.values == [])
  {
    Ingest.Packages(spec, repo, script)
  }

  /** The repositories loadArtifacts goes on to process: those whose name is
      not on the skip list, in listing order. */
  function ReposToLoad(spec: Specification, repos: seq<RepositorySummary>): (r: seq<RepositorySummary>)
    ensures forall x: RepositorySummary :: x in r <==> x in repos && !Skip(spec, x.name)
    ensures forall x: RepositorySummary :: !Skip(spec, x.name) ==> multiset(r)[x] == multiset(repos)[x]
  {
    Ingest.ReposToLoad(spec, repos)
  }

  /** loadArtifacts does not stop on an errored artifact (the log call there
      is never sent), so a failed version listing is written to the store as
      a blank document under the empty key. */
  lemma FailedListingStoresBlankDocument(spec: Specification, p: Domain.Package, script: seq<Reply<VersionsPage>>, now: Time, table: Storage.Table)
    requires p.repository.Some? && p.summary.Some?
    requires AllPackageVersions(spec, p.summary.value, p.repository.value, script).error.Some?
    ensures var a := Versions(spec, p, script, now).values;
      var after := Storage.Upserted(table, a, [], |a|);
      && "" in after && after[""].namespace == "" && after[""].version == "" && after[""].error.None?
      && forall k :: k in table && k != "" ==> k in after && after[k] == table[k]
  {
    var a := Versions(spec, p, script, now).values;
    assert |a| == 1;
    assert Storage.Upserted(table, a, [], 0) == table;
  }
}
