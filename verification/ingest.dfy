/** The producers and guards of src/import.go around the batch accumulator:
    `Versions` turns a package's version listing into artifacts, `Packages`
    turns a repository's package listing into package pairings, `insertBatch`
    refuses a batch holding an errored artifact, and `LoadArtifacts` skips
    the configured repositories. A producer's channel is a `Stream`: the
    values sent, in order, and whether the channel was closed. */
module Ingest {
  import opened Prelude
  import opened Domain
  import opened Config
  import opened Registry
  import Batcher

  /** `a` is the artifact built from version `v` of package `pack` in
      repository `repo` at time `now`: identity and format from the package
      summary, name and domain from the repository summary, revision and
      status from the version summary, and no error or problems. */
  predicate Normalized(a: Artifact, repo: RepositorySummary, pack: PackageSummary, v: VersionSummary, now: Time) {
    && a.id == ArtifactId(pack.namespace, pack.package, v.version)
    && a.revision == v.revision && a.status == Status(v.status)
    && a.repository == repo.name && a.domainName == repo.domainName && a.format == pack.format
    && a.error.None? && a.problems == [] && a.createTime == now
  }

  /** One artifact per version summary, in listing order. */
  function VersionArtifacts(repo: RepositorySummary, pack: PackageSummary, vs: seq<VersionSummary>, now: Time): (r: seq<Artifact>)
    ensures |r| == |vs|
    ensures forall i :: 0 <= i < |vs| ==> Normalized(r[i], repo, pack, vs[i], now)
  {
    seq(|vs|, i requires 0 <= i < |vs| =>
      Artifact(ArtifactId(pack.namespace, pack.package, vs[i].version), repo.name, vs[i].revision,
               repo.domainName, pack.format, None, [], Status(vs[i].status), now))
  }

  /** The version producer. The package must carry both summaries: the
      listing call reads through both pointers. */
  function Versions(spec: Specification, p: Package, script: seq<Reply<VersionsPage>>, now: Time): (r: Stream<Artifact>)
    requires p.repository.Some? && p.summary.Some?
    ensures var call := AllPackageVersions(spec, p.summary.value, p.repository.value, script);
      && r.closed == call.returned
      && (call.error.Some? ==> |r.values| == 1 && CarriesOnlyError(r.values[0]) && r.values[0].error == call.error)
      && (call.returned && call.error.None? ==>
            && |r.values| == |call.output.items|
            && forall i :: 0 <= i < |r.values| ==>
                 Normalized(r.values[i], p.repository.value, p.summary.value, call.output.items[i], now))
      && (!call.returned ==> r.values == [])
  {
    var call := AllPackageVersions(spec, p.summary.value, p.repository.value, script);
    if !call.returned then Stream([], false)
    else if call.error.Some? then Stream([ErrorArtifact(call.error.value)], true)
    else Stream(VersionArtifacts(p.repository.value, p.summary.value, call.output.items, now), true)
  }

  /** The package producer: one pairing per listed package summary, all with
      the same repository, or a single error-only package. */
  function Packages(spec: Specification, repo: RepositorySummary, script: seq<Reply<PackagesPage>>): (r: Stream<Package>)
    ensures var call := AllPackagesInRepo(spec, repo, script);
      && r.closed == call.returned
      && (forall p :: p in r.values ==> WellFormed(p))
      && (call.error.Some? ==> |r.values| == 1 && r.values[0].error == call.error)
      && (call.returned && call.error.None? ==>
            && |r.values| == |call.output.items|
            && forall i :: 0 <= i < |r.values| ==>
                 r.values[i].repository == Some(repo) && r.values[i].summary == Some(call.output.items[i]))
      && (!call.returned ==> r.values == [])
  {
    var call := AllPackagesInRepo(spec, repo, script);
    if !call.returned then Stream([], false)
    else if call.error.Some? then Stream([ErrorPackage(call.error.value)], true)
    else Stream(seq(|call.output.items|, i requires 0 <= i < |call.output.items| => PairedPackage(repo, call.output.items[i])), true)
  }

  /** A complete version listing reaches the accumulator as one error-free
      artifact per listed version, in page order. */
  lemma CompleteListingGivesEveryVersion(spec: Specification, p: Package, pages: seq<VersionsPage>, now: Time)
    requires p.repository.Some? && p.summary.Some?
    requires |pages| > 0 && pages[|pages| - 1].nextToken.None?
    requires forall j :: 0 <= j < |pages| - 1 ==> pages[j].nextToken.Some?
    ensures var script := seq(|pages|, j requires 0 <= j < |pages| => Ok(pages[j]));
      var r := Versions(spec, p, script, now);
      var listed := Flatten(seq(|pages|, j requires 0 <= j < |pages| => pages[j].items));
      && r.closed && |r.values| == |listed|
      && forall i :: 0 <= i < |listed| ==>
           r.values[i].error.None? && r.values[i].id.version == listed[i].version
  {
    var script := seq(|pages|, j requires 0 <= j < |pages| => Ok(pages[j]));
    PagesStop(pages);
    OkItemsOfPages(pages);
    assert script[..OkCount(script)] == script;
  }

  // ---------------------------------------------------------------------
  // insertBatch
  // ---------------------------------------------------------------------

  /** What insertBatch does with a batch: exit with the first artifact error
      it finds, or hand the whole batch to the store. */
  datatype InsertStep = Fatal(cause: Error) | CallInsert(batch: seq<Artifact>)

  /** The position of the first artifact carrying an error, or the batch
      length if none does. */
  function FirstErrorIndex(batch: seq<Artifact>): (k: nat)
    ensures k <= |batch|
    ensures forall j :: 0 <= j < k ==> batch[j].error.None?
    ensures k < |batch| ==> batch[k].error.Some?
    decreases |batch|
  {
    if |batch| == 0 || batch[0].error.Some? then 0 else 1 + FirstErrorIndex(batch[1..])
  }

  /** The store is called only when no artifact of the batch carries an error. */
  function InsertBatch(batch: seq<Artifact>): (r: InsertStep)
    ensures r.Fatal? <==> exists i :: 0 <= i < |batch| && batch[i].error.Some?
    ensures r.Fatal? ==> exists i :: 0 <= i < |batch| && batch[i].error == Some(r.cause)
                                     && forall j :: 0 <= j < i ==> batch[j].error.None?
    ensures r.CallInsert? ==> r.batch == batch
  {
    var k := FirstErrorIndex(batch);
    if k < |batch| then Fatal(batch[k].error.value) else CallInsert(batch)
  }

  // ---------------------------------------------------------------------
  // LoadArtifacts
  // ---------------------------------------------------------------------

  /** The repositories LoadArtifacts goes on to process: those not skipped,
      in listing order. */
  function ReposToLoad(spec: Specification, repos: seq<RepositorySummary>): (r: seq<RepositorySummary>)
    ensures forall x: RepositorySummary :: x in r <==> x in repos && !Skip(spec, x.name)
    ensures forall x: RepositorySummary :: !Skip(spec, x.name) ==> multiset(r)[x] == multiset(repos)[x]
  {
    KeptCounts(spec, repos);
    Kept(spec, repos)
  }

  /** The loop over the listed repositories with its `continue` on a skipped name. */
  function Kept(spec: Specification, repos: seq<RepositorySummary>): (r: seq<RepositorySummary>)
    ensures |r| <= |repos|
    ensures forall i :: 0 <= i < |r| ==> !Skip(spec, r[i].name)
    decreases |repos|
  {
    if |repos| == 0 then []
    else (if Skip(spec, repos[0].name) then [] else [repos[0]]) + Kept(spec, repos[1..])
  }

  lemma {:induction false} KeptCounts(spec: Specification, repos: seq<RepositorySummary>)
    ensures forall x: RepositorySummary :: x in Kept(spec, repos) <==> x in repos && !Skip(spec, x.name)
    ensures forall x: RepositorySummary :: !Skip(spec, x.name) ==> multiset(Kept(spec, repos))[x] == multiset(repos)[x]
    decreases |repos|
  {
    if |repos| > 0 {
      KeptCounts(spec, repos[1..]);
      assert repos == [repos[0]] + repos[1..];
    }
  }

  /** Skipping works repository by repository, so it keeps listing order. */
  lemma ReposToLoadAppend(spec: Specification, a: seq<RepositorySummary>, b: seq<RepositorySummary>)
    ensures ReposToLoad(spec, a + b) == ReposToLoad(spec, a) + ReposToLoad(spec, b)
  {
    KeptAppend(spec, a, b);
  }

  lemma {:induction false} KeptAppend(spec: Specification, a: seq<RepositorySummary>, b: seq<RepositorySummary>)
    ensures Kept(spec, a + b) == Kept(spec, a) + Kept(spec, b)
    decreases |a|
  {
    if |a| > 0 {
      assert (a + b)[0] == a[0];
      assert (a + b)[1..] == a[1..] + b;
      KeptAppend(spec, a[1..], b);
    } else {
      assert a + b == b;
    }
  }

  /** The insert steps LoadArtifacts takes for one package when the idle
      timer does not fire (the trace holds no `Timeout`): the producer's artifacts pass through the
      accumulator sized by the page size, and each batch through insertBatch.
      The page size is also the capacity of the artifact channel, which Go
      cannot create with a negative capacity. */
  function PackageInserts(spec: Specification, p: Package, script: seq<Reply<VersionsPage>>, now: Time): (r: seq<InsertStep>)
    requires p.repository.Some? && p.summary.Some?
    requires spec.pageSize >= 0
    ensures forall i :: 0 <= i < |r| ==> StoresCleanBatch(spec.pageSize as int, r[i])
    ensures forall i :: 0 <= i < |r| - 1 ==> r[i].CallInsert?
  {
    InsertSteps(spec.pageSize as int, Versions(spec, p, script, now))
  }

  /** An insert step that reaches the store carries between one and the
      accumulator's threshold of artifacts, none of them with an error. */
  predicate StoresCleanBatch(n: int, step: InsertStep) {
    step.CallInsert? ==>
      && 1 <= |step.batch| <= Batcher.Threshold(n)
      && forall j :: 0 <= j < |step.batch| ==> step.batch[j].error.None?
  }

  /** The steps the run actually takes: a `Fatal` step exits the process, so
      nothing after the first one happens. */
  function UntilFatal(steps: seq<InsertStep>): (r: seq<InsertStep>)
    ensures r <= steps
    ensures forall i :: 0 <= i < |r| - 1 ==> r[i].CallInsert?
    ensures r == steps || (|r| > 0 && r[|r| - 1].Fatal?)
    ensures (forall i :: 0 <= i < |steps| ==> steps[i].CallInsert?) ==> r == steps
    decreases |steps|
  {
    if |steps| == 0 then []
    else if steps[0].Fatal? then [steps[0]]
    else [steps[0]] + UntilFatal(steps[1..])
  }

  /** What insertBatch is given, and does, for each batch the accumulator of
      size n forms from a producer's stream, up to the first exit. */
  function InsertSteps(n: int, stream: Stream<Artifact>): (r: seq<InsertStep>)
    ensures forall i :: 0 <= i < |r| ==> StoresCleanBatch(n, r[i])
    ensures forall i :: 0 <= i < |r| - 1 ==> r[i].CallInsert?
  {
    var trace := Batcher.Recvs(stream.values) + (if stream.closed then [Batcher.Close] else []);
    var batches := Batcher.BatchArtifacts(n, trace);
    UntilFatal(seq(|batches|, i requires 0 <= i < |batches| => InsertBatch(batches[i])))
  }

  /** Once insertBatch exits, later batches never reach the store: with
      batches of one, an errored artifact followed by a clean one stops the
      run at the first. */
  lemma FatalStopsTheRun(e: Error, c: Artifact)
    requires c.error.None?
    ensures InsertSteps(1, Stream([ErrorArtifact(e), c], true)) == [Fatal(e)]
  {
    var x := ErrorArtifact(e);
    var out := Batcher.BatchArtifacts(1, Batcher.Recvs([x, c]) + [Batcher.Close]);
    Batcher.ReceiveAllThenClose(1, [x, c]);
    assert |out| == 2;
    assert Flatten(out) == out[0] + Flatten(out[1..]);
    assert out[0] == [x];
    assert InsertBatch(out[0]) == Fatal(e);
  }

  /** A failed version listing with a page size above one never reaches
      insertBatch: the lone error artifact is still pending when the producer
      closes its channel, and is dropped; with a page size of zero or one the
      run exits on that error. */
  lemma ListingErrorReachesInsertOnlyForSmallPages(spec: Specification, p: Package, script: seq<Reply<VersionsPage>>, now: Time)
    requires p.repository.Some? && p.summary.Some?
    requires spec.pageSize >= 0
    requires AllPackageVersions(spec, p.summary.value, p.repository.value, script).error.Some?
    ensures var e := AllPackageVersions(spec, p.summary.value, p.repository.value, script).error.value;
      && (spec.pageSize >= 2 ==> PackageInserts(spec, p, script, now) == [])
      && (spec.pageSize <= 1 ==> PackageInserts(spec, p, script, now) == [Fatal(e)])
  {
    var e := AllPackageVersions(spec, p.summary.value, p.repository.value, script).error.value;
    var stream := Versions(spec, p, script, now);
    var x := stream.values[0];
    assert stream.values == [x];
    assert x.error == Some(e);
    var n := spec.pageSize as int;
    var batches := Batcher.BatchArtifacts(n, Batcher.Recvs([x]) + [Batcher.Close]);
    if n >= 1 {
      Batcher.ReceiveAllThenClose(n, [x]);
      if n == 1 {
        assert |batches| == 1;
        assert Flatten(batches) == batches[0] + Flatten(batches[1..]);
        assert batches[0] == [x];
        assert InsertBatch(batches[0]) == Fatal(e);
      }
    } else {
      Batcher.NonPositiveSizeSendsSingletons(n, [x]);
      assert InsertBatch(batches[0]) == Fatal(e);
    }
  }

  /** Batches made only of error-free artifacts go to the store whole. */
  lemma CleanBatchesInsertWhole(batches: seq<seq<Artifact>>)
    requires forall a :: a in Flatten(batches) ==> a.error.None?
    ensures forall i :: 0 <= i < |batches| ==> InsertBatch(batches[i]) == CallInsert(batches[i])
  {
    forall i | 0 <= i < |batches| ensures InsertBatch(batches[i]) == CallInsert(batches[i]) {
      FlattenMember(batches, i);
    }
  }

  /** A closed stream of error-free artifacts, batched by n >= 1, is inserted
      as |xs| / n whole batches holding the first (|xs| / n) * n artifacts in
      order. */
  lemma CleanStreamInsertsWholeBatches(n: int, xs: seq<Artifact>)
    requires n >= 1
    requires forall i :: 0 <= i < |xs| ==> xs[i].error.None?
    ensures var steps := InsertSteps(n, Stream(xs, true));
      && |steps| == |xs| / n
      && (forall i :: 0 <= i < |steps| ==> steps[i].CallInsert? && |steps[i].batch| == n)
      && Flatten(seq(|steps|, i requires 0 <= i < |steps| => steps[i].batch)) == xs[..|xs| - |xs| % n]
  {
    var out := Batcher.BatchArtifacts(n, Batcher.Recvs(xs) + [Batcher.Close]);
    Batcher.ReceiveAllThenClose(n, xs);
    assert forall a :: a in Flatten(out) ==> a in xs;
    CleanBatchesInsertWhole(out);
    var steps := InsertSteps(n, Stream(xs, true));
    assert seq(|steps|, i requires 0 <= i < |steps| => steps[i].batch) == out;
  }

  /** A version listing that returns without error, of L versions, with page
      size n >= 1, is inserted as L / n error-free batches of n artifacts: the
      first (L / n) * n artifacts in order; the last L % n are never inserted. */
  lemma ListingInsertsWholeBatchesOnly(spec: Specification, p: Package, script: seq<Reply<VersionsPage>>, now: Time)
    requires p.repository.Some? && p.summary.Some?
    requires spec.pageSize >= 1
    requires var call := AllPackageVersions(spec, p.summary.value, p.repository.value, script);
      call.returned && call.error.None?
    ensures var steps := PackageInserts(spec, p, script, now);
      var artifacts := Versions(spec, p, script, now).values;
      var n := spec.pageSize as int;
      && |steps| == |artifacts| / n
      && (forall i :: 0 <= i < |steps| ==> steps[i].CallInsert? && |steps[i].batch| == n)
      && Flatten(seq(|steps|, i requires 0 <= i < |steps| => steps[i].batch)) == artifacts[..|artifacts| - |artifacts| % n]
  {
    var stream := Versions(spec, p, script, now);
    assert stream == Stream(stream.values, true);
    CleanStreamInsertsWholeBatches(spec.pageSize as int, stream.values);
  }

  // ---------------------------------------------------------------------
  // The same per-package flow with the flushing accumulator
  // ---------------------------------------------------------------------

  /** As `InsertSteps`, with the accumulator that flushes on close and
      clears after an idle flush. */
  function InsertStepsFlushing(n: int, stream: Stream<Artifact>): (r: seq<InsertStep>)
    ensures forall i :: 0 <= i < |r| ==> StoresCleanBatch(n, r[i])
    ensures forall i :: 0 <= i < |r| - 1 ==> r[i].CallInsert?
  {
    var trace := Batcher.Recvs(stream.values) + (if stream.closed then [Batcher.Close] else []);
    var batches := Batcher.BatchArtifactsFlushing(n, trace);
    UntilFatal(seq(|batches|, i requires 0 <= i < |batches| => InsertBatch(batches[i])))
  }

  /** With the flushing accumulator a closed stream of error-free artifacts
      is inserted completely, in order, whatever the page size. */
  lemma CleanStreamInsertsEverythingWhenFlushing(n: int, xs: seq<Artifact>)
    requires forall i :: 0 <= i < |xs| ==> xs[i].error.None?
    ensures var steps := InsertStepsFlushing(n, Stream(xs, true));
      && (forall i :: 0 <= i < |steps| ==> steps[i].CallInsert? && 1 <= |steps[i].batch| <= Batcher.Threshold(n))
      && Flatten(seq(|steps|, i requires 0 <= i < |steps| => steps[i].batch)) == xs
  {
    var out := Batcher.BatchArtifactsFlushing(n, Batcher.Recvs(xs) + [Batcher.Close]);
    Batcher.FlushingSendsEverything(n, xs);
    assert forall a :: a in Flatten(out) ==> a in xs;
    CleanBatchesInsertWhole(out);
    var steps := InsertStepsFlushing(n, Stream(xs, true));
    assert seq(|steps|, i requires 0 <= i < |steps| => steps[i].batch) == out;
  }

  /** With the flushing accumulator a failed version listing always stops
      the run with its error, whatever the (non-negative) page size. */
  lemma ListingErrorFatalWhenFlushing(spec: Specification, p: Package, script: seq<Reply<VersionsPage>>, now: Time)
    requires p.repository.Some? && p.summary.Some?
    requires spec.pageSize >= 0
    requires AllPackageVersions(spec, p.summary.value, p.repository.value, script).error.Some?
    ensures var e := AllPackageVersions(spec, p.summary.value, p.repository.value, script).error.value;
      InsertStepsFlushing(spec.pageSize as int, Versions(spec, p, script, now)) == [Fatal(e)]
  {
    var e := AllPackageVersions(spec, p.summary.value, p.repository.value, script).error.value;
    var stream := Versions(spec, p, script, now);
    var x := stream.values[0];
    assert stream == Stream([x], true);
    assert x.error == Some(e);
    var n := spec.pageSize as int;
    var out := Batcher.BatchArtifactsFlushing(n, Batcher.Recvs([x]) + [Batcher.Close]);
    Batcher.FlushingSendsEverything(n, [x]);
    FlattenOfNonEmpty(out);
    assert |out| == 1;
    assert Flatten(out) == out[0] + Flatten(out[1..]);
    assert out[0] == [x];
    assert InsertBatch(out[0]) == Fatal(e);
  }

  /** Every record of a part of a flattened sequence is in the flattening. */
  lemma {:induction false} FlattenMember<T>(xss: seq<seq<T>>, i: nat)
    requires i < |xss|
    ensures forall x :: x in xss[i] ==> x in Flatten(xss)
    decreases |xss|
  {
    if i > 0 {
      FlattenMember(xss[1..], i - 1);
    }
  }
}
