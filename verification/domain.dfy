/** The embedded record layout of src/domain.go: an artifact identity, the
    artifact record that embeds it, the open `Status` string type with its six
    declared values, and the package pairing that the listing producers emit,
    which embeds the registry's summary objects. */
module Domain {
  import opened Prelude
  import opened Registry

  /** The natural identity of an artifact. Equality is field-by-field. */
  datatype ArtifactId = ArtifactId(namespace: string, package: string, version: string)

  /** A package-version status. The Go type is a named string, so any string
      converts to a Status, not only the six declared constants. */
  datatype Status = Status(name: string)

  const Published: Status := Status("Published")
  const Unfinished: Status := Status("Unfinished")
  const Unlisted: Status := Status("Unlisted")
  const Archived: Status := Status("Archived")
  const Disposed: Status := Status("Disposed")
  const Deleted: Status := Status("Deleted")

  /** The names of the six declared status constants. */
  const DeclaredNames: set<string> :=
    {"Published", "Unfinished", "Unlisted", "Archived", "Disposed", "Deleted"}

  /** True of the statuses that are one of the declared constants. */
  predicate IsDeclared(s: Status) {
    s.name in DeclaredNames
  }

  /** The list of statuses of src/domain.go, in declaration order. */
  const AllStatuses: seq<Status> :=
    [Published, Unfinished, Unlisted, Archived, Disposed, Deleted]

  /** The embedded-layout artifact. `error` is not serialised; `problems` is
      filled only by validation in the store. */
  datatype Artifact = Artifact(
    id: ArtifactId,
    repository: string,
    revision: string,
    domainName: string,
    format: string,
    error: Option<Error>,
    problems: seq<string>,
    status: Status,
    createTime: Time)

  /** The artifact a producer sends when listing failed: every field holds its
      Go zero value except the error. */
  function ErrorArtifact(e: Error): (a: Artifact)
    ensures CarriesOnlyError(a) && a.error == Some(e)
  {
    Artifact(ArtifactId("", "", ""), "", "", "", "", Some(e), [], Status(""), ZeroTime)
  }

  /** True of an artifact whose only non-zero field is its error. */
  predicate CarriesOnlyError(a: Artifact) {
    && a.error.Some?
    && a.id.namespace == "" && a.id.package == "" && a.id.version == ""
    && a.repository == "" && a.revision == "" && a.domainName == "" && a.format == ""
    && a.problems == [] && a.status.name == "" && a.createTime == ZeroTime
  }

  /** What the package producer sends: a repository and package summary pair,
      or only an error. Both Go files declare this same struct. */
  datatype Package = Package(
    repository: Option<RepositorySummary>,
    summary: Option<PackageSummary>,
    error: Option<Error>)

  /** The two shapes a producer ever builds. */
  predicate WellFormed(p: Package) {
    || (p.error.None? && p.repository.Some? && p.summary.Some?)
    || (p.error.Some? && p.repository.None? && p.summary.None?)
  }

  /** The package a producer sends when listing failed. */
  function ErrorPackage(e: Error): (p: Package)
    ensures WellFormed(p) && p.error == Some(e) && p.summary.None?
  {
    Package(None, None, Some(e))
  }

  /** The package a producer sends for one listed package summary. */
  function PairedPackage(repo: RepositorySummary, summary: PackageSummary): (p: Package)
    ensures WellFormed(p) && p.error.None?
    ensures p.repository == Some(repo) && p.summary == Some(summary)
  {
    Package(Some(repo), Some(summary), None)
  }

  /** AllStatuses holds each declared status exactly once and nothing else. */
  lemma AllStatusesListsEachOnce()
    ensures |AllStatuses| == |DeclaredNames|
    ensures forall s :: s in AllStatuses <==> IsDeclared(s)
    ensures forall i, j :: 0 <= i < j < |AllStatuses| ==> AllStatuses[i] != AllStatuses[j]
  {
  }

  /** Converting any string yields a Status with that name, declared or not. */
  lemma StatusIsOpen(name: string)
    ensures Status(name).name == name
    ensures name !in DeclaredNames ==> Status(name) !in AllStatuses
  {
  }

  /** Two identities are equal exactly when all three parts are. */
  lemma ArtifactIdEquality(a: ArtifactId, b: ArtifactId)
    ensures a == b <==> (a.namespace == b.namespace && a.package == b.package && a.version == b.version)
  {
  }
}
