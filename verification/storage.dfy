/** The document-store side of src/storage.go: the flat artifact layout, this
    file's own status list, the decision logic of `artifactsQuery` (which
    filter a listing applies), `Insert` with its per-record error vector and
    replace-on-conflict policy, and the three outcomes of `List`. The table is
    a map from primary key (`id`) to stored document; the driver's failures
    are parameters. */
module Storage {
  import opened Prelude
  import Domain

  /** The flat layout: identity fields at top level next to the string `Id`
      the document is keyed by. `error` is not stored. */
  datatype Artifact = Artifact(
    repository: string,
    namespace: string,
    package: string,
    version: string,
    revision: string,
    domainName: string,
    format: string,
    id: string,
    error: Option<Error>,
    status: Domain.Status,
    createTime: Time)

  /** The status list this file declares, as written. */
  const AllStatuses: seq<Domain.Status> :=
    [Domain.Published, Domain.Unfinished, Domain.Unfinished, Domain.Archived]

  /** This list names Unfinished twice and leaves out three declared
      statuses, unlike the list of src/domain.go. */
  lemma AllStatusesIncomplete()
    ensures |AllStatuses| == 4
    ensures multiset(AllStatuses)[Domain.Unfinished] == 2
    ensures Domain.Unlisted !in AllStatuses && Domain.Disposed !in AllStatuses && Domain.Deleted !in AllStatuses
    ensures forall s :: s in AllStatuses ==> s in Domain.AllStatuses
  {
  }

  // ---------------------------------------------------------------------
  // Queries
  // ---------------------------------------------------------------------

  datatype Field = NamespaceField | PackageField

  /** The row filters a query can apply. */
  datatype Filter =
    | StatusIs(status: Domain.Status)
    | AnyOf(alternatives: seq<Filter>)
    | AllOf(conjuncts: seq<Filter>)
    | Contains(field: Field, substring: string)

  /** The ordering a query asks for: none, or ascending id then newest first. */
  datatype Order = Unordered | ByIdThenNewest

  /** A filtered scan of the artifacts table. */
  datatype Query = Query(filter: Filter, order: Order)

  function FieldValue(a: Artifact, f: Field): string {
    match f
    case NamespaceField => a.namespace
    case PackageField => a.package
  }

  /** True when `sub` occurs in `s` at its start. */
  predicate IsPrefix(sub: string, s: string) {
    |sub| <= |s| && s[..|sub|] == sub
  }

  /** True when `sub` occurs somewhere in `s`. */
  predicate IsSubstring(sub: string, s: string)
    decreases |s|
  {
    IsPrefix(sub, s) || (|s| > 0 && IsSubstring(sub, s[1..]))
  }

  /** Whether a stored document passes a filter. */
  predicate Matches(f: Filter, a: Artifact)
    decreases f
  {
    match f
    case StatusIs(s) => a.status == s
    case AnyOf(fs) => exists i :: 0 <= i < |fs| && Matches(fs[i], a)
    case AllOf(fs) => forall i :: 0 <= i < |fs| ==> Matches(fs[i], a)
    case Contains(field, sub) => IsSubstring(sub, FieldValue(a, field))
  }

  /** The statuses a listing asks for: Published when none are given. */
  function EffectiveStatuses(status: seq<Domain.Status>): (r: seq<Domain.Status>)
    ensures |r| > 0
    ensures |status| == 0 ==> r == [Domain.Published]
    ensures |status| > 0 ==> r == status
  {
    if |status| == 0 then [Domain.Published] else status
  }

  /** The query as written: the loop over statuses returns in its first
      iteration, so only the first requested status is filtered on, and the
      substring filters and the ordering after the loop are never reached. */
  function ArtifactsQuery(status: seq<Domain.Status>, namespaceSubstring: string, packageSubstring: string): (q: Query)
    ensures q.order == Unordered
    ensures forall a :: Matches(q.filter, a) <==> a.status == EffectiveStatuses(status)[0]
  {
    var requested := EffectiveStatuses(status);
    Query(StatusIs(requested[0]), Unordered)
  }

  /** The query that the unreachable code after the loop
      (src/storage.go:183-196) sets out to build: any requested status, both
      substring filters (skipped when empty), ordered by id then newest. That
      code would not achieve it as written either, since its status filter is
      an `Or` whose first operand is the document itself; this definition is
      what it evidently means. */
  function IntendedQuery(status: seq<Domain.Status>, namespaceSubstring: string, packageSubstring: string): (q: Query)
    ensures q.order == ByIdThenNewest
    ensures forall a :: Matches(q.filter, a) <==>
      && a.status in EffectiveStatuses(status)
      && IsSubstring(namespaceSubstring, a.namespace)
      && IsSubstring(packageSubstring, a.package)
  {
    var requested := EffectiveStatuses(status);
    var statusFilter := AnyOf(seq(|requested|, i requires 0 <= i < |requested| => StatusIs(requested[i])));
    var filters := [statusFilter]
      + (if namespaceSubstring != "" then [Contains(NamespaceField, namespaceSubstring)] else [])
      + (if packageSubstring != "" then [Contains(PackageField, packageSubstring)] else []);
    var q := Query(AllOf(filters), ByIdThenNewest);
    forall a ensures Matches(q.filter, a) <==>
      && a.status in requested
      && IsSubstring(namespaceSubstring, a.namespace)
      && IsSubstring(packageSubstring, a.package)
    {
      EmptyIsSubstring(a.namespace);
      EmptyIsSubstring(a.package);
      assert Matches(statusFilter, a) <==> a.status in requested by {
        if a.status in requested {
          var i :| 0 <= i < |requested| && requested[i] == a.status;
          assert Matches(statusFilter.alternatives[i], a);
        }
      }
      assert filters[0] == statusFilter;
      if namespaceSubstring != "" {
        assert filters[1] == Contains(NamespaceField, namespaceSubstring);
      }
      if packageSubstring != "" {
        assert filters[|filters| - 1] == Contains(PackageField, packageSubstring);
      }
    }
    q
  }

  lemma {:induction false} EmptyIsSubstring(s: string)
    ensures IsSubstring("", s)
  {
    assert IsPrefix("", s);
  }

  /** Concretely: asking for Published and Archived artifacts of namespaces
      containing "client" returns a Published artifact of another namespace and
      misses an Archived "client" artifact; the intended query does the
      opposite. */
  lemma QueryUsesFirstStatusOnly(a: Artifact, b: Artifact)
    requires a.status == Domain.Published && a.namespace == "other"
    requires b.status == Domain.Archived && b.namespace == "client"
    ensures Matches(ArtifactsQuery([Domain.Published, Domain.Archived], "client", "").filter, a)
    ensures !Matches(ArtifactsQuery([Domain.Published, Domain.Archived], "client", "").filter, b)
    ensures !Matches(IntendedQuery([Domain.Published, Domain.Archived], "client", "").filter, a)
    ensures Matches(IntendedQuery([Domain.Published, Domain.Archived], "client", "").filter, b)
  {
    EmptyIsSubstring(a.package);
    EmptyIsSubstring(b.package);
    assert IsPrefix("client", b.namespace);
    LongerIsNoSubstring("client", a.namespace);
  }

  /** A string longer than `s` does not occur in `s`. */
  lemma {:induction false} LongerIsNoSubstring(sub: string, s: string)
    requires |sub| > |s|
    ensures !IsSubstring(sub, s)
    decreases |s|
  {
    if |s| > 0 {
      LongerIsNoSubstring(sub, s[1..]);
    }
  }

  // ---------------------------------------------------------------------
  // The table and Insert
  // ---------------------------------------------------------------------

  /** The artifacts table: documents keyed by their primary key `id`. */
  type Table = t: map<string, Artifact> | forall k :: k in t ==> t[k].id == k
    witness map[]

  /** The document stored for an artifact: everything but the error. */
  function Doc(a: Artifact): (d: Artifact)
    ensures d.id == a.id && d.error.None?
    ensures d.(error := a.error) == a
  {
    a.(error := None)
  }

  /** The driver's outcome for the i-th write; writes it says nothing about succeed. */
  function WriteFault(faults: seq<Option<Error>>, i: nat): Option<Error> {
    if i < |faults| then faults[i] else None
  }

  /** The table after the first n writes, each replacing any document with
      the same id when it succeeds and changing nothing when it fails. */
  function Upserted(table: Table, artifacts: seq<Artifact>, faults: seq<Option<Error>>, n: nat): Table
    requires n <= |artifacts|
    decreases n
  {
    if n == 0 then table
    else
      var t := Upserted(table, artifacts, faults, n - 1);
      var a := artifacts[n - 1];
      if WriteFault(faults, n - 1).None? then t[a.id := Doc(a)] else t
  }

  /** Writes each artifact in turn, with a conflict resolver that keeps the
      new document, and reports one error slot per artifact. */
  method Insert(table: Table, artifacts: seq<Artifact>, faults: seq<Option<Error>>)
    returns (errors: seq<Option<Error>>, after: Table)
    ensures |errors| == |artifacts|
    ensures forall i :: 0 <= i < |artifacts| ==> errors[i] == WriteFault(faults, i)
    ensures after == Upserted(table, artifacts, faults, |artifacts|)
  {
    errors := [];
    after := table;
    var index := 0;
    while index < |artifacts|
      invariant 0 <= index <= |artifacts|
      invariant |errors| == index
      invariant forall i :: 0 <= i < index ==> errors[i] == WriteFault(faults, i)
      invariant after == Upserted(table, artifacts, faults, index)
    {
      var artifact := artifacts[index];
      var err := WriteFault(faults, index);
      if err.None? {
        after := after[artifact.id := Doc(artifact)];
      }
      errors := errors + [err];
      index := index + 1;
    }
  }

  /** The i-th write succeeds and stores a document under k. */
  predicate WritesKey(artifacts: seq<Artifact>, faults: seq<Option<Error>>, i: nat, k: string)
    requires i < |artifacts|
  {
    WriteFault(faults, i).None? && artifacts[i].id == k
  }

  /** The i-th write is the last of the first n to store under k. */
  predicate LastWrite(artifacts: seq<Artifact>, faults: seq<Option<Error>>, n: nat, k: string, i: nat)
    requires n <= |artifacts|
  {
    && i < n
    && WritesKey(artifacts, faults, i, k)
    && forall j :: i < j < n ==> !WritesKey(artifacts, faults, j, k)
  }

  /** Last write wins: a key holds the document of the last successful write
      under it, keys nobody wrote keep their old document, and no other key
      appears. */
  lemma LastWriteWins(table: Table, artifacts: seq<Artifact>, faults: seq<Option<Error>>, n: nat)
    requires n <= |artifacts|
    ensures var t := Upserted(table, artifacts, faults, n);
      && (forall k :: k in t <==> k in table || exists i :: 0 <= i < n && WritesKey(artifacts, faults, i, k))
      && (forall k, i: nat :: LastWrite(artifacts, faults, n, k, i) ==> k in t && t[k] == Doc(artifacts[i]))
      && (forall k :: k in table && (forall i :: 0 <= i < n ==> !WritesKey(artifacts, faults, i, k)) ==>
            k in t && t[k] == table[k])
  {
    UpsertedKeys(table, artifacts, faults, n);
    forall k, i: nat | LastWrite(artifacts, faults, n, k, i)
      ensures var t := Upserted(table, artifacts, faults, n); k in t && t[k] == Doc(artifacts[i])
    {
      LastWriteStored(table, artifacts, faults, n, k, i);
    }
    forall k | k in table && (forall i :: 0 <= i < n ==> !WritesKey(artifacts, faults, i, k))
      ensures var t := Upserted(table, artifacts, faults, n); k in t && t[k] == table[k]
    {
      UnwrittenKept(table, artifacts, faults, n, k);
    }
  }

  lemma UpsertedKeys(table: Table, artifacts: seq<Artifact>, faults: seq<Option<Error>>, n: nat)
    requires n <= |artifacts|
    ensures forall k :: k in Upserted(table, artifacts, faults, n) <==>
      k in table || exists i :: 0 <= i < n && WritesKey(artifacts, faults, i, k)
  {
    forall k ensures k in Upserted(table, artifacts, faults, n) <==>
      k in table || exists i :: 0 <= i < n && WritesKey(artifacts, faults, i, k)
    {
      UpsertedKey(table, artifacts, faults, n, k);
    }
  }

  lemma {:induction false} UpsertedKey(table: Table, artifacts: seq<Artifact>, faults: seq<Option<Error>>, n: nat, k: string)
    requires n <= |artifacts|
    ensures k in Upserted(table, artifacts, faults, n) <==>
      k in table || exists i :: 0 <= i < n && WritesKey(artifacts, faults, i, k)
    decreases n
  {
    if n > 0 {
      UpsertedKey(table, artifacts, faults, n - 1, k);
      if WritesKey(artifacts, faults, n - 1, k) {
        assert k in Upserted(table, artifacts, faults, n);
      } else {
        assert k in Upserted(table, artifacts, faults, n) <==> k in Upserted(table, artifacts, faults, n - 1);
        if i :| 0 <= i < n && WritesKey(artifacts, faults, i, k) {
          assert i < n - 1;
        }
      }
    }
  }

  lemma {:induction false} LastWriteStored(table: Table, artifacts: seq<Artifact>, faults: seq<Option<Error>>, n: nat, k: string, i: nat)
    requires n <= |artifacts|
    requires LastWrite(artifacts, faults, n, k, i)
    ensures var t := Upserted(table, artifacts, faults, n); k in t && t[k] == Doc(artifacts[i])
    decreases n
  {
    if i < n - 1 {
      assert !WritesKey(artifacts, faults, n - 1, k);
      assert LastWrite(artifacts, faults, n - 1, k, i);
      LastWriteStored(table, artifacts, faults, n - 1, k, i);
    }
  }

  lemma {:induction false} UnwrittenKept(table: Table, artifacts: seq<Artifact>, faults: seq<Option<Error>>, n: nat, k: string)
    requires n <= |artifacts|
    requires k in table && forall i :: 0 <= i < n ==> !WritesKey(artifacts, faults, i, k)
    ensures var t := Upserted(table, artifacts, faults, n); k in t && t[k] == table[k]
    decreases n
  {
    if n > 0 {
      assert !WritesKey(artifacts, faults, n - 1, k);
      UnwrittenKept(table, artifacts, faults, n - 1, k);
    }
  }

  /** Inserting two artifacts with the same id leaves one document, the
      second; inserting the same artifact twice is the same as once. */
  lemma ReinsertReplaces(table: Table, a: Artifact, b: Artifact)
    requires a.id == b.id
    ensures Upserted(table, [a, b], [], 2) == table[a.id := Doc(b)]
    ensures Upserted(table, [a, a], [], 2) == Upserted(table, [a], [], 1)
  {
  }

  // ---------------------------------------------------------------------
  // List
  // ---------------------------------------------------------------------

  /** What the driver does to a listing: nothing, fail the query, or fail
      while decoding the cursor. */
  datatype ListFault = NoFault | QueryFails(error: Error) | DecodeFails(error: Error)

  /** The documents of a table passing a filter, each exactly once, in
      whatever order the table is scanned. */
  method Select(table: Table, f: Filter) returns (found: seq<Artifact>)
    ensures forall a :: a in found <==> a in table.Values && Matches(f, a)
    ensures forall i, j :: 0 <= i < j < |found| ==> found[i] != found[j]
  {
    found := [];
    var keys := table.Keys;
    while keys != {}
      invariant keys <= table.Keys
      invariant forall a :: a in found <==> exists k :: k in table.Keys - keys && table[k] == a && Matches(f, a)
      invariant forall a :: a in found ==> a.id !in keys
      invariant forall i, j :: 0 <= i < j < |found| ==> found[i] != found[j]
      decreases keys
    {
      var k :| k in keys;
      if Matches(f, table[k]) {
        found := found + [table[k]];
      }
      keys := keys - {k};
    }
  }

  /** Lists the artifacts the query selects. A failing query gives an empty,
      non-nil list with the error; a failing decode gives nil with the error;
      otherwise every selected document once and no error. */
  method List(table: Table, status: seq<Domain.Status>, namespaceSubstring: string, packageSubstring: string, fault: ListFault)
    returns (results: Option<seq<Artifact>>, err: Option<Error>)
    ensures fault.QueryFails? ==> results == Some([]) && err == Some(fault.error)
    ensures fault.DecodeFails? ==> results.None? && err == Some(fault.error)
    ensures fault.NoFault? ==> err.None? && results.Some?
    ensures fault.NoFault? ==> forall a :: a in results.value <==>
      a in table.Values && a.status == EffectiveStatuses(status)[0]
    ensures fault.NoFault? ==> forall i, j :: 0 <= i < j < |results.value| ==> results.value[i] != results.value[j]
  {
    var query := ArtifactsQuery(status, namespaceSubstring, packageSubstring);
    match fault
    case QueryFails(e) =>
      return Some([]), Some(e);
    case DecodeFails(e) =>
      return None, Some(e);
    case NoFault =>
      var found := Select(table, query.filter);
      return Some(found), None;
  }
}
