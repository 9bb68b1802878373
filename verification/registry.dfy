/** The registry client adapter of src/aux.go: three loops that list every
    package version, every package of a repository and every repository by
    following continuation tokens. The registry itself is a script: the reply
    to the first request, the reply to the second, and so on, each either a
    page or an error. A loop that still wants a page when the script has run
    out has not returned; this is how the model shows a loop that would go on
    for ever. */
module Registry {
  import opened Prelude
  import opened Config

  type Token = string

  /** The registry's repository summary; only the fields the core reads. */
  datatype RepositorySummary = RepositorySummary(name: string, domainName: string)

  /** The registry's package summary; only the fields the core reads. */
  datatype PackageSummary = PackageSummary(format: string, namespace: string, package: string)

  /** The registry's package-version summary; only the fields the core reads. */
  datatype VersionSummary = VersionSummary(version: string, revision: string, status: string)

  /** The registry's answer to one request. */
  datatype Reply<P> = Ok(page: P) | Failed(error: Error)

  /** One listing page, which is also the shape of a loop's accumulated
      output: metadata fields, the continuation token and the listed items. */
  datatype Page<M, I> = Page(meta: M, nextToken: Option<Token>, items: seq<I>)

  /** The metadata a package-version listing page carries. */
  datatype VersionsMeta = VersionsMeta(
    defaultDisplayVersion: Option<string>,
    format: Option<string>,
    namespace: Option<string>,
    package: Option<string>)

  type VersionsPage = Page<VersionsMeta, VersionSummary>
  type PackagesPage = Page<(), PackageSummary>
  type ReposPage = Page<(), RepositorySummary>

  /** The requests the loops send; only the fields the loops set. */
  datatype ListVersionsInput = ListVersionsInput(
    domain: string, maxResults: Int64, namespace: string, nextToken: Option<Token>,
    package: string, repository: string, format: string)

  datatype ListPackagesInput = ListPackagesInput(
    domain: string, maxResults: Int64, nextToken: Option<Token>,
    packagePrefix: Option<string>, repository: string)

  datatype ListReposInput = ListReposInput(
    maxResults: Int64, nextToken: Option<Token>, repositoryPrefix: Option<string>)

  /** What a loop did against a script: the requests it sent, whether it
      returned, and if so what it returned. */
  datatype Listing<P, Q> = Listing(requests: seq<Q>, returned: bool, output: P, error: Option<Error>)

  /** The empty outputs each loop starts from. */
  const EmptyVersions: VersionsPage := Page(VersionsMeta(None, None, None, None), None, [])
  const EmptyPackages: PackagesPage := Page((), None, [])
  const EmptyRepos: ReposPage := Page((), None, [])

  // ---------------------------------------------------------------------
  // Reference definitions over a script
  // ---------------------------------------------------------------------

  /** A reply after which a loop asks for another page. */
  predicate Continues<M, I>(reply: Reply<Page<M, I>>) {
    reply.Ok? && reply.page.nextToken.Some?
  }

  /** The position of the first reply that ends the loop (an error or a page
      without a continuation token), or the script length if there is none. */
  function StopIndex<M, I>(script: seq<Reply<Page<M, I>>>): (k: nat)
    ensures k <= |script|
    ensures forall j :: 0 <= j < k ==> Continues(script[j])
    ensures k < |script| ==> !Continues(script[k])
    decreases |script|
  {
    if |script| == 0 || !Continues(script[0]) then 0 else 1 + StopIndex(script[1..])
  }

  /** How many replies a loop reads: up to and including the one that ends it. */
  function Consumed<M, I>(script: seq<Reply<Page<M, I>>>): (n: nat)
    ensures n <= |script|
  {
    if StopIndex(script) < |script| then StopIndex(script) + 1 else |script|
  }

  /** How many of the replies read are pages. */
  function OkCount<M, I>(script: seq<Reply<Page<M, I>>>): (n: nat)
    ensures n <= Consumed(script)
    ensures forall j :: 0 <= j < n ==> script[j].Ok?
  {
    var k := StopIndex(script);
    if k < |script| && script[k].Failed? then k else Consumed(script)
  }

  /** The items of the pages among `replies`, concatenated in order. */
  function OkItems<M, I>(replies: seq<Reply<Page<M, I>>>): seq<I>
    decreases |replies|
  {
    if |replies| == 0 then []
    else (if replies[0].Ok? then replies[0].page.items else []) + OkItems(replies[1..])
  }

  /** The error of the reply that ends the loop, if that reply is an error. */
  function StopError<M, I>(script: seq<Reply<Page<M, I>>>): Option<Error> {
    var stop := StopIndex(script);
    if stop < |script| && script[stop].Failed? then Some(script[stop].error) else None
  }

  /** The accumulate-until-nil-token promise: the loop returns exactly when a
      reply ends it; the output holds the starting items followed by the items
      of every page read, in order, and the metadata and token of the last page
      read (or of the start if none was); the error is that of the reply that
      ended the loop, if it was an error. */
  ghost predicate Accumulated<M, I>(start: Page<M, I>, script: seq<Reply<Page<M, I>>>,
                              returned: bool, output: Page<M, I>, error: Option<Error>)
  {
    var stop := StopIndex(script);
    var k := OkCount(script);
    && (returned <==> stop < |script|)
    && output.items == start.items + OkItems(script[..k])
    && error == StopError(script)
    && (k == 0 ==> output.meta == start.meta && output.nextToken == start.nextToken)
    && (k > 0 ==> output.meta == script[k - 1].page.meta && output.nextToken == script[k - 1].page.nextToken)
  }

  /** One token per reply read; the first is `first`, and each later one is
      the continuation token of the page before it. */
  predicate Chained<M, I>(first: Option<Token>, script: seq<Reply<Page<M, I>>>, tokens: seq<Option<Token>>) {
    && |tokens| == Consumed(script)
    && (|tokens| > 0 ==> tokens[0] == first)
    && forall i :: 1 <= i < |tokens| ==> script[i - 1].Ok? && tokens[i] == script[i - 1].page.nextToken
  }

  // ---------------------------------------------------------------------
  // The shared loop
  // ---------------------------------------------------------------------

  /** The loop of AllPackageVersions and AllPackagesInRepo: send the current
      output's token; on an error return the current output with it; otherwise
      replace the output by the page's metadata and token with the page's
      items appended, and return once the page has no token. The result lists
      the token each request carried. */
  function Collect<M, I>(output: Page<M, I>, script: seq<Reply<Page<M, I>>>): (r: Listing<Page<M, I>, Option<Token>>)
    ensures Chained(output.nextToken, script, r.requests)
    ensures Accumulated(output, script, r.returned, r.output, r.error)
    decreases |script|
  {
    if |script| == 0 then Listing([], false, output, None)
    else match script[0]
      case Failed(e) => Listing([output.nextToken], true, output, Some(e))
      case Ok(response) =>
        var next := Page(response.meta, response.nextToken, output.items + response.items);
        if response.nextToken.None? then Listing([output.nextToken], true, next, None)
        else
          var rest := Collect(next, script[1..]);
          CollectStep(output, script);
          rest.(requests := [output.nextToken] + rest.requests)
  }

  /** How the reference definitions unfold over a first reply that continues. */
  lemma CollectStep<M, I>(output: Page<M, I>, script: seq<Reply<Page<M, I>>>)
    requires |script| > 0 && Continues(script[0])
    ensures StopIndex(script) == 1 + StopIndex(script[1..])
    ensures Consumed(script) == 1 + Consumed(script[1..])
    ensures OkCount(script) == 1 + OkCount(script[1..])
    ensures OkItems(script[..OkCount(script)]) == script[0].page.items + OkItems(script[1..][..OkCount(script[1..])])
  {
    var k := OkCount(script);
    assert script[..k][1..] == script[1..][..k - 1];
  }

  // ---------------------------------------------------------------------
  // The three listings
  // ---------------------------------------------------------------------

  /** Every version of a package, following continuation tokens. Each
      request asks for `pageSize` results of this package; the first carries
      no token and every later one the previous page's token. */
  function AllPackageVersions(spec: Specification, pack: PackageSummary, repo: RepositorySummary,
                              script: seq<Reply<VersionsPage>>): (r: Listing<VersionsPage, ListVersionsInput>)
    ensures Accumulated(EmptyVersions, script, r.returned, r.output, r.error)
    ensures Chained(None, script, seq(|r.requests|, i requires 0 <= i < |r.requests| => r.requests[i].nextToken))
    ensures forall q :: q in r.requests ==>
      && q.maxResults == AwsPageSize(spec) && q.domain == spec.domain && q.repository == repo.name
      && q.namespace == pack.namespace && q.package == pack.package && q.format == pack.format
  {
    var c := Collect(EmptyVersions, script);
    var requests := seq(|c.requests|, i requires 0 <= i < |c.requests| =>
      ListVersionsInput(spec.domain, AwsPageSize(spec), pack.namespace, c.requests[i], pack.package, repo.name, pack.format));
    assert seq(|requests|, i requires 0 <= i < |requests| => requests[i].nextToken) == c.requests;
    Listing(requests, c.returned, c.output, c.error)
  }

  /** Every package of a repository, following continuation tokens. */
  function AllPackagesInRepo(spec: Specification, repo: RepositorySummary,
                             script: seq<Reply<PackagesPage>>): (r: Listing<PackagesPage, ListPackagesInput>)
    ensures Accumulated(EmptyPackages, script, r.returned, r.output, r.error)
    ensures Chained(None, script, seq(|r.requests|, i requires 0 <= i < |r.requests| => r.requests[i].nextToken))
    ensures forall q :: q in r.requests ==>
      && q.maxResults == AwsPageSize(spec) && q.domain == spec.domain
      && q.repository == repo.name && q.packagePrefix.None?
  {
    var c := Collect(EmptyPackages, script);
    var requests := seq(|c.requests|, i requires 0 <= i < |c.requests| =>
      ListPackagesInput(spec.domain, AwsPageSize(spec), c.requests[i], None, repo.name));
    assert seq(|requests|, i requires 0 <= i < |requests| => requests[i].nextToken) == c.requests;
    Listing(requests, c.returned, c.output, c.error)
  }

  /** The repository loop as written. Inside the loop body a second `output`
      is declared, so the one the loop reads its token from, and returns on
      error, is never updated: every request carries no token, each page is
      appended to the empty list, and the loop ends only on an error or on a
      page without a token. */
  function ReposLoop(spec: Specification, output: ReposPage, script: seq<Reply<ReposPage>>): (r: Listing<ReposPage, ListReposInput>)
    ensures |r.requests| == Consumed(script)
    ensures forall q :: q in r.requests ==>
      q.nextToken == output.nextToken && q.maxResults == AwsPageSize(spec) && q.repositoryPrefix.None?
    ensures r.returned <==> StopIndex(script) < |script|
    ensures r.error == StopError(script)
    ensures r.error.Some? ==> r.output == output
    ensures r.returned && r.error.None? ==>
      var k := StopIndex(script);
      k < |script| && script[k].Ok? && r.output.items == output.items + script[k].page.items
      && r.output.nextToken.None?
    decreases |script|
  {
    var input := ListReposInput(AwsPageSize(spec), output.nextToken, None);
    if |script| == 0 then Listing([], false, output, None)
    else match script[0]
      case Failed(e) => Listing([input], true, output, Some(e))
      case Ok(response) =>
        var shadow := Page((), response.nextToken, output.items + response.items);
        if response.nextToken.None? then Listing([input], true, shadow, None)
        else
          var rest := ReposLoop(spec, output, script[1..]);
          rest.(requests := [input] + rest.requests)
  }

  /** Every repository, as written (src/aux.go:100-126). */
  function AllRepos(spec: Specification, script: seq<Reply<ReposPage>>): (r: Listing<ReposPage, ListReposInput>)
    ensures |r.requests| == Consumed(script)
    ensures forall q :: q in r.requests ==> q.nextToken.None? && q.maxResults == AwsPageSize(spec)
    ensures r.returned <==> StopIndex(script) < |script|
    ensures r.error == StopError(script)
    ensures r.error.Some? ==> r.output.items == []
    ensures r.returned && r.error.None? ==>
      var k := StopIndex(script);
      k < |script| && script[k].Ok? && r.output.items == script[k].page.items
  {
    ReposLoop(spec, EmptyRepos, script)
  }

  /** Against a registry that answers the same request the same way, a
      repository listing of more than one page never returns: every request
      is the first-page request, so every reply carries a token. */
  lemma {:induction false} AllReposNeverReturns(spec: Specification, first: Reply<ReposPage>, n: nat)
    requires Continues(first)
    ensures var r := AllRepos(spec, seq(n, _ => first));
      !r.returned && |r.requests| == n
  {
    var script := seq(n, _ => first);
    assert forall j :: 0 <= j < |script| ==> Continues(script[j]);
    NoStop(script);
  }

  lemma {:induction false} NoStop<M, I>(script: seq<Reply<Page<M, I>>>)
    requires forall j :: 0 <= j < |script| ==> Continues(script[j])
    ensures StopIndex(script) == |script| && Consumed(script) == |script|
    decreases |script|
  {
    if |script| > 0 {
      NoStop(script[1..]);
    }
  }

  /** Concretely: two pages, "a" with a token and then "b" without, give only
      "b" back, and neither request carried a token. */
  lemma AllReposKeepsOnlyLastPage(spec: Specification, a: RepositorySummary, b: RepositorySummary)
    ensures var r := AllRepos(spec, [Ok(Page((), Some("t"), [a])), Ok(Page((), None, [b]))]);
      r.returned && r.error.None? && r.output.items == [b] && |r.requests| == 2
  {
    var script: seq<Reply<ReposPage>> := [Ok(Page((), Some("t"), [a])), Ok(Page((), None, [b]))];
    assert Continues(script[0]) && !Continues(script[1]);
    assert StopIndex(script[1..]) == 0;
  }

  /** The repository listing with the accumulator updated in place, as the
      other two loops do it: pages are concatenated and tokens followed. */
  function AllReposFixed(spec: Specification, script: seq<Reply<ReposPage>>): (r: Listing<ReposPage, ListReposInput>)
    ensures Accumulated(EmptyRepos, script, r.returned, r.output, r.error)
    ensures Chained(None, script, seq(|r.requests|, i requires 0 <= i < |r.requests| => r.requests[i].nextToken))
    ensures forall q :: q in r.requests ==> q.maxResults == AwsPageSize(spec) && q.repositoryPrefix.None?
  {
    var c := Collect(EmptyRepos, script);
    var requests := seq(|c.requests|, i requires 0 <= i < |c.requests| =>
      ListReposInput(AwsPageSize(spec), c.requests[i], None));
    assert seq(|requests|, i requires 0 <= i < |requests| => requests[i].nextToken) == c.requests;
    Listing(requests, c.returned, c.output, c.error)
  }

  /** A listing whose pages all arrive and end properly returns every item
      of every page, in order, with no error. */
  lemma {:induction false} CompleteListingReturnsAllPages<M, I>(start: Page<M, I>, pages: seq<Page<M, I>>)
    requires |pages| > 0 && pages[|pages| - 1].nextToken.None?
    requires forall j :: 0 <= j < |pages| - 1 ==> pages[j].nextToken.Some?
    ensures var script := seq(|pages|, j requires 0 <= j < |pages| => Ok(pages[j]));
      var r := Collect(start, script);
      r.returned && r.error.None? && |r.requests| == |pages|
      && r.output.items == start.items + Flatten(seq(|pages|, j requires 0 <= j < |pages| => pages[j].items))
  {
    var script := seq(|pages|, j requires 0 <= j < |pages| => Ok(pages[j]));
    PagesStop(pages);
    OkItemsOfPages(pages);
    assert script[..OkCount(script)] == script;
  }

  lemma {:induction false} PagesStop<M, I>(pages: seq<Page<M, I>>)
    requires |pages| > 0 && pages[|pages| - 1].nextToken.None?
    requires forall j :: 0 <= j < |pages| - 1 ==> pages[j].nextToken.Some?
    ensures var script := seq(|pages|, j requires 0 <= j < |pages| => Ok(pages[j]));
      StopIndex(script) == |pages| - 1 && OkCount(script) == |pages|
    decreases |pages|
  {
    var script := seq(|pages|, j requires 0 <= j < |pages| => Ok(pages[j]));
    if |pages| > 1 {
      PagesStop(pages[1..]);
      assert script[1..] == seq(|pages[1..]|, j requires 0 <= j < |pages[1..]| => Ok(pages[1..][j]));
    }
  }

  lemma {:induction false} OkItemsOfPages<M, I>(pages: seq<Page<M, I>>)
    ensures var script := seq(|pages|, j requires 0 <= j < |pages| => Ok(pages[j]));
      OkItems(script) == Flatten(seq(|pages|, j requires 0 <= j < |pages| => pages[j].items))
    decreases |pages|
  {
    var script := seq(|pages|, j requires 0 <= j < |pages| => Ok(pages[j]));
    if |pages| > 0 {
      OkItemsOfPages(pages[1..]);
      assert script[1..] == seq(|pages[1..]|, j requires 0 <= j < |pages[1..]| => Ok(pages[1..][j]));
      var items := seq(|pages|, j requires 0 <= j < |pages| => pages[j].items);
      assert items[1..] == seq(|pages[1..]|, j requires 0 <= j < |pages[1..]| => pages[1..][j].items);
    }
  }
}
