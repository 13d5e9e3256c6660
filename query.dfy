/** The marketplace query builder and pager (`get_vscode_extensions`): the `flags`
    bitmask, the ordered filter criteria, the request body of each page, and the
    loop that requests pages until one comes back short. The HTTP exchange itself is
    an abstract `reply` function from request body to page (None when the call or
    its decoding raises). */
module Query {
  import opened Wrappers
  import opened Seqs

  const MarketplaceTarget := "Microsoft.VisualStudio.Code"
  const TargetFilter := 8
  const SearchFilter := 10
  const ExtensionIdFilter := 7

  /** The twelve boolean keyword arguments of `get_vscode_extensions`, each of which
      may add a bit to `flags`. */
  datatype FlagOptions = FlagOptions(
    includeVersions: bool,
    includeFiles: bool,
    includeCategoryAndTags: bool,
    includeSharedAccounts: bool,
    includeVersionProperties: bool,
    excludeNonValidated: bool,
    includeInstallationTargets: bool,
    includeAssetUri: bool,
    includeStatistics: bool,
    includeLatestVersionOnly: bool,
    unpublished: bool,
    includeNameConflictInfo: bool)

  /** The keyword arguments of `get_vscode_extensions` that shape the request. */
  datatype QueryOptions = QueryOptions(
    searchQuery: Option<string>,
    extensionId: Option<string>,
    maxPage: int,
    pageSize: int,
    flags: FlagOptions,
    apiVersion: string)

  /** The defaults of the Python signature. */
  const DefaultOptions := QueryOptions(
    None, None, 10000, 100,
    FlagOptions(true, true, true, true, true, false, true, true, true, false, false, true),
    "7.2-preview.1")

  /** The options used by the detail, compatible-version and download paths:
      one page, filtered on one extension identifier. */
  function ExtensionQuery(extensionId: string): (o: QueryOptions)
    ensures o.maxPage == 1 && o.extensionId == Some(extensionId) && o.searchQuery == None
  {
    DefaultOptions.(extensionId := Some(extensionId), maxPage := 1)
  }

  /** Every bit any option can set. */
  const KnownFlags: bv16 := 0x93FF

  /** `flags`, accumulated by one `|=` per enabled option, in the order of the source
      (including its repeated `include_shared_accounts` step). */
  function Flags(o: FlagOptions): bv16
  {
    var f: bv16 := 0;
    var f := f | (if o.includeVersions then 0x1 else 0);
    var f := f | (if o.includeFiles then 0x2 else 0);
    var f := f | (if o.includeCategoryAndTags then 0x4 else 0);
    var f := f | (if o.includeSharedAccounts then 0x8 else 0);
    var f := f | (if o.includeSharedAccounts then 0x8 else 0);
    var f := f | (if o.includeVersionProperties then 0x10 else 0);
    var f := f | (if o.excludeNonValidated then 0x20 else 0);
    var f := f | (if o.includeInstallationTargets then 0x40 else 0);
    var f := f | (if o.includeAssetUri then 0x80 else 0);
    var f := f | (if o.includeStatistics then 0x100 else 0);
    var f := f | (if o.includeLatestVersionOnly then 0x200 else 0);
    var f := f | (if o.unpublished then 0x1000 else 0);
    var f := f | (if o.includeNameConflictInfo then 0x8000 else 0);
    f
  }

  /** Each of the twelve options owns one bit of `flags`, set exactly when the option is
      true, and no other bit is ever set. */
  lemma FlagBits(o: FlagOptions)
    ensures (Flags(o) & 0x1 != 0) == o.includeVersions
    ensures (Flags(o) & 0x2 != 0) == o.includeFiles
    ensures (Flags(o) & 0x4 != 0) == o.includeCategoryAndTags
    ensures (Flags(o) & 0x8 != 0) == o.includeSharedAccounts
    ensures (Flags(o) & 0x10 != 0) == o.includeVersionProperties
    ensures (Flags(o) & 0x20 != 0) == o.excludeNonValidated
    ensures (Flags(o) & 0x40 != 0) == o.includeInstallationTargets
    ensures (Flags(o) & 0x80 != 0) == o.includeAssetUri
    ensures (Flags(o) & 0x100 != 0) == o.includeStatistics
    ensures (Flags(o) & 0x200 != 0) == o.includeLatestVersionOnly
    ensures (Flags(o) & 0x1000 != 0) == o.unpublished
    ensures (Flags(o) & 0x8000 != 0) == o.includeNameConflictInfo
  {
  }

  /** No bit outside the twelve option bits is ever set. */
  lemma FlagsWithinKnown(o: FlagOptions)
    ensures Flags(o) & !KnownFlags == 0
  {
  }

  /** The flags determine the twelve options, and depend on nothing else. */
  lemma FlagsDecode(o: FlagOptions, o': FlagOptions)
    ensures Flags(o) == Flags(o') <==> o == o'
  {
    if o != o' {
      FlagBits(o);
      FlagBits(o');
    }
  }

  lemma DefaultFlags()
    ensures Flags(DefaultOptions.flags) == 0x81DF
  {
  }

  datatype Criterion = Criterion(filterType: int, value: string)

  /** The rank of a filter type in the order the source appends them. */
  function FilterRank(filterType: int): int {
    if filterType == TargetFilter then 0 else if filterType == SearchFilter then 1 else 2
  }

  /** `criteria`: the marketplace target first, then the search text, then the
      extension identifier, each only when its argument is truthy. */
  function Criteria(searchQuery: Option<string>, extensionId: Option<string>): (c: seq<Criterion>)
    ensures |c| >= 1 && c[0] == Criterion(TargetFilter, MarketplaceTarget)
    ensures |c| == 1 + (if Truthy(searchQuery) then 1 else 0) + (if Truthy(extensionId) then 1 else 0)
    ensures (exists i :: 0 <= i < |c| && c[i].filterType == SearchFilter) <==> Truthy(searchQuery)
    ensures (exists i :: 0 <= i < |c| && c[i].filterType == ExtensionIdFilter) <==> Truthy(extensionId)
    ensures forall i :: 0 <= i < |c| && c[i].filterType == SearchFilter ==> c[i].value == searchQuery.value
    ensures forall i :: 0 <= i < |c| && c[i].filterType == ExtensionIdFilter ==> c[i].value == extensionId.value
    ensures forall i, j :: 0 <= i < j < |c| ==> FilterRank(c[i].filterType) < FilterRank(c[j].filterType)
  {
    var c := [Criterion(TargetFilter, MarketplaceTarget)];
    var c := if Truthy(searchQuery) then c + [Criterion(SearchFilter, searchQuery.value)] else c;
    var c := if Truthy(extensionId) then c + [Criterion(ExtensionIdFilter, extensionId.value)] else c;
    assert Truthy(searchQuery) ==> c[1].filterType == SearchFilter;
    assert Truthy(extensionId) ==> c[|c| - 1].filterType == ExtensionIdFilter;
    c
  }

  /** The JSON request body of one page. */
  datatype QueryBody = QueryBody(
    criteria: seq<Criterion>, pageNumber: int, pageSize: int,
    sortBy: int, sortOrder: int, assetTypes: seq<string>, flags: bv16)

  function Body(o: QueryOptions, page: int): QueryBody {
    QueryBody(Criteria(o.searchQuery, o.extensionId), page, o.pageSize, 0, 0, [], Flags(o.flags))
  }

  /** The requests for different pages differ in the page number only. */
  lemma BodyVariesOnlyInPage(o: QueryOptions, page: int, page': int)
    ensures Body(o, page') == Body(o, page).(pageNumber := page')
  {
  }

  /** What the pager did from a given page on: the pages it asked for, the pages it
      received (one fewer than asked for when the last request failed) and whether it
      stopped on a failure. */
  datatype PageRun<E> = PageRun(requested: seq<int>, pages: seq<seq<E>>, failed: bool)

  /** The paging loop from `page` on, as a recursive specification. */
  function PagesFrom<E>(o: QueryOptions, reply: QueryBody -> Option<seq<E>>, page: int): PageRun<E>
    decreases o.maxPage + 1 - page
  {
    if page > o.maxPage then PageRun([], [], false)
    else match reply(Body(o, page))
      case None => PageRun([page], [], true)
      case Some(exts) =>
        if |exts| != o.pageSize then PageRun([page], [exts], false)
        else
          var rest := PagesFrom(o, reply, page + 1);
          PageRun([page] + rest.requested, [exts] + rest.pages, rest.failed)
  }

  /** Whether the reply to page `page` was a full page. */
  predicate FullPage<E>(o: QueryOptions, reply: QueryBody -> Option<seq<E>>, page: int) {
    reply(Body(o, page)).Some? && |reply(Body(o, page)).value| == o.pageSize
  }

  /** The pages a run requests: consecutive from `page`, never past `maxPage`, and one
      more than it received exactly when it failed. */
  lemma {:induction false} PagesFromRequests<E>(o: QueryOptions, reply: QueryBody -> Option<seq<E>>, page: int)
    ensures var run := PagesFrom(o, reply, page);
      && (forall i :: 0 <= i < |run.requested| ==> run.requested[i] == page + i)
      && (page <= o.maxPage ==> 1 <= |run.requested| <= o.maxPage + 1 - page)
      && (page > o.maxPage ==> run.requested == [])
      && |run.pages| == |run.requested| - (if run.failed then 1 else 0)
    decreases o.maxPage + 1 - page
  {
    if page <= o.maxPage && FullPage(o, reply, page) {
      PagesFromRequests(o, reply, page + 1);
      var rest := PagesFrom(o, reply, page + 1);
      var run := PagesFrom(o, reply, page);
      assert run.requested == [page] + rest.requested;
      assert forall i :: 1 <= i < |run.requested| ==> run.requested[i] == rest.requested[i - 1];
    }
  }

  /** Each page a run received is the reply to its request. */
  lemma {:induction false} PagesFromReplies<E>(o: QueryOptions, reply: QueryBody -> Option<seq<E>>, page: int)
    ensures var run := PagesFrom(o, reply, page);
      && |run.pages| <= |run.requested|
      && forall i :: 0 <= i < |run.pages| ==> reply(Body(o, run.requested[i])) == Some(run.pages[i])
    decreases o.maxPage + 1 - page
  {
    if page <= o.maxPage && FullPage(o, reply, page) {
      PagesFromReplies(o, reply, page + 1);
      var rest := PagesFrom(o, reply, page + 1);
      var run := PagesFrom(o, reply, page);
      assert run.requested == [page] + rest.requested;
      assert run.pages == [reply(Body(o, page)).value] + rest.pages;
      assert forall i :: 1 <= i < |run.pages| ==> run.requested[i] == rest.requested[i - 1] && run.pages[i] == rest.pages[i - 1];
    }
  }

  /** Where a run stops: every page but the last came back full, and the last one
      failed, was short, or was `maxPage`. */
  lemma {:induction false} PagesFromStops<E>(o: QueryOptions, reply: QueryBody -> Option<seq<E>>, page: int)
    ensures var run := PagesFrom(o, reply, page);
      && (forall i :: 0 <= i < |run.requested| - 1 ==> FullPage(o, reply, run.requested[i]))
      && (run.failed ==> |run.requested| > 0 && reply(Body(o, run.requested[|run.requested| - 1])).None?)
      && (|run.requested| > 0 && run.requested[|run.requested| - 1] < o.maxPage && !run.failed ==>
            !FullPage(o, reply, run.requested[|run.requested| - 1]))
    decreases o.maxPage + 1 - page
  {
    if page <= o.maxPage && FullPage(o, reply, page) {
      PagesFromStops(o, reply, page + 1);
      var rest := PagesFrom(o, reply, page + 1);
      var run := PagesFrom(o, reply, page);
      assert run.requested == [page] + rest.requested;
    }
  }

  /** A run preceded by pages already requested and received. */
  function After<E>(requested: seq<int>, pages: seq<seq<E>>, run: PageRun<E>): PageRun<E> {
    PageRun(requested + run.requested, pages + run.pages, run.failed)
  }

  /** One full page moves from the remaining run to the pages already received. */
  lemma AfterFullPage<E>(o: QueryOptions, reply: QueryBody -> Option<seq<E>>, page: int,
                         requested: seq<int>, pages: seq<seq<E>>)
    requires page <= o.maxPage && FullPage(o, reply, page)
    ensures After(requested, pages, PagesFrom(o, reply, page))
         == After(requested + [page], pages + [reply(Body(o, page)).value], PagesFrom(o, reply, page + 1))
  {
    var rest := PagesFrom(o, reply, page + 1);
    assert requested + ([page] + rest.requested) == requested + [page] + rest.requested;
    assert pages + ([reply(Body(o, page)).value] + rest.pages) == pages + [reply(Body(o, page)).value] + rest.pages;
  }

  /** A failed request ends the run. */
  lemma AfterFailedPage<E>(o: QueryOptions, reply: QueryBody -> Option<seq<E>>, page: int,
                           requested: seq<int>, pages: seq<seq<E>>)
    requires page <= o.maxPage && reply(Body(o, page)).None?
    ensures After(requested, pages, PagesFrom(o, reply, page)) == PageRun(requested + [page], pages, true)
  {
  }

  /** A short page is the last one received. */
  lemma AfterShortPage<E>(o: QueryOptions, reply: QueryBody -> Option<seq<E>>, page: int,
                          requested: seq<int>, pages: seq<seq<E>>)
    requires page <= o.maxPage && reply(Body(o, page)).Some? && !FullPage(o, reply, page)
    ensures After(requested, pages, PagesFrom(o, reply, page))
         == PageRun(requested + [page], pages + [reply(Body(o, page)).value], false)
  {
  }

  /** `get_vscode_extensions` with the HTTP exchange abstracted: requests pages 1, 2, ...,
      yields each page's extensions, and stops after `maxPage` pages or right after a
      page whose length differs from `pageSize`. A failed request ends the run with an
      error (in Python, the exception reaches the consumer of the generator). */
  method FetchExtensions<E>(o: QueryOptions, reply: QueryBody -> Option<seq<E>>)
    returns (requested: seq<int>, result: Option<seq<E>>)
    ensures var run := PagesFrom(o, reply, 1);
      requested == run.requested && result == (if run.failed then None else Some(Concat(run.pages)))
  {
    requested := [];
    var pages: seq<seq<E>> := [];
    var items: seq<E> := [];
    var page := 1;
    var done, failed := false, false;
    while !done && page <= o.maxPage
      invariant 1 <= page
      invariant items == Concat(pages)
      invariant done ==> PagesFrom(o, reply, 1) == PageRun(requested, pages, failed)
      invariant !done ==> !failed && PagesFrom(o, reply, 1) == After(requested, pages, PagesFrom(o, reply, page))
      decreases o.maxPage + 1 - page, if done then 0 else 1
    {
      var r := reply(Body(o, page));
      if r.None? {
        AfterFailedPage(o, reply, page, requested, pages);
        requested := requested + [page];
        done, failed := true, true;
      } else if |r.value| != o.pageSize {
        AfterShortPage(o, reply, page, requested, pages);
        ConcatAppend(pages, r.value);
        requested := requested + [page];
        pages := pages + [r.value];
        items := items + r.value;
        done := true;
      } else {
        AfterFullPage(o, reply, page, requested, pages);
        ConcatAppend(pages, r.value);
        requested := requested + [page];
        pages := pages + [r.value];
        items := items + r.value;
        page := page + 1;
      }
    }
    if !done {
      assert requested + [] == requested && pages + [] == pages;
    }
    result := if failed then None else Some(items);
  }
}
