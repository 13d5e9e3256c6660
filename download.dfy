/** `api_download_extensions`: for each requested extension, query it, pick the first
    accepted version in list order, download that package and add it to the archive
    under its canonical file name. The archive is modelled as its list of entries;
    compressing them is left to the zip library. */
module Download {
  import opened Wrappers
  import opened Seqs
  import opened Locator
  import opened Query
  import opened Engine
  import opened Selection

  /** One element of the request's `extensions` list. */
  datatype DownloadRequest = DownloadRequest(publisher: string, extension: string)

  /** The reply to `requests.get(url)`: it raises, or it returns a status and a body. */
  datatype PackageReply = ConnectionError | Response(status: int, content: seq<bv8>)

  datatype ArchiveEntry = ArchiveEntry(name: string, content: seq<bv8>)

  /** 500 with the exception text (modelled without it), or the zip with these entries. */
  datatype DownloadResponse = ServerError | Archive(entries: seq<ArchiveEntry>)

  /** What one requested extension contributes: an exception that aborts the request,
      nothing, or one archive entry. */
  datatype StepOutcome = Abort | Skip | Add(entry: ArchiveEntry)

  /** The marketplace identifier queried for a request. */
  function ExtensionIdOf(r: DownloadRequest): string {
    r.publisher + "." + r.extension
  }

  /** The package a chosen version names; the bulk path never passes a target platform. */
  function PackageOf(r: DownloadRequest, version: string): (p: VsixPackage)
    ensures p.target == None
  {
    VsixPackage(r.publisher, r.extension, version, None)
  }

  /** The body of the outer loop for one request, as a function of the environment. */
  function Step(r: DownloadRequest, target: Option<string>, reply: QueryBody -> Option<seq<Extension>>,
                fetch: string -> ManifestReply, cmp: Comparator, download: string -> PackageReply): StepOutcome
  {
    var run := PagesFrom(ExtensionQuery(ExtensionIdOf(r)), reply, 1);
    if run.failed then Abort
    else if Concat(run.pages) == [] then Skip
    else
      var compatible := FirstCompatibleVersion(Concat(run.pages)[0].versions, target, fetch, cmp);
      if !Truthy(compatible) then Skip
      else
        var package := PackageOf(r, compatible.value);
        match download(Url(package))
        case ConnectionError => Abort
        case Response(status, content) =>
          if status == 200 then Add(ArchiveEntry(VsixName(package), content)) else Skip
  }

  /** The response after one more request: an abort fails it for good. */
  function Extend(response: DownloadResponse, outcome: StepOutcome): DownloadResponse {
    match response
    case ServerError => ServerError
    case Archive(entries) =>
      match outcome
      case Abort => ServerError
      case Skip => Archive(entries)
      case Add(entry) => Archive(entries + [entry])
  }

  /** `Step` with the environment fixed, as the loop sees it. */
  function StepOf(target: Option<string>, reply: QueryBody -> Option<seq<Extension>>,
                  fetch: string -> ManifestReply, cmp: Comparator,
                  download: string -> PackageReply): DownloadRequest -> StepOutcome
  {
    r => Step(r, target, reply, fetch, cmp, download)
  }

  /** The loop over the requested extensions for any per-request outcome, over a prefix. */
  function Run(requests: seq<DownloadRequest>, step: DownloadRequest -> StepOutcome): DownloadResponse {
    if requests == [] then Archive([])
    else Extend(Run(requests[..|requests| - 1], step), step(requests[|requests| - 1]))
  }

  /** The whole request. */
  function DownloadSpec(requests: seq<DownloadRequest>, target: Option<string>,
                        reply: QueryBody -> Option<seq<Extension>>, fetch: string -> ManifestReply,
                        cmp: Comparator, download: string -> PackageReply): DownloadResponse
  {
    Run(requests, StepOf(target, reply, fetch, cmp, download))
  }

  lemma RunPrefix(requests: seq<DownloadRequest>, i: nat, step: DownloadRequest -> StepOutcome)
    requires i < |requests|
    ensures Run(requests[..i + 1], step) == Extend(Run(requests[..i], step), step(requests[i]))
  {
    assert requests[..i + 1][..i] == requests[..i];
  }

  /** The loop body for one requested extension. */
  method DownloadOne(r: DownloadRequest, target: Option<string>,
                     reply: QueryBody -> Option<seq<Extension>>, fetch: string -> ManifestReply,
                     cmp: Comparator, download: string -> PackageReply)
    returns (outcome: StepOutcome)
    ensures outcome == Step(r, target, reply, fetch, cmp, download)
  {
    var _, details := FetchExtensions(ExtensionQuery(ExtensionIdOf(r)), reply);
    if details.None? {
      return Abort;
    }
    if details.value == [] {
      return Skip;
    }
    var compatible := ScanInListOrder(details.value[0].versions, target, fetch, cmp);
    if !Truthy(compatible) {
      return Skip;
    }
    var package := PackageOf(r, compatible.value);
    var got := download(Url(package));
    if got.ConnectionError? {
      return Abort;
    }
    outcome := if got.status == 200 then Add(ArchiveEntry(VsixName(package), got.content)) else Skip;
  }

  /** `api_download_extensions`: the loop over the requested extensions. */
  method DownloadExtensions(requests: seq<DownloadRequest>, target: Option<string>,
                            reply: QueryBody -> Option<seq<Extension>>, fetch: string -> ManifestReply,
                            cmp: Comparator, download: string -> PackageReply)
    returns (response: DownloadResponse)
    ensures response == DownloadSpec(requests, target, reply, fetch, cmp, download)
  {
    var entries: seq<ArchiveEntry> := [];
    ghost var step := StepOf(target, reply, fetch, cmp, download);
    for i := 0 to |requests|
      invariant Run(requests[..i], step) == Archive(entries)
    {
      var outcome := DownloadOne(requests[i], target, reply, fetch, cmp, download);
      assert outcome == step(requests[i]);
      RunPrefix(requests, i, step);
      match outcome
      case Abort =>
        AbortFailsRequest(requests, i, step);
        return ServerError;
      case Skip =>
      case Add(entry) =>
        entries := entries + [entry];
    }
    assert requests[..|requests|] == requests;
    response := Archive(entries);
  }

  /** A request contributes an entry only for an accepted version: the first one in list
      order, with a truthy version string, whose package downloaded with status 200. The
      entry is named by `get_vsix_name` and holds the downloaded bytes. */
  lemma StepAddsFirstAcceptedVersion(r: DownloadRequest, target: Option<string>,
                                     reply: QueryBody -> Option<seq<Extension>>, fetch: string -> ManifestReply,
                                     cmp: Comparator, download: string -> PackageReply)
    ensures var outcome := Step(r, target, reply, fetch, cmp, download);
      outcome.Add? ==>
        var run := PagesFrom(ExtensionQuery(ExtensionIdOf(r)), reply, 1);
        var versions := Concat(run.pages)[0].versions;
        var k := FirstIndex(versions, Acceptor(target, fetch, cmp, DownloadMissing));
        && !run.failed && Concat(run.pages) != []
        && k < |versions| && Accepted(versions[k], target, fetch, cmp, DownloadMissing)
        && Truthy(versions[k].version)
        && download(Url(PackageOf(r, versions[k].version.value))).Response?
        && download(Url(PackageOf(r, versions[k].version.value))).status == 200
        && outcome.entry == ArchiveEntry(VsixName(PackageOf(r, versions[k].version.value)),
                                         download(Url(PackageOf(r, versions[k].version.value))).content)
  {
  }

  /** When no version of a found extension is accepted, it adds no entry (and does not
      fail the request). */
  lemma NoAcceptedVersionNoEntry(r: DownloadRequest, target: Option<string>,
                                 reply: QueryBody -> Option<seq<Extension>>, fetch: string -> ManifestReply,
                                 cmp: Comparator, download: string -> PackageReply)
    requires var run := PagesFrom(ExtensionQuery(ExtensionIdOf(r)), reply, 1);
      !run.failed && Concat(run.pages) != []
      && forall v :: v in Concat(run.pages)[0].versions ==> !Accepted(v, target, fetch, cmp, DownloadMissing)
    ensures Step(r, target, reply, fetch, cmp, download) == Skip
  {
  }

  /** The converse of `StepAddsFirstAcceptedVersion`: when the query finds the extension
      and its first accepted version in list order has a truthy version string whose
      package downloads with status 200, that package is added under its file name. */
  lemma StepAddsWhenAccepted(r: DownloadRequest, target: Option<string>,
                             reply: QueryBody -> Option<seq<Extension>>, fetch: string -> ManifestReply,
                             cmp: Comparator, download: string -> PackageReply)
    requires var run := PagesFrom(ExtensionQuery(ExtensionIdOf(r)), reply, 1);
      && !run.failed && Concat(run.pages) != []
      && var versions := Concat(run.pages)[0].versions;
         var k := FirstIndex(versions, Acceptor(target, fetch, cmp, DownloadMissing));
         && k < |versions| && Truthy(versions[k].version)
         && download(Url(PackageOf(r, versions[k].version.value))).Response?
         && download(Url(PackageOf(r, versions[k].version.value))).status == 200
    ensures var run := PagesFrom(ExtensionQuery(ExtensionIdOf(r)), reply, 1);
      var versions := Concat(run.pages)[0].versions;
      var v := versions[FirstIndex(versions, Acceptor(target, fetch, cmp, DownloadMissing))].version.value;
      Step(r, target, reply, fetch, cmp, download)
        == Add(ArchiveEntry(VsixName(PackageOf(r, v)), download(Url(PackageOf(r, v))).content))
  {
  }

  /** Every entry of a successful archive comes from one request, and there are never
      more entries than requests. */
  lemma {:induction false} ArchiveEntriesComeFromRequests(requests: seq<DownloadRequest>,
                                                         step: DownloadRequest -> StepOutcome)
    ensures var response := Run(requests, step);
      response.Archive? ==>
        && |response.entries| <= |requests|
        && forall e :: e in response.entries ==> exists i :: 0 <= i < |requests| && step(requests[i]) == Add(e)
  {
    if requests != [] {
      var init := requests[..|requests| - 1];
      ArchiveEntriesComeFromRequests(init, step);
      forall i | 0 <= i < |init| ensures requests[i] == init[i] { }
    }
  }

  /** An aborting step (a failed query or a connection error) fails the whole request,
      whatever the other requests would have given. */
  lemma {:induction false} AbortFailsRequest(requests: seq<DownloadRequest>, i: nat,
                                            step: DownloadRequest -> StepOutcome)
    requires i < |requests| && step(requests[i]) == Abort
    ensures Run(requests, step) == ServerError
    decreases |requests|
  {
    var init := requests[..|requests| - 1];
    if i < |requests| - 1 {
      assert init[i] == requests[i];
      AbortFailsRequest(init, i, step);
    }
  }

  /** The request fails exactly when some requested extension aborts. */
  lemma {:induction false} ServerErrorOnlyOnAbort(requests: seq<DownloadRequest>,
                                                 step: DownloadRequest -> StepOutcome)
    ensures Run(requests, step) == ServerError <==> exists i :: 0 <= i < |requests| && step(requests[i]) == Abort
  {
    if exists i :: 0 <= i < |requests| && step(requests[i]) == Abort {
      var i :| 0 <= i < |requests| && step(requests[i]) == Abort;
      AbortFailsRequest(requests, i, step);
    } else if requests != [] {
      var init := requests[..|requests| - 1];
      ServerErrorOnlyOnAbort(init, step);
      forall i | 0 <= i < |init| ensures step(init[i]) != Abort {
        assert init[i] == requests[i];
      }
    }
  }

  /** The entry one outcome contributes to the archive, if any. */
  function EntryOf(outcome: StepOutcome): seq<ArchiveEntry> {
    if outcome.Add? then [outcome.entry] else []
  }

  /** The entries of the requests that add one, in request order. */
  function AddedEntries(requests: seq<DownloadRequest>, step: DownloadRequest -> StepOutcome): seq<ArchiveEntry> {
    if requests == [] then [] else EntryOf(step(requests[0])) + AddedEntries(requests[1..], step)
  }

  lemma {:induction false} AddedEntriesAppend(requests: seq<DownloadRequest>, r: DownloadRequest,
                                             step: DownloadRequest -> StepOutcome)
    ensures AddedEntries(requests + [r], step) == AddedEntries(requests, step) + EntryOf(step(r))
  {
    if requests != [] {
      assert (requests + [r])[1..] == requests[1..] + [r];
      AddedEntriesAppend(requests[1..], r, step);
    }
  }

  /** A successful archive holds exactly the entries of the requests that add one, in
      request order. */
  lemma {:induction false} ArchiveIsAddedEntries(requests: seq<DownloadRequest>, step: DownloadRequest -> StepOutcome)
    ensures Run(requests, step).Archive? ==> Run(requests, step).entries == AddedEntries(requests, step)
  {
    if requests != [] {
      var init := requests[..|requests| - 1];
      var last := requests[|requests| - 1];
      ArchiveIsAddedEntries(init, step);
      AddedEntriesAppend(init, last, step);
      assert init + [last] == requests;
    }
  }
}
