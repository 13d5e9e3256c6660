/** `api_extension_details`: the extension found by a one-page query, with one
    `version_info` entry per version giving its cleaned minimum editor version or the
    reason there is none. */
module Details {
  import opened Wrappers
  import opened Seqs
  import opened Query
  import opened Engine
  import opened Selection

  const NoManifest := "No manifest found"
  const ErrorPrefix := "Error: "

  datatype VersionInfo = VersionInfo(version: Option<string>, minVscode: string)

  /** The entry appended for one version. */
  function InfoFor(v: VersionEntry, fetch: string -> ManifestReply): (r: VersionInfo)
    ensures r.version == v.version
    ensures MinimumFor(v, fetch, DetailMissing).Some? ==>
      r.minVscode == MinimumFor(v, fetch, DetailMissing).value && '^' !in r.minVscode
    ensures (FindManifest(v.files).None? || !Truthy(FindManifest(v.files).value.source)) ==>
      r.minVscode == NoManifest
    ensures (FindManifest(v.files).Some? && Truthy(FindManifest(v.files).value.source)
             && fetch(FindManifest(v.files).value.source.value).FetchFailed?) ==>
      ErrorPrefix <= r.minVscode
  {
    var manifest := FindManifest(v.files);
    if manifest.Some? && Truthy(manifest.value.source) then
      match fetch(manifest.value.source.value)
      case FetchFailed(reason) => VersionInfo(v.version, ErrorPrefix + reason)
      case Manifest(engine) => VersionInfo(v.version, CleanConstraint(engine.GetOr(DetailMissing)))
    else VersionInfo(v.version, NoManifest)
  }

  /** The `version_info` loop: one entry per version, in order. */
  method BuildVersionInfo(versions: seq<VersionEntry>, fetch: string -> ManifestReply)
    returns (info: seq<VersionInfo>)
    ensures |info| == |versions|
    ensures forall i :: 0 <= i < |versions| ==> info[i] == InfoFor(versions[i], fetch)
  {
    info := [];
    for i := 0 to |versions|
      invariant |info| == i
      invariant forall j :: 0 <= j < i ==> info[j] == InfoFor(versions[j], fetch)
    {
      var v := versions[i];
      var manifest := FindManifest(v.files);
      var entry: VersionInfo;
      if manifest.Some? && Truthy(manifest.value.source) {
        match fetch(manifest.value.source.value)
        case FetchFailed(reason) =>
          entry := VersionInfo(v.version, ErrorPrefix + reason);
        case Manifest(engine) =>
          entry := VersionInfo(v.version, CleanConstraint(engine.GetOr(DetailMissing)));
      } else {
        entry := VersionInfo(v.version, NoManifest);
      }
      info := info + [entry];
    }
  }

  /** The three responses: 500 when the query raises, 404 when it finds nothing, and
      otherwise the first extension with its version information. */
  datatype DetailsResponse =
    | ServerError
    | NotFound
    | Found(extension: Extension, versionInfo: seq<VersionInfo>)

  /** `api_extension_details`. */
  method ExtensionDetails(extensionId: string, reply: QueryBody -> Option<seq<Extension>>,
                          fetch: string -> ManifestReply)
    returns (response: DetailsResponse)
    ensures var run := PagesFrom(ExtensionQuery(extensionId), reply, 1);
      && (response == ServerError <==> run.failed)
      && (response == NotFound <==> !run.failed && Concat(run.pages) == [])
      && (response.Found? ==> response.extension == Concat(run.pages)[0])
    ensures response.Found? ==>
      && |response.versionInfo| == |response.extension.versions|
      && forall i :: 0 <= i < |response.versionInfo| ==>
           response.versionInfo[i] == InfoFor(response.extension.versions[i], fetch)
  {
    var _, details := FetchExtensions(ExtensionQuery(extensionId), reply);
    if details.None? {
      return ServerError;
    }
    if details.value == [] {
      return NotFound;
    }
    var extension := details.value[0];
    var info := BuildVersionInfo(extension.versions, fetch);
    response := Found(extension, info);
  }
}
