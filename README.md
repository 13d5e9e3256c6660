# VS Code extension downloader: a Dafny model of its core

The downloader is a small Django application. It searches the Visual Studio Marketplace for
VS Code extensions, picks a version of an extension that a given editor version can run (the
first compatible one in list order, or the first after a descending sort of the version
strings), and packs the chosen `.vsix` packages into one zip archive. This project models its
deterministic core in Dafny and proves properties of that model:

- **Locator** (`vscode_downloader/models.py`): `VsixPackage`, with the marketplace download URL
  (`get_url`) and the canonical file name (`get_vsix_name`). The fields never change after
  `__init__`, so the package is a datatype and both methods are functions of its fields.
- **Query** (`get_vscode_extensions`): the `flags` bitmask built from twelve boolean options,
  the ordered filter `criteria`, the request body of each page, and the paging loop. The loop
  requests pages `1..max_page` and stops right after a page whose length differs from
  `page_size`. The marketplace reply is an abstract function from request body to page
  (`None` when the request or its decoding raises), and the pager is a method proved equal to
  a recursive specification.
- **Engine**: the lookup of a version's manifest asset, and the cleanup
  `c.replace('^', '').replace('>=', '')` of its `engines.vscode` constraint, modelled on
  Python's `str.replace`.
- **Ordering**: Python's order on strings, and the `sorted(..., reverse=True)` of an
  extension's versions by their version string (missing versions count as `"0.0.0"`).
- **Selection**: the two version scans. `api_download_extensions` takes the first compatible
  version in list order. `api_compatible_version` takes the first compatible version after the
  descending string sort. A version is compatible when its manifest can be fetched and
  `semver.compare(target, minimum)` returns a value >= 0 without raising. `semver.compare` is
  an abstract comparator that returns `None` when it would raise.
- **Details**: the one-entry-per-version `version_info` list of `api_extension_details`,
  together with its 500 and 404 outcomes.
- **Download**: the loop of `api_download_extensions` over the requested extensions. It
  queries each one, picks a version, downloads the package, and adds an archive entry named by
  `get_vsix_name`. A failed query, or a connection error on the package download, fails the
  whole request; a package reply with a status other than 200 only skips that extension.

Modules: `Wrappers` holds `Option` and Python truthiness, `Seqs` holds the first-index search
and concatenation; then `Locator`, `Query`, `Engine`, `Ordering`, `Selection`, `Details` and
`Download`.

Facts of the code that the model keeps:

- The cleanup deletes every `^` and every `>=` anywhere in the constraint, not only a leading
  qualifier (vscode_downloader/views.py:99, 259, 311, 360).
- The bulk download never passes a target platform to `VsixPackage`
  (vscode_downloader/views.py:268-272).
- The routes at vscode_downloader/urls.py:9-11 and 15-16 name views
  (`api_start_bulk_download`, `api_download_status`, `api_get_bulk_download_zip`,
  `api_start_extension_download`) that vscode_downloader/views.py does not define, so they are
  not modelled.

## Model

| member | source | states |
|---|---|---|
| Locator.PackagePath | vscode_downloader/models.py:14-17 | defines the download URL without a query string: the marketplace prefix, publisher, `/vsextensions/`, extension, version and `/vspackage`; no contract of its own |
| Locator.Url | vscode_downloader/models.py:13-20 | the URL starts with the fixed marketplace prefix and with the package path; it contains `?` exactly when the target is truthy or a field itself contains `?` |
| Locator.PrefixHasNoQuery | vscode_downloader/models.py:14-16 | the marketplace prefix carries no query string |
| Locator.UrlWithoutTarget | vscode_downloader/models.py:18 | with no target or an empty (falsy) one, the URL is the bare package path, the same for `None` and `""` |
| Locator.UrlWithTarget | vscode_downloader/models.py:18-19 | a non-empty target appends exactly `?targetPlatform=` and the target to the target-less URL |
| Locator.VsixName | vscode_downloader/models.py:22-23 | the name is publisher, `.`, extension, `-`, version, `.vsix`, each at its position, and its length is the sum of the field lengths plus 7 |
| Locator.VsixNameIgnoresTarget | vscode_downloader/models.py:22-23 | the file name does not depend on the target platform |
| Locator.PlatformBuildsCollide | vscode_downloader/models.py:13-23 | two builds of one version for different platforms share a file name but have different URLs |
| Locator.SplitAtFirst | vscode_downloader/models.py:23 | a string split at the first occurrence of a separator absent from the head gives back head and tail |
| Locator.VsixNameNested | vscode_downloader/models.py:23 | the name regrouped as publisher, `.`, and the rest |
| Locator.SplitAtLast | vscode_downloader/models.py:23 | a string split at the last occurrence of a separator absent from the tail gives back head and tail |
| Locator.VsixNameInjective | vscode_downloader/models.py:22-23 | when publishers have no `.` and versions no `-` (the extension name may hold both), equal file names mean equal publisher, extension and version |
| Query.ExtensionQuery | vscode_downloader/views.py:288 | the one-extension query asks for one page and filters on that identifier only |
| Query.Flags | vscode_downloader/views.py:135-173 | defines the `flags` bitmask, one `|=` per enabled option in the source's order; no contract of its own (its bits are stated by the three rows below) |
| Query.FlagBits | vscode_downloader/views.py:135-173 | each of the twelve options owns its bit (0x1 ... 0x200, 0x1000, 0x8000), set exactly when the option is true; so the repeated `include_shared_accounts` step has no effect |
| Query.FlagsWithinKnown | vscode_downloader/views.py:135-173 | no bit outside the twelve option bits is ever set |
| Query.FlagsDecode | vscode_downloader/views.py:135-173 | equal flags exactly when the twelve options are equal |
| Query.DefaultFlags | vscode_downloader/views.py:126-173 | the default arguments give flags 0x81DF |
| Query.Criteria | vscode_downloader/views.py:177-195 | the target filter (8, `Microsoft.VisualStudio.Code`) comes first; filter 10 is present iff the search query is truthy and filter 7 iff the identifier is; each carries its argument; the order is 8, 10, 7 |
| Query.Body | vscode_downloader/views.py:197-209 | defines the JSON body of one page request: the criteria, page number, page size and flags; no contract of its own |
| Query.BodyVariesOnlyInPage | vscode_downloader/views.py:197-209 | the requests for different pages differ in the page number only |
| Query.PagesFrom | vscode_downloader/views.py:175-220 | defines the paging loop recursively: the pages requested, the pages received, and whether a request failed; its properties are the rows below |
| Query.FullPage | vscode_downloader/views.py:211-220 | defines when the loop goes on after a page: the request succeeded and its page has exactly `page_size` extensions; no contract of its own |
| Query.PagesFromRequests | vscode_downloader/views.py:175 | pages are requested as consecutive numbers from 1, never more than `max_page` of them, and one more page is requested than received exactly when the last request failed |
| Query.PagesFromReplies | vscode_downloader/views.py:211-218 | each received page is the reply to the request for its page number |
| Query.PagesFromStops | vscode_downloader/views.py:216-220 | every page but the last came back full; the last one failed, came back short, or was page `max_page` |
| Query.AfterFullPage | vscode_downloader/views.py:219-220 | a full page moves from the remaining run to the pages already received |
| Query.AfterFailedPage | vscode_downloader/views.py:212 | a failed request ends the run with an error |
| Query.AfterShortPage | vscode_downloader/views.py:219-220 | a short page is the last one received |
| Query.FetchExtensions | vscode_downloader/views.py:175-220 | the loop requests exactly the pages of the specification run and yields the concatenation of its pages in order, or fails when a request fails |
| Engine.IsManifest | vscode_downloader/views.py:298 | defines the manifest test `file.get('assetType') == 'Microsoft.VisualStudio.Code.Manifest'`, an absent key never matching; no contract of its own |
| Engine.FindManifest | vscode_downloader/views.py:296-300 | the manifest is the first file whose asset type is the manifest type, and there is none exactly when no file has that type |
| Engine.Replace | vscode_downloader/views.py:259 | defines Python's `str.replace` (every non-overlapping occurrence, scanned from the left) for a non-empty pattern; no contract of its own; used by the cleanup at lines 99, 259, 311 and 360 |
| Engine.ReplaceAbsent | vscode_downloader/views.py:311 | `replace` leaves a string without the pattern unchanged |
| Engine.DeleteKeepsCharacters | vscode_downloader/views.py:311 | deleting a pattern keeps only characters of the input and never lengthens it |
| Engine.DeleteCharRemovesIt | vscode_downloader/views.py:311 | deleting a one-character pattern removes every occurrence of it |
| Engine.CleanConstraint | vscode_downloader/views.py:360 | the cleaned constraint has no `^`, is no longer than the input, and uses only its characters; a constraint with no `^` and no `>=` comes back unchanged (the same cleanup as at lines 99, 259 and 311) |
| Engine.FirstCharAbsent | vscode_downloader/views.py:259 | a pattern whose first character is absent does not occur |
| Engine.PlainIsUnqualified | vscode_downloader/views.py:259 | a constraint with neither `^` nor `>`, such as `1.80.0`, is left alone by the cleanup |
| Engine.LeadingQualifierStripped | vscode_downloader/views.py:259 | `^` or `>=` in front of a plain version is stripped, leaving the version |
| Engine.CaretDeleted | vscode_downloader/views.py:259 | a leading `^` before a `^`-free version is deleted by the first `replace` |
| Engine.GreaterEqualDeleted | vscode_downloader/views.py:259 | a leading `>=` before a `^`-free version survives the first `replace` and is deleted by the second |
| Engine.CleanupIsNotPrefixStripping | vscode_downloader/views.py:259 | the cleanup also deletes an inner `^` (`1^0` gives `10`) and can produce a `>=` (`>>==` gives `>=`) |
| Engine.MinimumFor | vscode_downloader/views.py:353-360 | a version has a minimum exactly when its first manifest asset has a truthy source whose fetch succeeds; the minimum is the cleaned `engines.vscode`, or the missing-key default, and has no `^` |
| Ordering.StrLe | vscode_downloader/views.py:340-344 | defines Python's `<=` on `str`: lexicographic by code point, a prefix below its extensions; no contract of its own |
| Ordering.SortKey | vscode_downloader/views.py:342 | defines the sort key `x.get('version', '0.0.0')`; no contract of its own |
| Ordering.StrLeTotal | vscode_downloader/views.py:340-344 | Python's string order is total |
| Ordering.StrLeTransitive | vscode_downloader/views.py:340-344 | Python's string order is transitive |
| Ordering.Insert | vscode_downloader/views.py:340-344 | inserting into a descending list keeps it descending and adds exactly that element |
| Ordering.BelowHead | vscode_downloader/views.py:340-344 | an element above the head of a descending list is above every element of it |
| Ordering.PrependSorted | vscode_downloader/views.py:340-344 | an element at least every element of a descending list can be put in front of it |
| Ordering.PermutationBounded | vscode_downloader/views.py:340-344 | a bound on every element carries over to a permutation of the list with one element added |
| Ordering.SortVersionsDescending | vscode_downloader/views.py:340-344 | the result is in descending order of version string (missing counts as `0.0.0`) and is a permutation of the input |
| Selection.Accepted | vscode_downloader/views.py:253-263 | defines the per-version test shared with lines 353-362: a target version is given, a manifest asset with a truthy source whose fetch succeeds, and a comparison of the target against the cleaned minimum that gives a value >= 0 without raising; no contract of its own |
| Selection.Probe | vscode_downloader/views.py:347-362 | the per-version test of both scans accepts exactly the versions `Accepted` describes, and then reports their cleaned minimum |
| Selection.FirstCompatibleVersion | vscode_downloader/views.py:246-265 | defines `compatible_version` after the loop: the `version` of the first accepted version in list order, or None; its properties are stated by `ScanInListOrder` and `Seqs.FirstIndex` |
| Selection.ScanInListOrder | vscode_downloader/views.py:247-265 | the result is the `version` of the first accepted version in list order, none accepted before it; no accepted version gives None |
| Selection.CompatibleVersionSpec | vscode_downloader/views.py:333-372 | defines `api_compatible_version`: None when the query raises or finds nothing, else `FirstCompatibleInfo` of the first extension's versions sorted by descending version string; its properties are stated by `FirstCompatibleInfoIsGreatestString` |
| Selection.InfoOf | vscode_downloader/views.py:363-366 | defines the returned dictionary: the version's `version` and its cleaned minimum; no contract of its own |
| Selection.FirstCompatibleInfo | vscode_downloader/views.py:346-370 | defines the result of the scan over the sorted list: the first accepted version with its minimum, or None; no contract of its own |
| Selection.CompatibleVersion | vscode_downloader/views.py:329-372 | `api_compatible_version` returns None when the query raises or finds nothing, else the first accepted version of the string-sorted list, with its cleaned minimum |
| Selection.ScanSorted | vscode_downloader/views.py:346-370 | the loop over the sorted list returns the first accepted version with its cleaned minimum, or None when no version is accepted |
| Selection.FirstOfSortedIsGreatest | vscode_downloader/views.py:340-351 | the first version of the sorted list passing a test has the largest version string of all versions passing it; there is none exactly when none passes |
| Selection.FirstCompatibleInfoIsGreatestString | vscode_downloader/views.py:340-370 | the sorted scan returns None exactly when no version is accepted; otherwise an accepted version, whose minimum has no `^`, with no accepted version having a larger version STRING |
| Selection.BestAmong | vscode_downloader/views.py:331 | the best index found so far satisfies the test |
| Selection.RaiseBest | vscode_downloader/views.py:331 | under a total preorder, a key above the best so far is above everything the best bounded |
| Selection.BestAmongIsHighest | vscode_downloader/views.py:331 | under a total preorder, the scan finds a version passing the test exactly when there is one, and none passing it ranks higher |
| Selection.HighestCompatibleSpec | vscode_downloader/views.py:331 | defines the corrected answer: the best accepted version under the given order, with its minimum, or None; its properties are stated by `HighestCompatibleSpecIsHighest` |
| Selection.HighestCompatibleVersion | vscode_downloader/views.py:329-372 | the corrected scan, keeping the best accepted version seen so far, returns exactly the corrected specification's answer |
| Selection.HighestCompatibleSpecIsHighest | vscode_downloader/views.py:331 | the corrected answer is None exactly when no version is accepted; otherwise an accepted version with its minimum, and no accepted version ranks above it under the given order, as the docstring promises |
| Selection.ExampleManifest | vscode_downloader/views.py:347-351 | in the example, the version's first file is its manifest |
| Selection.ExampleCleanup | vscode_downloader/views.py:360 | `^1.0.0` cleans to `1.0.0` |
| Selection.ExampleMinimum | vscode_downloader/views.py:347-360 | both example versions have the minimum `1.0.0` |
| Selection.ExampleAccepted | vscode_downloader/views.py:353-362 | both example versions are accepted for target `1.80.0` when the comparator returns 1 for `1.80.0` against `1.0.0` |
| Selection.ExampleStringOrder | vscode_downloader/views.py:340-344 | `"1.9.0"` sorts above `"1.10.0"` as a string |
| Selection.ExampleSorted | vscode_downloader/views.py:340-344 | sorting `1.10.0`, `1.9.0` by string puts `1.9.0` first |
| Selection.StringSortMissesHighest | vscode_downloader/views.py:340-366 | with both versions accepted, the scan as written returns `1.9.0` although `1.10.0` is accepted and ranks higher |
| Selection.CorrectedScanFindsNewer | vscode_downloader/views.py:331 | on the same input the corrected scan returns `1.10.0` |
| Details.InfoFor | vscode_downloader/views.py:302-322 | each entry carries the version's `version`; its minimum is the cleaned constraint when the manifest is fetched, `No manifest found` without a usable manifest, and starts with `Error: ` when the fetch fails |
| Details.BuildVersionInfo | vscode_downloader/views.py:295-322 | exactly one entry per version, in the same order |
| Details.ExtensionDetails | vscode_downloader/views.py:286-327 | 500 exactly when the query raises, 404 exactly when it finds nothing, otherwise the first extension with its version information |
| Download.ExtensionIdOf | vscode_downloader/views.py:238 | defines the queried identifier `publisher.extension`; no contract of its own |
| Download.Step | vscode_downloader/views.py:237-276 | defines the outcome of one requested extension (abort, skip, or add an entry); its properties are `StepAddsFirstAcceptedVersion`, `StepAddsWhenAccepted` and `NoAcceptedVersionNoEntry` |
| Download.PackageOf | vscode_downloader/views.py:267-272 | the bulk path builds packages without a target platform |
| Download.Extend | vscode_downloader/views.py:237-284 | defines the effect of one outcome on the response: an abort turns it into the 500 of the outer `except`, a skip leaves it, an added entry is appended; a 500 stays a 500; no contract of its own |
| Download.Run | vscode_downloader/views.py:234-284 | defines the loop over the requested extensions, for any per-request outcome, as the fold of `Extend` from an empty archive; its properties are the `Download` lemmas below |
| Download.DownloadSpec | vscode_downloader/views.py:226-284 | defines the whole response of `api_download_extensions` as `Run` over `Step`; `DownloadExtensions` is proved equal to it |
| Download.RunPrefix | vscode_downloader/views.py:237 | one more request extends the response by that request's outcome |
| Download.DownloadOne | vscode_downloader/views.py:237-276 | the loop body for one requested extension gives the outcome the specification `Step` gives |
| Download.DownloadExtensions | vscode_downloader/views.py:226-284 | the response is the specification's response: a failed query, or a connection error on the package download, for any request gives the error; a package reply with a status other than 200 only skips that extension; otherwise the archive of the entries the requests add, in order |
| Download.StepAddsFirstAcceptedVersion | vscode_downloader/views.py:246-276 | a request adds an entry only for the first accepted version in list order with a truthy version, downloaded with status 200; the entry is named by `get_vsix_name` and holds the downloaded bytes |
| Download.NoAcceptedVersionNoEntry | vscode_downloader/views.py:246-267 | an extension with no accepted version adds nothing and does not fail the request |
| Download.ArchiveEntriesComeFromRequests | vscode_downloader/views.py:236-276 | every entry comes from a request, and there are never more entries than requests |
| Download.StepAddsWhenAccepted | vscode_downloader/views.py:246-276 | conversely, when the query finds the extension and its first accepted version in list order has a truthy version whose package downloads with status 200, exactly that package is added under its `get_vsix_name` |
| Download.AbortFailsRequest | vscode_downloader/views.py:283-284 | a failed query or a connection error for any request fails the whole request |
| Download.ServerErrorOnlyOnAbort | vscode_downloader/views.py:236-284 | the request fails exactly when some requested extension's query fails or its package download raises a connection error; a package reply with a status other than 200 only skips that extension |
| Download.AddedEntries | vscode_downloader/views.py:237-276 | defines the entries the requests add, in request order; no contract of its own |
| Download.AddedEntriesAppend | vscode_downloader/views.py:237-276 | one more request appends its entry, if any, to the added entries |
| Download.ArchiveIsAddedEntries | vscode_downloader/views.py:236-276 | a successful archive holds exactly the entries the requests add, in request order |
| Seqs.FirstIndex | vscode_downloader/views.py:247-252 | the search `next(...)` performs: the index is at most the length, no earlier element passes, and the element there, if any, passes |
| Seqs.Concat | vscode_downloader/views.py:216-217 | defines the extensions yielded by the pages, in order; no contract of its own |
| Seqs.FirstIndexUnique | vscode_downloader/views.py:247-265 | the first index passing a test is the only index that passes it with none passing before |
| Seqs.ConcatAppend | vscode_downloader/views.py:216-217 | appending a page appends its extensions |

## Left out

- HTTP and JSON are parameters. The marketplace query is a `reply` function from request body to page. The manifest fetch is a `fetch` function giving a manifest or the exception text. The package download is a `download` function. A raised exception is a `None`, `FetchFailed` or `ConnectionError` value.
- Non-string values in the manifest are not modelled: the model reads `engines.vscode` as an optional string. A non-string constraint raises inside the inner `try`; the details path turns that into a 500 (its inner `except` catches only request and JSON-decoding errors), and the other two paths skip the version.
- A `files` entry that is not a dictionary, and other shapes of the marketplace reply that the code does not expect, are not modelled. Such an entry raises in the `next(...)` search, which runs outside the inner `try` (vscode_downloader/views.py:248-252, 296-300, 347-351). The whole view then fails: the download and details paths answer 500, and `api_compatible_version` returns None.
- `raise_for_status` on the detail and compatible-version paths is folded into `FetchFailed`. On the download path, a non-JSON error page makes `.json()` raise, which the bare `except` also skips, so both paths are modelled alike.
- `semver.compare` is an abstract comparator (`None` when it raises). The corrected scan takes any total preorder on version strings, not Semantic Versioning 2.0.0 precedence itself.
- Building the zip (`zipfile`, `BytesIO`, compression) is left to the library. The archive is modelled as its list of entries. Entries with the same name are all kept, as `writestr` appends them.
- Django routing, rendering, CSRF decorators and the JSON bodies of `JsonResponse` and `HttpResponse` are not modelled. Error responses are constructors without the exception text, except `Error: ` plus the text in `version_info`.
- `get_extension_details` (views.py:68-123) is not modelled. It is the HTML twin of `api_extension_details`, with different error texts. `browse_extensions`, `extension_list` and the `download_extensions` stub are not modelled either.
- The session object and the `Accept` header (with its `api-version`) are not modelled: they do not change which extensions are found.
- A request element without `publisher` or `extension`, and a request body that is not JSON, are not modelled. In the code these raise and give a 500.
- A version whose `version` key is present but null is read as an absent key: the model only distinguishes a present string from an absent one. In the code, with two or more versions the sort then raises (None is not comparable with str) and `api_compatible_version` returns None; the model does not reproduce that. With a single version the sort compares nothing and the scan goes on, and the model's `version: None` result agrees with the code.
- Ordering.SortVersionsDescending: only sortedness and permutation are proved. That the sort is stable, like Python's (equal version strings keep their list order), is not stated.
- Query.Flags: it has no contract of its own. Its bits are stated by `Query.FlagBits`, `Query.FlagsWithinKnown` and `Query.FlagsDecode`.
- Download.DownloadExtensions: the 500 response does not carry the exception text.

## Findings

| source | as written | input that shows it | evidently intended | confidence | as-written member | corrected member |
|---|---|---|---|---|---|---|
| vscode_downloader/views.py:340-366 | `api_compatible_version` sorts versions by their version STRING, descending, and returns the first compatible one | versions `1.10.0` and `1.9.0`, both with `engines.vscode` `^1.0.0`, target `1.80.0`: the string sort puts `1.9.0` first, so it is returned | the docstring promises the highest compatible version, i.e. `1.10.0` under semantic-version precedence | not executed | Selection.StringSortMissesHighest | Selection.HighestCompatibleVersion |
