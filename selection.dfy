/** Choosing a version of an extension for a target editor version: the in-order scan
    of `api_download_extensions` and the sorted scan of `api_compatible_version`.
    The `semver.compare` call is an abstract comparator that may raise. */
module Selection {
  import opened Wrappers
  import opened Seqs
  import opened Query
  import opened Engine
  import opened Ordering

  /** `semver.compare(a, b)`: negative, zero or positive, or None when it raises
      (a string that is not a semantic version, such as "N/A" or ""). */
  type Comparator = (string, string) -> Option<int>

  /** The per-version test both scans share: a target to compare against, a cleaned
      minimum from the manifest, and `semver.compare(target, minimum) >= 0` without
      raising. `missing` is what an absent `engines.vscode` reads as. */
  predicate Accepted(v: VersionEntry, target: Option<string>, fetch: string -> ManifestReply,
                     cmp: Comparator, missing: string)
  {
    && target.Some?
    && MinimumFor(v, fetch, missing).Some?
    && cmp(target.value, MinimumFor(v, fetch, missing).value).Some?
    && cmp(target.value, MinimumFor(v, fetch, missing).value).value >= 0
  }

  function Acceptor(target: Option<string>, fetch: string -> ManifestReply, cmp: Comparator,
                    missing: string): VersionEntry -> bool
  {
    v => Accepted(v, target, fetch, cmp, missing)
  }

  /** The body both loops share: find the manifest asset, fetch it, clean its
      `engines.vscode` (`missing` when absent) and compare the target against it. A
      raised exception, a missing manifest and a failed comparison all reject. */
  method Probe(v: VersionEntry, target: Option<string>, fetch: string -> ManifestReply,
               cmp: Comparator, missing: string)
    returns (accepted: bool, minimum: string)
    ensures accepted == Accepted(v, target, fetch, cmp, missing)
    ensures accepted ==> MinimumFor(v, fetch, missing) == Some(minimum)
  {
    accepted, minimum := false, "";
    var manifest := FindManifest(v.files);
    if manifest.Some? && Truthy(manifest.value.source) {
      var reply := fetch(manifest.value.source.value);
      if reply.Manifest? {
        minimum := CleanConstraint(reply.engine.GetOr(missing));
        if target.Some? {
          var c := cmp(target.value, minimum);
          accepted := c.Some? && c.value >= 0;
        }
      }
    }
  }

  // ---- api_download_extensions: the first accepted version in list order ----

  /** The absent `engines.vscode` reads as "" on the download path. */
  const DownloadMissing := ""

  /** `compatible_version` after the scan: the `version` field of the first accepted
      version in list order, or None when none is accepted. */
  function FirstCompatibleVersion(versions: seq<VersionEntry>, target: Option<string>,
                                  fetch: string -> ManifestReply, cmp: Comparator): Option<string>
  {
    var k := FirstIndex(versions, Acceptor(target, fetch, cmp, DownloadMissing));
    if k < |versions| then versions[k].version else None
  }

  /** The `for version in ...: ... break` / `except: continue` loop. */
  method ScanInListOrder(versions: seq<VersionEntry>, target: Option<string>,
                         fetch: string -> ManifestReply, cmp: Comparator)
    returns (compatible: Option<string>)
    ensures compatible == FirstCompatibleVersion(versions, target, fetch, cmp)
    ensures compatible.Some? ==>
      exists k :: 0 <= k < |versions| && versions[k].version == compatible
        && Accepted(versions[k], target, fetch, cmp, DownloadMissing)
        && forall j :: 0 <= j < k ==> !Accepted(versions[j], target, fetch, cmp, DownloadMissing)
    ensures (forall k :: 0 <= k < |versions| ==> !Accepted(versions[k], target, fetch, cmp, DownloadMissing))
      ==> compatible == None
  {
    compatible := None;
    var i := 0;
    while i < |versions|
      invariant 0 <= i <= |versions|
      invariant forall j :: 0 <= j < i ==> !Accepted(versions[j], target, fetch, cmp, DownloadMissing)
    {
      var accepted, _ := Probe(versions[i], target, fetch, cmp, DownloadMissing);
      if accepted {
        compatible := versions[i].version;
        FirstIndexUnique(versions, Acceptor(target, fetch, cmp, DownloadMissing), i);
        return;
      }
      i := i + 1;
    }
    FirstIndexUnique(versions, Acceptor(target, fetch, cmp, DownloadMissing), i);
  }

  // ---- api_compatible_version: the first accepted version after a string sort ----

  /** The absent `engines.vscode` reads as "N/A" on the detail and compatible-version paths. */
  const DetailMissing := "N/A"

  /** The dictionary `api_compatible_version` returns. */
  datatype CompatibleVersionInfo = CompatibleVersionInfo(version: Option<string>, minVscode: string)

  function InfoOf(v: VersionEntry, fetch: string -> ManifestReply): CompatibleVersionInfo
    requires MinimumFor(v, fetch, DetailMissing).Some?
  {
    CompatibleVersionInfo(v.version, MinimumFor(v, fetch, DetailMissing).value)
  }

  /** The first accepted version of an already sorted list, with its minimum. */
  function FirstCompatibleInfo(sorted: seq<VersionEntry>, target: string,
                               fetch: string -> ManifestReply, cmp: Comparator): (r: Option<CompatibleVersionInfo>)
  {
    var k := FirstIndex(sorted, Acceptor(Some(target), fetch, cmp, DetailMissing));
    if k < |sorted| then Some(InfoOf(sorted[k], fetch)) else None
  }

  /** `api_compatible_version` as a function of the query reply, the manifest fetches and
      the comparator: None when the query raises or finds nothing, else the first accepted
      version of the extension's versions sorted by descending version string. */
  function CompatibleVersionSpec(extensionId: string, target: string,
                                 reply: QueryBody -> Option<seq<Extension>>,
                                 fetch: string -> ManifestReply, cmp: Comparator): Option<CompatibleVersionInfo>
  {
    var run := PagesFrom(ExtensionQuery(extensionId), reply, 1);
    if run.failed || Concat(run.pages) == [] then None
    else FirstCompatibleInfo(SortVersionsDescending(Concat(run.pages)[0].versions), target, fetch, cmp)
  }

  /** `api_compatible_version`. Every exception, including one from the query, ends in None. */
  method CompatibleVersion(extensionId: string, target: string,
                           reply: QueryBody -> Option<seq<Extension>>,
                           fetch: string -> ManifestReply, cmp: Comparator)
    returns (r: Option<CompatibleVersionInfo>)
    ensures r == CompatibleVersionSpec(extensionId, target, reply, fetch, cmp)
  {
    var _, details := FetchExtensions(ExtensionQuery(extensionId), reply);
    if details.None? || details.value == [] {
      return None;
    }
    r := ScanSorted(SortVersionsDescending(details.value[0].versions), target, fetch, cmp);
  }

  /** The `for version in versions` loop of `api_compatible_version` over the sorted list:
      the first accepted version with its cleaned minimum, or None. */
  method ScanSorted(versions: seq<VersionEntry>, target: string,
                    fetch: string -> ManifestReply, cmp: Comparator)
    returns (r: Option<CompatibleVersionInfo>)
    ensures r == FirstCompatibleInfo(versions, target, fetch, cmp)
  {
    var i := 0;
    while i < |versions|
      invariant 0 <= i <= |versions|
      invariant forall j :: 0 <= j < i ==> !Accepted(versions[j], Some(target), fetch, cmp, DetailMissing)
    {
      var accepted, minimum := Probe(versions[i], Some(target), fetch, cmp, DetailMissing);
      if accepted {
        FirstIndexUnique(versions, Acceptor(Some(target), fetch, cmp, DetailMissing), i);
        return Some(CompatibleVersionInfo(versions[i].version, minimum));
      }
      i := i + 1;
    }
    FirstIndexUnique(versions, Acceptor(Some(target), fetch, cmp, DetailMissing), i);
    return None;
  }

  /** The first version of the sorted list satisfying `p` has the largest version string
      of all versions satisfying `p`; there is none exactly when no version satisfies `p`. */
  lemma FirstOfSortedIsGreatest(versions: seq<VersionEntry>, p: VersionEntry -> bool)
    ensures var sorted := SortVersionsDescending(versions);
      var k := FirstIndex(sorted, p);
      && (k == |sorted| <==> forall v :: v in versions ==> !p(v))
      && (k < |sorted| ==> sorted[k] in versions)
      && (k < |sorted| ==> forall w :: w in versions && p(w) ==> StrLe(SortKey(w), SortKey(sorted[k])))
  {
    var sorted := SortVersionsDescending(versions);
    var k := FirstIndex(sorted, p);
    assert forall v :: v in versions <==> v in sorted by {
      forall v ensures v in versions <==> v in sorted {
        assert v in versions <==> v in multiset(versions);
        assert v in sorted <==> v in multiset(sorted);
      }
    }
    if k < |sorted| {
      forall w | w in versions && p(w) ensures StrLe(SortKey(w), SortKey(sorted[k])) {
        var m :| 0 <= m < |sorted| && sorted[m] == w;
        if m != k {
          assert k < m;
        } else {
          StrLeTotal(SortKey(w), SortKey(sorted[k]));
        }
      }
    } else {
      forall v | v in versions ensures !p(v) {
        var m :| 0 <= m < |sorted| && sorted[m] == v;
      }
    }
  }

  /** What the sorted scan achieves: the chosen version is accepted, its minimum has no
      '^', and no accepted version has a larger version STRING. None means that no
      version of the list is accepted. */
  lemma FirstCompatibleInfoIsGreatestString(
    versions: seq<VersionEntry>, target: string, fetch: string -> ManifestReply, cmp: Comparator)
    ensures var r := FirstCompatibleInfo(SortVersionsDescending(versions), target, fetch, cmp);
      && (r.None? <==> forall v :: v in versions ==> !Accepted(v, Some(target), fetch, cmp, DetailMissing))
      && (r.Some? ==> '^' !in r.value.minVscode)
      && (r.Some? ==>
            exists v :: v in versions && Accepted(v, Some(target), fetch, cmp, DetailMissing)
              && r.value == InfoOf(v, fetch)
              && (forall w :: w in versions && Accepted(w, Some(target), fetch, cmp, DetailMissing)
                   ==> StrLe(SortKey(w), SortKey(v))))
  {
    var p := Acceptor(Some(target), fetch, cmp, DetailMissing);
    FirstOfSortedIsGreatest(versions, p);
    var sorted := SortVersionsDescending(versions);
    var k := FirstIndex(sorted, p);
    if k < |sorted| {
      assert p(sorted[k]);
    }
  }

  // ---- the version order the docstring asks for ----

  /** A total preorder on version strings, such as semantic-version precedence. */
  ghost predicate TotalPreorder(le: (string, string) -> bool) {
    && (forall a, b :: le(a, b) || le(b, a))
    && (forall a, b, c :: le(a, b) && le(b, c) ==> le(a, c))
  }

  /** The index of the highest version among the first `n` that satisfy `p`, under `le`:
      a later such version replaces the best so far only when it is not at most it, so
      the first of equally high versions is kept. */
  function BestAmong(versions: seq<VersionEntry>, n: nat, p: VersionEntry -> bool,
                     le: (string, string) -> bool): (b: Option<nat>)
    requires n <= |versions|
    ensures b.Some? ==> b.value < n && p(versions[b.value])
  {
    if n == 0 then None
    else
      var b := BestAmong(versions, n - 1, p, le);
      if p(versions[n - 1]) && (b.None? || !le(SortKey(versions[n - 1]), SortKey(versions[b.value])))
      then Some(n - 1)
      else b
  }

  /** The highest accepted version, as the docstring of `api_compatible_version` promises. */
  function HighestCompatibleSpec(versions: seq<VersionEntry>, target: string,
                                 fetch: string -> ManifestReply, cmp: Comparator,
                                 le: (string, string) -> bool): Option<CompatibleVersionInfo>
  {
    match BestAmong(versions, |versions|, Acceptor(Some(target), fetch, cmp, DetailMissing), le)
    case None => None
    case Some(k) => Some(InfoOf(versions[k], fetch))
  }

  /** A key not at most the best one so far is above everything the best one bounds. */
  lemma RaiseBest(le: (string, string) -> bool, a: string, best: string, c: string)
    requires TotalPreorder(le)
    requires le(a, best) && !le(c, best)
    ensures le(a, c)
  {
    assert le(best, c);
  }

  /** Under a total preorder, `BestAmong` finds a version satisfying `p` whenever there
      is one, and no such version among the first `n` ranks above it. */
  lemma {:induction false} BestAmongIsHighest(versions: seq<VersionEntry>, n: nat,
                                             p: VersionEntry -> bool, le: (string, string) -> bool)
    requires n <= |versions| && TotalPreorder(le)
    ensures var b := BestAmong(versions, n, p, le);
      && (b.None? <==> forall j :: 0 <= j < n ==> !p(versions[j]))
      && (b.Some? ==> forall j :: 0 <= j < n && p(versions[j]) ==> le(SortKey(versions[j]), SortKey(versions[b.value])))
  {
    if n > 0 {
      BestAmongIsHighest(versions, n - 1, p, le);
      var b := BestAmong(versions, n - 1, p, le);
      var v := versions[n - 1];
      if p(v) {
        if b.Some? && !le(SortKey(v), SortKey(versions[b.value])) {
          forall j | 0 <= j < n - 1 && p(versions[j]) ensures le(SortKey(versions[j]), SortKey(v)) {
            RaiseBest(le, SortKey(versions[j]), SortKey(versions[b.value]), SortKey(v));
          }
        }
        assert le(SortKey(v), SortKey(v));
      }
    }
  }

  /** One scan keeping the best accepted version seen so far; with `BestAmongIsHighest`
      this is the highest compatible version the docstring promises. */
  method HighestCompatibleVersion(versions: seq<VersionEntry>, target: string,
                                  fetch: string -> ManifestReply, cmp: Comparator,
                                  le: (string, string) -> bool)
    returns (r: Option<CompatibleVersionInfo>)
    ensures r == HighestCompatibleSpec(versions, target, fetch, cmp, le)
  {
    r := None;
    ghost var p := Acceptor(Some(target), fetch, cmp, DetailMissing);
    ghost var best: Option<nat> := None;
    var bestKey := "";
    var i := 0;
    while i < |versions|
      invariant 0 <= i <= |versions|
      invariant best == BestAmong(versions, i, p, le)
      invariant r.None? <==> best.None?
      invariant best.Some? ==> r == Some(InfoOf(versions[best.value], fetch))
                               && bestKey == SortKey(versions[best.value])
    {
      var accepted, minimum := Probe(versions[i], Some(target), fetch, cmp, DetailMissing);
      assert accepted == p(versions[i]);
      if accepted && (r.None? || !le(SortKey(versions[i]), bestKey)) {
        assert BestAmong(versions, i + 1, p, le) == Some(i);
        r := Some(CompatibleVersionInfo(versions[i].version, minimum));
        best, bestKey := Some(i), SortKey(versions[i]);
      } else {
        assert BestAmong(versions, i + 1, p, le) == best;
      }
      i := i + 1;
    }
  }

  /** The corrected scan's answer is accepted and no accepted version ranks above it;
      there is none exactly when no version is accepted. */
  lemma HighestCompatibleSpecIsHighest(versions: seq<VersionEntry>, target: string,
                                       fetch: string -> ManifestReply, cmp: Comparator,
                                       le: (string, string) -> bool)
    requires TotalPreorder(le)
    ensures var r := HighestCompatibleSpec(versions, target, fetch, cmp, le);
      && (r.None? <==> forall k :: 0 <= k < |versions| ==> !Accepted(versions[k], Some(target), fetch, cmp, DetailMissing))
      && (r.Some? ==>
            exists k :: 0 <= k < |versions|
              && Accepted(versions[k], Some(target), fetch, cmp, DetailMissing) && r.value == InfoOf(versions[k], fetch)
              && forall j :: 0 <= j < |versions| && Accepted(versions[j], Some(target), fetch, cmp, DetailMissing)
                   ==> le(SortKey(versions[j]), SortKey(versions[k])))
  {
    var p := Acceptor(Some(target), fetch, cmp, DetailMissing);
    BestAmongIsHighest(versions, |versions|, p, le);
    var b := BestAmong(versions, |versions|, p, le);
    if b.Some? {
      var k := b.value;
      assert p(versions[k]);
      forall j | 0 <= j < |versions| && Accepted(versions[j], Some(target), fetch, cmp, DetailMissing)
        ensures le(SortKey(versions[j]), SortKey(versions[k]))
      {
        assert p(versions[j]);
      }
    } else {
      forall k | 0 <= k < |versions| ensures !Accepted(versions[k], Some(target), fetch, cmp, DetailMissing) {
        assert !p(versions[k]);
      }
    }
  }

  // The versions of the counterexample below: both declare `^1.0.0`.
  const ExampleFiles := [AssetFile(Some(ManifestAssetType), Some("manifest"))]
  const Older := VersionEntry(Some("1.9.0"), ExampleFiles)
  const Newer := VersionEntry(Some("1.10.0"), ExampleFiles)

  function ExampleFetch(url: string): ManifestReply {
    Manifest(Some("^1.0.0"))
  }

  lemma ExampleStringOrder()
    ensures !StrLe("1.9.0", "1.10.0")
  {
    assert "1.9.0"[1..] == ".9.0" && "1.10.0"[1..] == ".10.0";
    assert ".9.0"[1..] == "9.0" && ".10.0"[1..] == "10.0";
  }

  lemma ExampleSorted()
    ensures SortVersionsDescending([Newer, Older]) == [Older, Newer]
  {
    ExampleStringOrder();
    assert [Newer, Older][..1] == [Newer];
    assert [Newer][..0] == [];
    assert SortVersionsDescending([Newer]) == [Newer];
  }

  lemma ExampleCleanup()
    ensures CleanConstraint("^1.0.0") == "1.0.0"
  {
    PlainIsUnqualified("1.0.0");
    LeadingQualifierStripped("1.0.0");
    assert "^" + "1.0.0" == "^1.0.0";
  }

  lemma ExampleManifest()
    ensures FindManifest(ExampleFiles) == Some(ExampleFiles[0])
  {
    assert IsManifest(ExampleFiles[0]);
    FirstIndexUnique(ExampleFiles, IsManifest, 0);
  }

  lemma ExampleMinimum(v: VersionEntry)
    requires v == Older || v == Newer
    ensures MinimumFor(v, ExampleFetch, DetailMissing) == Some("1.0.0")
  {
    assert v.files == ExampleFiles;
    ExampleManifest();
    ExampleCleanup();
    assert ExampleFetch("manifest") == Manifest(Some("^1.0.0"));
  }

  lemma ExampleAccepted(v: VersionEntry, cmp: Comparator)
    requires v == Older || v == Newer
    requires cmp("1.80.0", "1.0.0") == Some(1)
    ensures Accepted(v, Some("1.80.0"), ExampleFetch, cmp, DetailMissing)
  {
    ExampleMinimum(v);
  }

  /** The sorted scan as written does not find the highest version: sorting version
      strings puts "1.9.0" before "1.10.0", so when both are accepted it returns
      "1.9.0", although semantic-version precedence (any `le` ranking "1.10.0" strictly
      above "1.9.0") makes "1.10.0" the answer `HighestCompatibleVersion` must give. */
  lemma StringSortMissesHighest(cmp: Comparator, le: (string, string) -> bool)
    requires cmp("1.80.0", "1.0.0") == Some(1)
    requires le("1.9.0", "1.10.0") && !le("1.10.0", "1.9.0")
    ensures Accepted(Newer, Some("1.80.0"), ExampleFetch, cmp, DetailMissing)
    ensures FirstCompatibleInfo(SortVersionsDescending([Newer, Older]), "1.80.0", ExampleFetch, cmp)
         == Some(CompatibleVersionInfo(Some("1.9.0"), "1.0.0"))
    ensures !le(SortKey(Newer), SortKey(Older))
  {
    ExampleSorted();
    ExampleMinimum(Older);
    ExampleAccepted(Older, cmp);
    ExampleAccepted(Newer, cmp);
    var p := Acceptor(Some("1.80.0"), ExampleFetch, cmp, DetailMissing);
    assert p(Older);
    FirstIndexUnique([Older, Newer], p, 0);
  }

  /** On the same input, the corrected scan returns "1.10.0". */
  lemma CorrectedScanFindsNewer(cmp: Comparator, le: (string, string) -> bool)
    requires cmp("1.80.0", "1.0.0") == Some(1)
    requires le("1.9.0", "1.10.0") && !le("1.10.0", "1.9.0")
    ensures HighestCompatibleSpec([Newer, Older], "1.80.0", ExampleFetch, cmp, le)
         == Some(CompatibleVersionInfo(Some("1.10.0"), "1.0.0"))
  {
    ExampleMinimum(Newer);
    ExampleAccepted(Older, cmp);
    ExampleAccepted(Newer, cmp);
    var vs := [Newer, Older];
    var p := Acceptor(Some("1.80.0"), ExampleFetch, cmp, DetailMissing);
    assert p(Newer) && p(Older);
    assert BestAmong(vs, 1, p, le) == Some(0);
    assert BestAmong(vs, 2, p, le) == Some(0);
  }
}
