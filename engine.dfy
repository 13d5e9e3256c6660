/** Extension metadata as the marketplace returns it, the lookup of a version's
    manifest asset, and the cleanup of the manifest's `engines.vscode` constraint. */
module Engine {
  import opened Wrappers
  import opened Seqs

  const ManifestAssetType := "Microsoft.VisualStudio.Code.Manifest"

  /** One entry of a version's `files`: both keys may be absent. */
  datatype AssetFile = AssetFile(assetType: Option<string>, source: Option<string>)

  /** One entry of an extension's `versions`: `version` may be absent. */
  datatype VersionEntry = VersionEntry(version: Option<string>, files: seq<AssetFile>)

  /** A marketplace query result; an absent `versions` key reads as no versions. */
  datatype Extension = Extension(versions: seq<VersionEntry>)

  /** The outcome of fetching and decoding a manifest: the request or the decoding
      raised (with the exception's text), or a manifest whose `engines.vscode` may be
      absent. */
  datatype ManifestReply = FetchFailed(reason: string) | Manifest(engine: Option<string>)

  predicate IsManifest(f: AssetFile) {
    f.assetType == Some(ManifestAssetType)
  }

  /** `next((file for file in files if file.get('assetType') == ...), None)`. */
  function FindManifest(files: seq<AssetFile>): (r: Option<AssetFile>)
    ensures r.Some? <==> exists i :: 0 <= i < |files| && IsManifest(files[i])
    ensures r.Some? ==> exists i :: 0 <= i < |files| && files[i] == r.value && IsManifest(r.value)
                                    && forall j :: 0 <= j < i ==> !IsManifest(files[j])
  {
    var k := FirstIndex(files, IsManifest);
    if k < |files| then Some(files[k]) else None
  }

  // ---- the constraint cleanup: `c.replace('^', '').replace('>=', '')` ----

  /** Whether `pat` occurs in `s`, found the way `Replace` scans. */
  predicate Occurs(s: string, pat: string)
    requires pat != []
    decreases |s|
  {
    |s| >= |pat| && (s[..|pat|] == pat || Occurs(s[1..], pat))
  }

  /** Python's `s.replace(pat, rep)`: every non-overlapping occurrence of `pat`,
      scanning left to right, replaced by `rep`. */
  function Replace(s: string, pat: string, rep: string): string
    requires pat != []
    decreases |s|
  {
    if |s| < |pat| then s
    else if s[..|pat|] == pat then rep + Replace(s[|pat|..], pat, rep)
    else [s[0]] + Replace(s[1..], pat, rep)
  }

  lemma {:induction false} ReplaceAbsent(s: string, pat: string, rep: string)
    requires pat != [] && !Occurs(s, pat)
    ensures Replace(s, pat, rep) == s
    decreases |s|
  {
    if |s| >= |pat| {
      ReplaceAbsent(s[1..], pat, rep);
      assert s == [s[0]] + s[1..];
    }
  }

  /** Deleting a pattern keeps only characters of the input, and shortens or keeps it. */
  lemma {:induction false} DeleteKeepsCharacters(s: string, pat: string)
    requires pat != []
    ensures forall c :: c in Replace(s, pat, "") ==> c in s
    ensures |Replace(s, pat, "")| <= |s|
    decreases |s|
  {
    if |s| >= |pat| {
      if s[..|pat|] == pat {
        DeleteKeepsCharacters(s[|pat|..], pat);
        assert forall c :: c in s[|pat|..] ==> c in s;
      } else {
        DeleteKeepsCharacters(s[1..], pat);
        assert forall c :: c in s[1..] ==> c in s;
      }
    }
  }

  /** Deleting a single character removes every occurrence of it. */
  lemma {:induction false} DeleteCharRemovesIt(s: string, c: char)
    ensures c !in Replace(s, [c], "")
    decreases |s|
  {
    if |s| >= 1 {
      DeleteCharRemovesIt(s[1..], c);
    }
  }

  /** The constraint string with no qualifier the cleanup would touch. */
  predicate Unqualified(c: string) {
    '^' !in c && !Occurs(c, ">=")
  }

  /** What the two deletions of the cleanup guarantee. */
  lemma CleanupFacts(c: string)
    ensures var r := Replace(Replace(c, "^", ""), ">=", "");
      && '^' !in r && |r| <= |c| && (forall ch :: ch in r ==> ch in c)
      && (Unqualified(c) ==> r == c)
  {
    var noCaret := Replace(c, "^", "");
    DeleteCharRemovesIt(c, '^');
    DeleteKeepsCharacters(c, "^");
    DeleteKeepsCharacters(noCaret, ">=");
    if Unqualified(c) {
      FirstCharAbsent(c, "^");
      ReplaceAbsent(c, "^", "");
      ReplaceAbsent(c, ">=", "");
    }
  }

  /** The cleanup of an `engines.vscode` constraint. */
  function CleanConstraint(c: string): (r: string)
    ensures '^' !in r
    ensures |r| <= |c|
    ensures forall ch :: ch in r ==> ch in c
    ensures Unqualified(c) ==> r == c
  {
    CleanupFacts(c);
    Replace(Replace(c, "^", ""), ">=", "")
  }

  /** A pattern whose first character is absent from `s` does not occur in it. */
  lemma {:induction false} FirstCharAbsent(s: string, pat: string)
    requires pat != [] && pat[0] !in s
    ensures !Occurs(s, pat)
    decreases |s|
  {
    if |s| >= |pat| {
      assert s[..|pat|][0] == s[0];
      assert pat[0] !in s[1..] by { assert forall x :: x in s[1..] ==> x in s; }
      FirstCharAbsent(s[1..], pat);
    }
  }

  /** A string with neither '^' nor '>' is left alone by the cleanup. */
  lemma PlainIsUnqualified(s: string)
    requires '^' !in s && '>' !in s
    ensures Unqualified(s)
  {
    FirstCharAbsent(s, ">=");
  }

  /** A leading `^` or `>=` in front of an unqualified version is stripped. */
  lemma LeadingQualifierStripped(v: string)
    requires Unqualified(v)
    ensures CleanConstraint("^" + v) == v
    ensures CleanConstraint(">=" + v) == v
  {
    FirstCharAbsent(v, "^");
    ReplaceAbsent(v, "^", "");
    ReplaceAbsent(v, ">=", "");
    CaretDeleted(v);
    GreaterEqualDeleted(v);
  }

  lemma CaretDeleted(v: string)
    requires '^' !in v
    ensures Replace("^" + v, "^", "") == Replace(v, "^", "")
  {
    var caret := "^" + v;
    assert caret[..1] == "^" && caret[1..] == v;
  }

  lemma GreaterEqualDeleted(v: string)
    requires '^' !in v
    ensures Replace(">=" + v, "^", "") == ">=" + v
    ensures Replace(">=" + v, ">=", "") == Replace(v, ">=", "")
  {
    var ge := ">=" + v;
    assert '^' !in ge;
    FirstCharAbsent(ge, "^");
    ReplaceAbsent(ge, "^", "");
    assert ge[..2] == ">=" && ge[2..] == v;
  }

  /** The cleanup deletes qualifiers anywhere in the string, not only a leading one, and
      can itself produce a `>=` (from `>>==`): the result is not guaranteed free of it. */
  lemma CleanupIsNotPrefixStripping()
    ensures CleanConstraint("1^0") == "10"
    ensures CleanConstraint(">>==") == ">="
  {
    var s := "1^0";
    assert s[..1] == "1" && s[1..] == "^0";
    assert "^0"[..1] == "^" && "^0"[1..] == "0";
    assert "0"[..1] == "0" && "0"[1..] == [];
    assert Replace(s, "^", "") == "10";
    assert "10"[..2] == "10" && "10"[1..] == "0";
    assert Replace("10", ">=", "") == "10";
    var t := ">>==";
    assert t[..1] == ">" && t[1..] == ">==";
    assert ">=="[..1] == ">" && ">=="[1..] == "==";
    assert "=="[..1] == "=" && "=="[1..] == "=";
    assert "="[..1] == "=" && "="[1..] == [];
    assert Replace(t, "^", "") == t;
    assert t[..2] == ">>" && ">=="[..2] == ">=" && ">=="[2..] == "=";
    assert Replace(t, ">=", "") == ">=";
  }

  /** The cleaned minimum engine version a version declares, when its manifest can be
      obtained: the first manifest asset, with a truthy `source`, fetched and decoded
      successfully; `missing` stands for an absent `engines.vscode` key. */
  function MinimumFor(v: VersionEntry, fetch: string -> ManifestReply, missing: string): (r: Option<string>)
    ensures r.Some? ==> '^' !in r.value
    ensures r.Some? <==> (FindManifest(v.files).Some? && Truthy(FindManifest(v.files).value.source)
                          && fetch(FindManifest(v.files).value.source.value).Manifest?)
    ensures r.Some? ==> r.value == CleanConstraint(fetch(FindManifest(v.files).value.source.value).engine.GetOr(missing))
  {
    match FindManifest(v.files)
    case None => None
    case Some(f) =>
      if !Truthy(f.source) then None
      else match fetch(f.source.value)
        case FetchFailed(_) => None
        case Manifest(engine) => Some(CleanConstraint(engine.GetOr(missing)))
  }
}
