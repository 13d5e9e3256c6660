/** The artifact locator: `VsixPackage` builds the marketplace download URL and the
    canonical `.vsix` file name of one published extension version. */
module Locator {
  import opened Wrappers

  const MarketplacePrefix := "https://" + "marketplace" + ".visualstudio" + ".com" + "/_apis" + "/public" + "/gallery" + "/publishers/"
  const TargetQuery := "?targetPlatform="

  /** Fields are set once by the constructor and never changed afterwards. */
  datatype VsixPackage = VsixPackage(publisher: string, extension: string, version: string, target: Option<string>)

  /** The URL without any query string. */
  function PackagePath(p: VsixPackage): string {
    MarketplacePrefix + p.publisher + "/vsextensions/" + p.extension + "/" + p.version + "/vspackage"
  }

  /** `get_url`: the path, followed by a target-platform query when the target is truthy. */
  function Url(p: VsixPackage): (url: string)
    ensures MarketplacePrefix <= url
    ensures PackagePath(p) <= url
    ensures ('?' in url) <==> (Truthy(p.target) || '?' in p.publisher || '?' in p.extension || '?' in p.version)
  {
    var path := PackagePath(p);
    PrefixHasNoQuery();
    assert '?' !in "/vsextensions/" && '?' !in "/" && '?' !in "/vspackage";
    assert ('?' in path) <==> ('?' in p.publisher || '?' in p.extension || '?' in p.version);
    if Truthy(p.target) then path + TargetQuery + p.target.value else path
  }

  lemma PrefixHasNoQuery()
    ensures '?' !in MarketplacePrefix
  {
    assert '?' !in "https://" && '?' !in "marketplace" && '?' !in ".visualstudio" && '?' !in ".com";
    assert '?' !in "/_apis" && '?' !in "/public" && '?' !in "/gallery" && '?' !in "/publishers/";
  }

  /** `get_vsix_name`: the canonical file name, used as archive entry name. */
  function VsixName(p: VsixPackage): (name: string)
    ensures |name| == |p.publisher| + |p.extension| + |p.version| + 7
    ensures var e := |p.publisher| + 1;
      var v := e + |p.extension| + 1;
      && name[..e - 1] == p.publisher && name[e - 1] == '.'
      && name[e..v - 1] == p.extension && name[v - 1] == '-'
      && name[v..|name| - 5] == p.version && name[|name| - 5..] == ".vsix"
  {
    p.publisher + "." + p.extension + "-" + p.version + ".vsix"
  }

  /** With no target, or an empty (falsy) one, the URL is the bare path. */
  lemma UrlWithoutTarget(p: VsixPackage)
    requires !Truthy(p.target)
    ensures Url(p) == PackagePath(p)
    ensures Url(p) == Url(p.(target := None)) && Url(p) == Url(p.(target := Some("")))
  {
  }

  /** A truthy target appends exactly one query parameter to the target-less URL. */
  lemma UrlWithTarget(p: VsixPackage, t: string)
    requires t != ""
    ensures Url(p.(target := Some(t))) == Url(p.(target := None)) + TargetQuery + t
  {
  }

  /** The file name depends on publisher, extension and version only. */
  lemma VsixNameIgnoresTarget(p: VsixPackage, t: Option<string>)
    ensures VsixName(p.(target := t)) == VsixName(p)
  {
  }

  /** Two builds of one version for different platforms share a file name but not a URL:
      the second would overwrite the first wherever the name is the key. */
  lemma PlatformBuildsCollide(p: VsixPackage, t1: string, t2: string)
    requires t1 != "" && t2 != "" && t1 != t2
    ensures VsixName(p.(target := Some(t1))) == VsixName(p.(target := Some(t2)))
    ensures Url(p.(target := Some(t1))) != Url(p.(target := Some(t2)))
  {
    var head := PackagePath(p) + TargetQuery;
    var u1, u2 := Url(p.(target := Some(t1))), Url(p.(target := Some(t2)));
    assert u1 == head + t1 && u2 == head + t2;
    assert u1[|head|..] == t1 && u2[|head|..] == t2;
  }

  /** Splitting `a + [c] + b` at the first `c` recovers `a` and `b`. */
  lemma SplitAtFirst(a: string, b: string, a': string, b': string, c: char)
    requires c !in a && c !in a'
    requires a + [c] + b == a' + [c] + b'
    ensures a == a' && b == b'
  {
    var s, s' := a + [c] + b, a' + [c] + b';
    assert s[|a|] == c && s'[|a'|] == c;
    assert a == s[..|a|] && a' == s'[..|a'|];
    assert b == s[|a| + 1..] && b' == s'[|a'| + 1..];
  }

  /** The file name, bracketed from the right. */
  lemma VsixNameNested(p: VsixPackage)
    ensures VsixName(p) == p.publisher + ['.'] + (p.extension + ['-'] + (p.version + ".vsix"))
  {
  }

  lemma SplitAtLast(a: string, b: string, a': string, b': string, c: char)
    requires c !in b && c !in b'
    requires a + [c] + b == a' + [c] + b'
    ensures a == a' && b == b'
  {
    var s, s' := a + [c] + b, a' + [c] + b';
    assert |s| == |s'|;
    assert s[|a|] == c && s'[|a'|] == c;
    assert a == s[..|a|] && a' == s'[..|a'|];
    assert b == s[|a| + 1..] && b' == s'[|a'| + 1..];
  }

  /** The file name identifies the package when the publisher has no '.' and the
      version has no '-': the first '.' and the last '-' then split it, whatever the
      extension name holds. */
  lemma VsixNameInjective(p: VsixPackage, q: VsixPackage)
    requires '.' !in p.publisher && '.' !in q.publisher
    requires '-' !in p.version && '-' !in q.version
    requires VsixName(p) == VsixName(q)
    ensures p.publisher == q.publisher && p.extension == q.extension && p.version == q.version
  {
    VsixNameNested(p);
    VsixNameNested(q);
    var vp, vq := p.version + ".vsix", q.version + ".vsix";
    SplitAtFirst(p.publisher, p.extension + ['-'] + vp, q.publisher, q.extension + ['-'] + vq, '.');
    assert '-' !in vp && '-' !in vq by {
      assert vp == p.version + ['.', 'v', 's', 'i', 'x'] && vq == q.version + ['.', 'v', 's', 'i', 'x'];
    }
    SplitAtLast(p.extension, vp, q.extension, vq, '-');
    assert p.version == vp[..|vp| - 5] && q.version == vq[..|vq| - 5];
  }
}
