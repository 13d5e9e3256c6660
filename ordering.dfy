/** Python's ordering of strings and the `sorted(versions, key=..., reverse=True)` call
    that orders an extension's versions by their version STRING. */
module Ordering {
  import opened Wrappers
  import opened Engine

  /** Python's `a <= b` on `str`: lexicographic by code point, a prefix first. */
  predicate StrLe(a: string, b: string)
    decreases |a|
  {
    a == [] || (b != [] && (a[0] < b[0] || (a[0] == b[0] && StrLe(a[1..], b[1..]))))
  }

  lemma {:induction false} StrLeTotal(a: string, b: string)
    ensures StrLe(a, b) || StrLe(b, a)
    decreases |a|
  {
    if a != [] && b != [] && a[0] == b[0] {
      StrLeTotal(a[1..], b[1..]);
    }
  }

  lemma {:induction false} StrLeTransitive(a: string, b: string, c: string)
    requires StrLe(a, b) && StrLe(b, c)
    ensures StrLe(a, c)
    decreases |a|
  {
    if a != [] && a[0] == b[0] && b[0] == c[0] {
      StrLeTransitive(a[1..], b[1..], c[1..]);
    }
  }

  /** The sort key: `x.get('version', '0.0.0')`. */
  function SortKey(v: VersionEntry): string {
    v.version.GetOr("0.0.0")
  }

  /** Each version's key is at least the key of every later version. */
  predicate SortedDescending(vs: seq<VersionEntry>) {
    forall i, j :: 0 <= i < j < |vs| ==> StrLe(SortKey(vs[j]), SortKey(vs[i]))
  }

  /** Every key of `s` is at most `key`. */
  predicate AllAtMost(s: seq<VersionEntry>, key: string) {
    forall j :: 0 <= j < |s| ==> StrLe(SortKey(s[j]), key)
  }

  /** A sorted list whose head key is below `x`'s lies wholly below it. */
  lemma BelowHead(s: seq<VersionEntry>, x: VersionEntry)
    requires SortedDescending(s) && s != [] && !StrLe(SortKey(x), SortKey(s[0]))
    ensures AllAtMost(s, SortKey(x))
  {
    StrLeTotal(SortKey(x), SortKey(s[0]));
    forall j | 0 <= j < |s| ensures StrLe(SortKey(s[j]), SortKey(x)) {
      if j > 0 { StrLeTransitive(SortKey(s[j]), SortKey(s[0]), SortKey(x)); }
    }
  }

  /** Putting an element in front of a sorted list of keys at most its own keeps it sorted. */
  lemma PrependSorted(y: VersionEntry, s: seq<VersionEntry>)
    requires SortedDescending(s) && AllAtMost(s, SortKey(y))
    ensures SortedDescending([y] + s)
  {
    var r := [y] + s;
    forall i, j | 0 <= i < j < |r| ensures StrLe(SortKey(r[j]), SortKey(r[i])) {
      if i > 0 {
        assert r[i] == s[i - 1] && r[j] == s[j - 1];
      } else {
        assert r[j] == s[j - 1];
      }
    }
  }

  /** The elements of a permutation of `s + [x]` are bounded when those of `s` and `x` are. */
  lemma PermutationBounded(rest: seq<VersionEntry>, s: seq<VersionEntry>, x: VersionEntry, key: string)
    requires multiset(rest) == multiset(s) + multiset{x}
    requires AllAtMost(s, key) && StrLe(SortKey(x), key)
    ensures AllAtMost(rest, key)
  {
    forall j | 0 <= j < |rest| ensures StrLe(SortKey(rest[j]), key) {
      assert rest[j] in multiset(rest);
      if rest[j] != x {
        assert rest[j] in multiset(s);
        var m :| 0 <= m < |s| && s[m] == rest[j];
      }
    }
  }

  /** Insert `x` after every entry whose key is at least its own (which keeps equal keys
      in arrival order, as Python's stable `reverse=True` sort does). */
  function Insert(s: seq<VersionEntry>, x: VersionEntry): (r: seq<VersionEntry>)
    requires SortedDescending(s)
    ensures SortedDescending(r)
    ensures multiset(r) == multiset(s) + multiset{x}
  {
    if s == [] then [x]
    else if !StrLe(SortKey(x), SortKey(s[0])) then
      BelowHead(s, x);
      PrependSorted(x, s);
      [x] + s
    else
      var rest := Insert(s[1..], x);
      assert s == [s[0]] + s[1..];
      assert AllAtMost(s[1..], SortKey(s[0])) by {
        forall j | 0 <= j < |s| - 1 ensures StrLe(SortKey(s[1..][j]), SortKey(s[0])) {
          assert s[1..][j] == s[j + 1];
        }
      }
      PermutationBounded(rest, s[1..], x, SortKey(s[0]));
      PrependSorted(s[0], rest);
      [s[0]] + rest
  }

  /** `sorted(versions, key=lambda x: x.get('version', '0.0.0'), reverse=True)`. */
  function SortVersionsDescending(vs: seq<VersionEntry>): (r: seq<VersionEntry>)
    ensures SortedDescending(r)
    ensures multiset(r) == multiset(vs)
  {
    if vs == [] then []
    else
      assert vs == vs[..|vs| - 1] + [vs[|vs| - 1]];
      Insert(SortVersionsDescending(vs[..|vs| - 1]), vs[|vs| - 1])
  }
}
