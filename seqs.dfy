/** Generic sequence helpers shared by the scans and the pager. */
module Seqs {

  /** The index of the first element satisfying `p`, or `|s|` when there is none:
      what a Python `for ... if p(x): break` or `next((x for x in s if p(x)), None)` finds. */
  function FirstIndex<T>(s: seq<T>, p: T -> bool): (k: nat)
    ensures k <= |s|
    ensures forall j :: 0 <= j < k ==> !p(s[j])
    ensures k < |s| ==> p(s[k])
  {
    if s == [] then 0
    else if p(s[0]) then 0
    else 1 + FirstIndex(s[1..], p)
  }

  /** The first index is the only index that satisfies `p` with no earlier one doing so. */
  lemma FirstIndexUnique<T>(s: seq<T>, p: T -> bool, i: nat)
    requires i <= |s|
    requires forall j :: 0 <= j < i ==> !p(s[j])
    requires i < |s| ==> p(s[i])
    ensures FirstIndex(s, p) == i
  {
  }

  /** Concatenation of a sequence of pages, in order. */
  function Concat<T>(pages: seq<seq<T>>): (r: seq<T>)
  {
    if pages == [] then [] else Concat(pages[..|pages| - 1]) + pages[|pages| - 1]
  }

  /** Appending a page appends its items. */
  lemma ConcatAppend<T>(pages: seq<seq<T>>, x: seq<T>)
    ensures Concat(pages + [x]) == Concat(pages) + x
  {
    assert (pages + [x])[..|pages|] == pages;
  }
}
