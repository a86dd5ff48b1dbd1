/** The local document listing: the names of the source directory that end in
 *  `.md`, sorted the way Python sorts strings. */
module Listing {

  /** The document whose content is published to the parent page itself. */
  const RootDocument: string := "README.md"

  /** Python's `name.endswith('.md')`. */
  predicate EndsWithMd(name: string)
  {
    |name| >= 3 && name[|name| - 3..] == ".md"
  }

  /** Any name with the `.md` suffix is listed; the test is case-sensitive
   *  and looks only at the end of the name. */
  lemma EndsWithMdExamples(stem: string)
    ensures EndsWithMd(stem + ".md")
    ensures !EndsWithMd(stem + ".MD")
    ensures !EndsWithMd(stem + ".md.bak")
  {
    assert (stem + ".md")[|stem|..] == ".md";
    assert (stem + ".MD")[|stem|..] == ".MD";
    assert (stem + ".md.bak")[|stem| + 4..] == "bak";
  }

  /** Python's `a <= b` on strings: code point by code point, a proper prefix
   *  coming first. */
  predicate LexLe(a: string, b: string)
    decreases |a|
  {
    |a| == 0 || (|b| > 0 && (a[0] < b[0] || (a[0] == b[0] && LexLe(a[1..], b[1..]))))
  }

  lemma {:induction false} LexLeRefl(a: string)
    ensures LexLe(a, a)
    decreases |a|
  {
    if |a| > 0 {
      LexLeRefl(a[1..]);
    }
  }

  lemma {:induction false} LexLeTotal(a: string, b: string)
    ensures LexLe(a, b) || LexLe(b, a)
    decreases |a|
  {
    if |a| > 0 && |b| > 0 && a[0] == b[0] {
      LexLeTotal(a[1..], b[1..]);
    }
  }

  lemma {:induction false} LexLeTrans(a: string, b: string, c: string)
    requires LexLe(a, b) && LexLe(b, c)
    ensures LexLe(a, c)
    decreases |a|
  {
    if |a| > 0 && a[0] == b[0] && b[0] == c[0] {
      LexLeTrans(a[1..], b[1..], c[1..]);
    }
  }

  lemma {:induction false} LexLeAntisym(a: string, b: string)
    requires LexLe(a, b) && LexLe(b, a)
    ensures a == b
    decreases |a|
  {
    if |a| > 0 {
      LexLeAntisym(a[1..], b[1..]);
      assert a == [a[0]] + a[1..] && b == [b[0]] + b[1..];
    }
  }

  predicate Sorted(s: seq<string>)
  {
    forall i, j :: 0 <= i < j < |s| ==> LexLe(s[i], s[j])
  }

  lemma SortedPrepend(x: string, s: seq<string>)
    requires Sorted(s)
    requires forall z :: z in s ==> LexLe(x, z)
    ensures Sorted([x] + s)
  {
    forall i, j | 0 <= i < j < |[x] + s|
      ensures LexLe(([x] + s)[i], ([x] + s)[j])
    {
      assert ([x] + s)[j] == s[j - 1];
      if i > 0 {
        assert ([x] + s)[i] == s[i - 1];
      }
    }
  }

  /** Inserts `x` into a sorted list, keeping it sorted. */
  function Insert(x: string, s: seq<string>): (r: seq<string>)
    requires Sorted(s)
    ensures Sorted(r)
    ensures multiset(r) == multiset(s) + multiset{x}
    decreases |s|
  {
    if s == [] then
      [x]
    else if LexLe(x, s[0]) then
      InsertFront(x, s);
      [x] + s
    else
      var t := Insert(x, s[1..]);
      LexLeTotal(x, s[0]);
      InsertBehind(x, s, t);
      assert s == [s[0]] + s[1..];
      [s[0]] + t
  }

  lemma InsertFront(x: string, s: seq<string>)
    requires Sorted(s) && |s| > 0 && LexLe(x, s[0])
    ensures Sorted([x] + s)
  {
    forall z | z in s
      ensures LexLe(x, z)
    {
      var j :| 0 <= j < |s| && s[j] == z;
      if j > 0 {
        LexLeTrans(x, s[0], z);
      }
    }
    SortedPrepend(x, s);
  }

  lemma InsertBehind(x: string, s: seq<string>, t: seq<string>)
    requires Sorted(s) && |s| > 0 && LexLe(s[0], x)
    requires Sorted(t) && multiset(t) == multiset(s[1..]) + multiset{x}
    ensures Sorted([s[0]] + t)
  {
    forall z | z in t
      ensures LexLe(s[0], z)
    {
      assert z in multiset(t);
      if z != x {
        assert z in multiset(s[1..]);
        assert z in s[1..];
        var j :| 0 <= j < |s| - 1 && s[1..][j] == z;
        assert s[j + 1] == z;
      }
    }
    SortedPrepend(s[0], t);
  }

  /** Python's `list.sort()` / `sorted()` on names: the result is ordered and
   *  a permutation of the input. */
  function Sort(s: seq<string>): (r: seq<string>)
    ensures Sorted(r)
    ensures multiset(r) == multiset(s)
    decreases |s|
  {
    if s == [] then
      []
    else
      assert s == [s[0]] + s[1..];
      Insert(s[0], Sort(s[1..]))
  }

  /** Two orderings of the same names start with the same name. */
  lemma SortedHeadsAgree(a: seq<string>, b: seq<string>)
    requires Sorted(a) && Sorted(b)
    requires multiset(a) == multiset(b)
    requires a != []
    ensures b != [] && a[0] == b[0]
  {
    assert a[0] in multiset(b);
    var j :| 0 <= j < |b| && b[j] == a[0];
    assert b[0] in multiset(a);
    var k :| 0 <= k < |a| && a[k] == b[0];
    LexLeRefl(a[0]);
    LexLeRefl(b[0]);
    assert LexLe(b[0], a[0]);
    assert LexLe(a[0], b[0]);
    LexLeAntisym(a[0], b[0]);
  }

  /** There is only one ordered arrangement of a multiset of names, so any
   *  two sorts of the same names agree, and sorting twice changes nothing. */
  lemma {:induction false} SortedUnique(a: seq<string>, b: seq<string>)
    requires Sorted(a) && Sorted(b)
    requires multiset(a) == multiset(b)
    ensures a == b
    decreases |a|
  {
    assert |a| == |multiset(a)| && |b| == |multiset(b)|;
    if a != [] {
      SortedHeadsAgree(a, b);
      assert a == [a[0]] + a[1..] && b == [b[0]] + b[1..];
      assert multiset(a[1..]) == multiset(a) - multiset{a[0]};
      assert multiset(b[1..]) == multiset(b) - multiset{b[0]};
      SortedUnique(a[1..], b[1..]);
    }
  }

  lemma SortIdempotent(s: seq<string>)
    ensures Sort(Sort(s)) == Sort(s)
  {
    SortedUnique(Sort(Sort(s)), Sort(s));
  }

  /** The names that end in `.md`, in their original order. */
  function MdOnly(names: seq<string>): (r: seq<string>)
    ensures forall n :: multiset(r)[n] == if EndsWithMd(n) then multiset(names)[n] else 0
    decreases |names|
  {
    if names == [] then
      []
    else
      var init := names[..|names| - 1];
      var last := names[|names| - 1];
      assert names == init + [last];
      if EndsWithMd(last) then MdOnly(init) + [last] else MdOnly(init)
  }

  /** The local listing a run works from. */
  function MarkdownFiles(names: seq<string>): seq<string>
  {
    Sort(MdOnly(names))
  }

  /** Any ordered list holding the `.md` names of the directory, as often as
   *  they occur there, is the run's listing. */
  lemma ListingIsMarkdownFiles(names: seq<string>, files: seq<string>)
    requires Sorted(files)
    requires forall n :: multiset(files)[n] == if EndsWithMd(n) then multiset(names)[n] else 0
    ensures files == MarkdownFiles(names)
  {
    assert multiset(files) == multiset(MdOnly(names));
    SortedUnique(files, MarkdownFiles(names));
  }

  /** `_get_markdown_files`: keep the directory entries ending in `.md`,
   *  then sort them. */
  method GetMarkdownFiles(dirNames: seq<string>) returns (files: seq<string>)
    ensures Sorted(files)
    ensures forall n :: multiset(files)[n] == if EndsWithMd(n) then multiset(dirNames)[n] else 0
  {
    files := [];
    for i := 0 to |dirNames|
      invariant forall n :: multiset(files)[n] == if EndsWithMd(n) then multiset(dirNames[..i])[n] else 0
    {
      assert dirNames[..i + 1] == dirNames[..i] + [dirNames[i]];
      if !EndsWithMd(dirNames[i]) {
        continue;
      }
      files := files + [dirNames[i]];
    }
    assert dirNames[..|dirNames|] == dirNames;
    files := Sort(files);
  }
}
