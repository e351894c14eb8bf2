/** `list.sort(reverse=True)` on strings: the permutation of the list that is
    in descending code-point order. With a total order that permutation is
    unique, so an insertion sort gives the same list as Python's sort. */
module Sorting {
  import opened Text

  /** No element is smaller than one after it. */
  predicate Descending(s: seq<string>)
  {
    forall i, j :: 0 <= i < j < |s| ==> !LexLess(s[i], s[j])
  }

  /** Every element is greater than every element after it. */
  predicate StrictlyDescending(s: seq<string>)
  {
    forall i, j :: 0 <= i < j < |s| ==> LexLess(s[j], s[i])
  }

  /** `!LexLess` (greater or equal) chains. */
  lemma AtLeastTransitive(a: string, b: string, c: string)
    requires !LexLess(a, b) && !LexLess(b, c)
    ensures !LexLess(a, c)
  {
    LexLessTrichotomy(a, b);
    LexLessTrichotomy(b, c);
    LexLessTrichotomy(a, c);
    if LexLess(a, c) {
      if a == b {
      } else if b == c {
      } else {
        LexLessTransitive(c, b, a);
        LexLessTrichotomy(a, c);
      }
    }
  }

  function Insert(x: string, s: seq<string>): (r: seq<string>)
    requires Descending(s)
    ensures multiset(r) == multiset(s) + multiset{x}
    ensures Descending(r)
    decreases |s|
  {
    if |s| == 0 then [x]
    else if !LexLess(x, s[0]) then
      InsertFront(x, s);
      [x] + s
    else
      var rest := Insert(x, s[1..]);
      InsertBehind(x, s, rest);
      [s[0]] + rest
  }

  /** An element no smaller than the head goes in front. */
  lemma InsertFront(x: string, s: seq<string>)
    requires Descending(s) && |s| > 0 && !LexLess(x, s[0])
    ensures Descending([x] + s)
  {
    forall j | 0 <= j < |s| ensures !LexLess(x, s[j]) {
      if j > 0 { AtLeastTransitive(x, s[0], s[j]); }
    }
    forall i, j | 0 <= i < j < |[x] + s| ensures !LexLess(([x] + s)[i], ([x] + s)[j]) {
      assert ([x] + s)[j] == s[j - 1];
      if i > 0 { assert ([x] + s)[i] == s[i - 1]; }
    }
  }

  /** An element smaller than the head goes after it, into the tail. */
  lemma InsertBehind(x: string, s: seq<string>, rest: seq<string>)
    requires Descending(s) && |s| > 0 && LexLess(x, s[0])
    requires multiset(rest) == multiset(s[1..]) + multiset{x} && Descending(rest)
    ensures multiset([s[0]] + rest) == multiset(s) + multiset{x}
    ensures Descending([s[0]] + rest)
  {
    assert s == [s[0]] + s[1..];
    forall j | 0 <= j < |rest| ensures !LexLess(s[0], rest[j]) {
      assert rest[j] in multiset(rest);
      if rest[j] == x {
        LexLessTrichotomy(x, s[0]);
      } else {
        assert rest[j] in multiset(s[1..]);
        var k :| 0 <= k < |s[1..]| && s[1..][k] == rest[j];
        assert s[k + 1] == rest[j];
      }
    }
    var r := [s[0]] + rest;
    forall i, j | 0 <= i < j < |r| ensures !LexLess(r[i], r[j]) {
      assert r[j] == rest[j - 1];
      if i > 0 { assert r[i] == rest[i - 1]; }
    }
  }

  /** The listing in descending order: a permutation of the input, descending. */
  function SortDesc(s: seq<string>): (r: seq<string>)
    ensures multiset(r) == multiset(s)
    ensures Descending(r)
    decreases |s|
  {
    if |s| == 0 then []
    else
      assert s == [s[0]] + s[1..];
      Insert(s[0], SortDesc(s[1..]))
  }

  lemma {:induction false} DistinctCount(s: seq<string>, x: string)
    requires forall i, j :: 0 <= i < j < |s| ==> s[i] != s[j]
    ensures multiset(s)[x] <= 1
    decreases |s|
  {
    if |s| > 0 {
      var t := s[..|s| - 1];
      assert s == t + [s[|s| - 1]];
      DistinctCount(t, x);
      assert forall k :: 0 <= k < |t| ==> t[k] != s[|s| - 1];
    }
  }

  /** A descending list without duplicates is strictly descending. */
  lemma DescendingDistinct(s: seq<string>)
    requires Descending(s)
    requires forall i, j :: 0 <= i < j < |s| ==> s[i] != s[j]
    ensures StrictlyDescending(s)
  {
    forall i, j | 0 <= i < j < |s| ensures LexLess(s[j], s[i]) {
      LexLessTrichotomy(s[i], s[j]);
    }
  }

  /** Permuting a list without duplicates keeps it without duplicates. */
  lemma PermutationDistinct(s: seq<string>, r: seq<string>)
    requires multiset(r) == multiset(s)
    requires forall i, j :: 0 <= i < j < |s| ==> s[i] != s[j]
    ensures forall i, j :: 0 <= i < j < |r| ==> r[i] != r[j]
  {
    forall i, j | 0 <= i < j < |r| ensures r[i] != r[j] {
      DistinctCount(s, r[j]);
      assert r == r[..j] + r[j..];
      assert r[i] in multiset(r[..j]) && r[j] in multiset(r[j..]);
      assert multiset(r)[r[j]] == multiset(r[..j])[r[j]] + multiset(r[j..])[r[j]];
    }
  }

  /** Sorting distinct strings gives a strictly descending list. */
  lemma SortDescStrict(s: seq<string>)
    requires forall i, j :: 0 <= i < j < |s| ==> s[i] != s[j]
    ensures StrictlyDescending(SortDesc(s))
  {
    PermutationDistinct(s, SortDesc(s));
    DescendingDistinct(SortDesc(s));
  }

  /** Only one arrangement of a multiset is descending: the one Python's sort produces. */
  lemma {:induction false} DescendingUnique(a: seq<string>, b: seq<string>)
    requires Descending(a) && Descending(b)
    requires multiset(a) == multiset(b)
    ensures a == b
    decreases |a|
  {
    assert |a| == |multiset(a)| == |b|;
    if |a| > 0 {
      SameHead(a, b);
      DropHead(a);
      DropHead(b);
      DescendingUnique(a[1..], b[1..]);
      assert a == [a[0]] + a[1..] && b == [b[0]] + b[1..];
    }
  }

  /** Two descending arrangements of one multiset start with its largest element. */
  lemma SameHead(a: seq<string>, b: seq<string>)
    requires Descending(a) && Descending(b)
    requires multiset(a) == multiset(b) && |a| > 0 && |b| > 0
    ensures a[0] == b[0]
  {
    assert a[0] in multiset(b) && b[0] in multiset(a);
    var i :| 0 <= i < |b| && b[i] == a[0];
    var j :| 0 <= j < |a| && a[j] == b[0];
    assert !LexLess(b[0], a[0]) by { if i > 0 { assert !LexLess(b[0], b[i]); } else { LexLessIrreflexive(a[0]); } }
    assert !LexLess(a[0], b[0]) by { if j > 0 { assert !LexLess(a[0], a[j]); } else { LexLessIrreflexive(a[0]); } }
    LexLessTrichotomy(a[0], b[0]);
  }

  /** The tail of a descending list is descending and holds the rest of its multiset. */
  lemma DropHead(a: seq<string>)
    requires Descending(a) && |a| > 0
    ensures Descending(a[1..])
    ensures multiset(a[1..]) == multiset(a) - multiset{a[0]}
  {
    assert a == [a[0]] + a[1..];
    forall i, j | 0 <= i < j < |a[1..]| ensures !LexLess(a[1..][i], a[1..][j]) {
      assert a[1..][i] == a[i + 1] && a[1..][j] == a[j + 1];
    }
  }
}
