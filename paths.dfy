/** POSIX path handling as Python's `posixpath` does it on a system whose
    separator is `/`: `os.path.join` of two parts, `os.path.dirname` and
    `os.path.normpath`. Paths are plain strings; nothing here touches a disk. */
module Paths {
  import opened Text

  type Path = string

  const Sep: char := '/'

  /** `os.path.join(a, b)`: an absolute `b` replaces `a`; otherwise a separator
      is inserted unless `a` is empty or already ends with one. */
  function Join(a: Path, b: Path): Path
  {
    if |b| > 0 && b[0] == Sep then b
    else if |a| == 0 || a[|a| - 1] == Sep then a + b
    else a + [Sep] + b
  }

  /** A single path component as a directory listing yields it: not empty,
      without separator, and neither `.` nor `..`. */
  predicate PlainName(n: string)
  {
    |n| > 0 && Sep !in n && n != "." && n != ".."
  }

  /** Index just past the last separator of `p`, or 0 when there is none
      (`p.rfind('/') + 1`). */
  function LastSepEnd(p: Path): (i: nat)
    ensures i <= |p|
    ensures i > 0 ==> p[i - 1] == Sep
    ensures forall k :: i <= k < |p| ==> p[k] != Sep
    decreases |p|
  {
    if |p| == 0 then 0
    else if p[|p| - 1] == Sep then |p|
    else LastSepEnd(p[..|p| - 1])
  }

  predicate AllSep(s: string) { forall k :: 0 <= k < |s| ==> s[k] == Sep }

  /** `s.rstrip('/')`. */
  function StripTrailingSeps(s: string): (r: string)
    ensures |r| <= |s| && r == s[..|r|]
    ensures |r| > 0 ==> r[|r| - 1] != Sep
    ensures forall k :: |r| <= k < |s| ==> s[k] == Sep
    decreases |s|
  {
    if |s| > 0 && s[|s| - 1] == Sep then StripTrailingSeps(s[..|s| - 1]) else s
  }

  /** `os.path.dirname(p)`: everything before the last separator, with
      trailing separators removed unless the head consists of separators only. */
  function Dirname(p: Path): Path
  {
    var head := p[..LastSepEnd(p)];
    if |head| > 0 && !AllSep(head) then StripTrailingSeps(head) else head
  }

  /** Joining a name to a directory and taking the directory back gives the
      directory, for a directory written without a trailing separator. */
  lemma DirnameJoin(d: Path, n: string)
    requires Sep !in n
    requires |d| == 0 || d[|d| - 1] != Sep
    ensures Dirname(Join(d, n)) == d
  {
    var p := Join(d, n);
    if |d| == 0 {
      assert p == n;
      assert forall k :: 0 <= k < |p| ==> p[k] != Sep by {
        forall k | 0 <= k < |p| ensures p[k] != Sep { assert p[k] in n; }
      }
    } else {
      assert |n| > 0 ==> n[0] in n;
      assert p == d + [Sep] + n;
      var i := LastSepEnd(p);
      assert p[|d|] == Sep;
      forall k | |d| + 1 <= k < |p| ensures p[k] != Sep { assert p[k] == n[k - |d| - 1]; assert p[k] in n; }
      assert i == |d| + 1;
      var head := p[..i];
      assert head == d + [Sep];
      assert !AllSep(head) by { assert head[|d| - 1] == d[|d| - 1]; }
      var r := StripTrailingSeps(head);
      assert r == d by {
        assert StripTrailingSeps(head) == StripTrailingSeps(head[..|head| - 1]);
        assert head[..|head| - 1] == d;
      }
    }
  }

  /** The separators that `normpath` keeps at the front: two exactly when the
      path starts with exactly two (a POSIX rule), one for any other absolute
      path, none for a relative one. */
  function Leading(p: Path): (n: nat)
    ensures n <= 2
  {
    if |p| >= 1 && p[0] == Sep then
      (if |p| >= 2 && p[1] == Sep && !(|p| >= 3 && p[2] == Sep) then 2 else 1)
    else 0
  }

  function Slashes(n: nat): (s: string)
    ensures |s| == n && AllSep(s)
  {
    if n == 0 then [] else Slashes(n - 1) + [Sep]
  }

  /** One iteration of `normpath`'s loop: drop empty and `.` components, let
      `..` cancel the previous real component, and keep a `..` that has nothing
      to cancel in a relative path. */
  function Step(acc: seq<string>, c: string, absolute: bool): seq<string>
  {
    if c == "" || c == "." then acc
    else if c != ".." || (!absolute && |acc| == 0) || (|acc| > 0 && acc[|acc| - 1] == "..") then acc + [c]
    else if |acc| > 0 then acc[..|acc| - 1]
    else acc
  }

  function Reduce(comps: seq<string>, acc: seq<string>, absolute: bool): seq<string>
    decreases |comps|
  {
    if |comps| == 0 then acc else Reduce(comps[1..], Step(acc, comps[0], absolute), absolute)
  }

  /** `os.path.normpath(p)`. */
  function Normpath(p: Path): Path
  {
    if |p| == 0 then "."
    else
      var lead := Leading(p);
      var body := Slashes(lead) + JoinSep(Reduce(Split(p, Sep), [], lead > 0), Sep);
      if |body| == 0 then "." else body
  }

  /** What `normpath` leaves: no empty part, no `.`, and `..` only in a run at
      the front of a relative path. */
  ghost predicate Reduced(r: seq<string>, absolute: bool)
  {
    forall k :: 0 <= k < |r| ==>
      r[k] != "" && r[k] != "." && Sep !in r[k] &&
      (r[k] == ".." ==> !absolute && forall j :: 0 <= j < k ==> r[j] == "..")
  }

  lemma {:induction false} ReduceIsReduced(comps: seq<string>, acc: seq<string>, absolute: bool)
    requires Reduced(acc, absolute)
    requires forall k :: 0 <= k < |comps| ==> Sep !in comps[k]
    ensures Reduced(Reduce(comps, acc, absolute), absolute)
    decreases |comps|
  {
    if |comps| > 0 {
      var acc' := Step(acc, comps[0], absolute);
      assert Reduced(acc', absolute) by {
        var c := comps[0];
        if c == "" || c == "." {
        } else if c != ".." || (!absolute && |acc| == 0) || (|acc| > 0 && acc[|acc| - 1] == "..") {
          assert acc' == acc + [c];
        } else if |acc| > 0 {
          assert acc' == acc[..|acc| - 1];
        }
      }
      ReduceIsReduced(comps[1..], acc', absolute);
    }
  }

  /** A reduced list is a fixed point of the loop. */
  lemma {:induction false} ReduceFixed(rest: seq<string>, acc: seq<string>, absolute: bool)
    requires Reduced(acc + rest, absolute)
    ensures Reduce(rest, acc, absolute) == acc + rest
    decreases |rest|
  {
    if |rest| > 0 {
      var c := rest[0];
      var all := acc + rest;
      assert all[|acc|] == c;
      if c == ".." {
        assert !absolute;
        if |acc| > 0 { assert all[|acc| - 1] == acc[|acc| - 1]; }
      }
      assert Step(acc, c, absolute) == acc + [c];
      assert (acc + [c]) + rest[1..] == all;
      ReduceFixed(rest[1..], acc + [c], absolute);
    }
  }

  lemma ReduceSnoc(comps: seq<string>, c: string, acc: seq<string>, absolute: bool)
    ensures Reduce(comps + [c], acc, absolute) == Step(Reduce(comps, acc, absolute), c, absolute)
    decreases |comps|
  {
    if |comps| > 0 {
      assert (comps + [c])[1..] == comps[1..] + [c];
      ReduceSnoc(comps[1..], c, Step(acc, comps[0], absolute), absolute);
    }
  }

  lemma JoinSepHead(r: seq<string>, sep: char)
    requires |r| > 0 && |r[0]| > 0
    ensures |JoinSep(r, sep)| > 0 && JoinSep(r, sep)[0] == r[0][0]
  {
  }

  lemma LeadingOf(n: nat, j: string)
    requires n <= 2 && |j| > 0 && j[0] != Sep
    ensures Leading(Slashes(n) + j) == n
  {
    var p := Slashes(n) + j;
    assert p[n] == j[0];
    if n == 2 { assert p[0] == Sep && p[1] == Sep; }
    if n == 1 { assert p[0] == Sep; }
  }

  function Empties(n: nat): (e: seq<string>)
    ensures |e| == n
  {
    if n == 0 then [] else Empties(n - 1) + [""]
  }

  /** Splitting separators followed by text yields one empty part per separator. */
  lemma {:induction false} SplitSlashes(n: nat, j: string)
    ensures Split(Slashes(n) + j, Sep) == Empties(n) + Split(j, Sep)
    decreases n
  {
    if n > 0 {
      assert Slashes(n) + j == Slashes(n - 1) + [Sep] + j;
      SplitAppend(Slashes(n - 1), j, Sep);
      SplitSlashes(n - 1, []);
      assert Slashes(n - 1) + [] == Slashes(n - 1);
      assert Split([], Sep) == [[]];
      var e := Split(Slashes(n - 1), Sep);
      assert e == Empties(n - 1) + [[]];
      assert Empties(n) == Empties(n - 1) + [[]];
      calc {
        Split(Slashes(n) + j, Sep);
        e + Split(j, Sep);
        (Empties(n - 1) + [[]]) + Split(j, Sep);
        Empties(n) + Split(j, Sep);
      }
    } else {
      assert Slashes(n) + j == j;
      assert Empties(n) + Split(j, Sep) == Split(j, Sep);
    }
  }

  lemma {:induction false} ReduceAppend(xs: seq<string>, ys: seq<string>, acc: seq<string>, absolute: bool)
    ensures Reduce(xs + ys, acc, absolute) == Reduce(ys, Reduce(xs, acc, absolute), absolute)
    decreases |xs|
  {
    if |xs| == 0 {
      assert xs + ys == ys;
    } else {
      assert (xs + ys)[1..] == xs[1..] + ys;
      ReduceAppend(xs[1..], ys, Step(acc, xs[0], absolute), absolute);
    }
  }

  lemma {:induction false} ReduceEmpties(n: nat, acc: seq<string>, absolute: bool)
    ensures Reduce(Empties(n), acc, absolute) == acc
    decreases n
  {
    if n > 0 {
      ReduceSnoc(Empties(n - 1), "", acc, absolute);
      ReduceEmpties(n - 1, acc, absolute);
    }
  }

  lemma ReduceSkipsEmpty(n: nat, rest: seq<string>, absolute: bool)
    ensures Reduce(Empties(n) + rest, [], absolute) == Reduce(rest, [], absolute)
  {
    ReduceAppend(Empties(n), rest, [], absolute);
    ReduceEmpties(n, [], absolute);
  }

  lemma NormpathDot()
    ensures Normpath(".") == "."
  {
    SplitNoSep(".", Sep);
    assert Reduce(["."], [], false) == Reduce([], [], false);
  }

  lemma NormpathSlashes(lead: nat)
    requires 1 <= lead <= 2
    ensures Normpath(Slashes(lead)) == Slashes(lead)
  {
    var q := Slashes(lead);
    assert Leading(q) == lead;
    SplitSlashes(lead, []);
    assert q + [] == q;
    assert Split([], Sep) == [[]];
    ReduceSkipsEmpty(lead, [[]], true);
    assert Reduce([[]], [], true) == Reduce([], [], true);
    assert JoinSep([], Sep) == [];
  }

  lemma NormpathOfReduced(lead: nat, r: seq<string>)
    requires lead <= 2 && |r| > 0 && Reduced(r, lead > 0)
    ensures Normpath(Slashes(lead) + JoinSep(r, Sep)) == Slashes(lead) + JoinSep(r, Sep)
  {
    var j := JoinSep(r, Sep);
    assert r[0] != "" && Sep !in r[0];
    assert r[0][0] in r[0];
    JoinSepHead(r, Sep);
    var q := Slashes(lead) + j;
    LeadingOf(lead, j);
    SplitSlashes(lead, j);
    SplitJoin(r, Sep);
    ReduceSkipsEmpty(lead, r, lead > 0);
    ReduceFixed(r, [], lead > 0);
    assert [] + r == r;
  }

  /** `normpath` is idempotent: a normalised path is already normal. */
  lemma NormpathIdempotent(p: Path)
    ensures Normpath(Normpath(p)) == Normpath(p)
  {
    if |p| == 0 {
      NormpathDot();
    } else {
      var lead := Leading(p);
      var r := Reduce(Split(p, Sep), [], lead > 0);
      ReduceIsReduced(Split(p, Sep), [], lead > 0);
      if |r| == 0 {
        assert Slashes(lead) + JoinSep(r, Sep) == Slashes(lead);
        if lead == 0 { NormpathDot(); } else { NormpathSlashes(lead); }
      } else {
        NormpathOfReduced(lead, r);
      }
    }
  }

  function Last<T>(s: seq<T>): T
    requires |s| > 0
  {
    s[|s| - 1]
  }

  lemma SplitLast(x: string, n: string)
    requires Sep !in n
    ensures Last(Split(x + [Sep] + n, Sep)) == n
  {
    SplitAppend(x, n, Sep);
    SplitNoSep(n, Sep);
  }

  /** Joining a name to a directory adds the name as a last component. */
  lemma SplitJoinName(d: Path, n: string) returns (front: seq<string>)
    requires PlainName(n)
    ensures Split(Join(d, n), Sep) == front + [n]
  {
    var p := Join(d, n);
    assert n[0] in n;
    SplitNoSep(n, Sep);
    if |d| == 0 {
      assert p == n;
      front := [];
    } else if d[|d| - 1] == Sep {
      assert p == d[..|d| - 1] + [Sep] + n;
      SplitAppend(d[..|d| - 1], n, Sep);
      front := Split(d[..|d| - 1], Sep);
    } else {
      assert p == d + [Sep] + n;
      SplitAppend(d, n, Sep);
      front := Split(d, Sep);
    }
  }

  /** A path whose last component is a plain name normalises to its
      normalised front followed by that name. */
  lemma NormpathSnoc(p: Path, front: seq<string>, n: string)
    requires PlainName(n)
    requires Split(p, Sep) == front + [n]
    ensures Normpath(p) == Slashes(Leading(p)) + JoinSep(Reduce(front, [], Leading(p) > 0) + [n], Sep)
  {
    if |p| == 0 {
      assert false;
    }
    var lead := Leading(p);
    var r := Reduce(front, [], lead > 0);
    ReduceSnoc(front, n, [], lead > 0);
    assert Step(r, n, lead > 0) == r + [n];
    if |r| == 0 {
      assert r + [n] == [n];
    } else {
      JoinSepSnoc(r, n, Sep);
    }
  }

  lemma LastOfBody(lead: nat, r: seq<string>, n: string)
    requires PlainName(n)
    ensures Last(Split(Slashes(lead) + JoinSep(r + [n], Sep), Sep)) == n
  {
    var body := Slashes(lead) + JoinSep(r + [n], Sep);
    if |r| == 0 {
      assert r + [n] == [n];
      assert body == Slashes(lead) + n;
      if lead == 0 {
        assert body == n;
        SplitNoSep(n, Sep);
      } else {
        assert body == Slashes(lead - 1) + [Sep] + n;
        SplitLast(Slashes(lead - 1), n);
      }
    } else {
      JoinSepSnoc(r, n, Sep);
      assert body == (Slashes(lead) + JoinSep(r, Sep)) + [Sep] + n;
      SplitLast(Slashes(lead) + JoinSep(r, Sep), n);
    }
  }

  lemma NormpathLast(p: Path, front: seq<string>, n: string)
    requires PlainName(n)
    requires Split(p, Sep) == front + [n]
    ensures Last(Split(Normpath(p), Sep)) == n
  {
    NormpathSnoc(p, front, n);
    LastOfBody(Leading(p), Reduce(front, [], Leading(p) > 0), n);
  }

  /** The last component of a normalised `join(d, n)` is the name `n`. */
  lemma NormpathJoinLast(d: Path, n: string)
    requires PlainName(n)
    ensures Last(Split(Normpath(Join(d, n)), Sep)) == n
  {
    var front := SplitJoinName(d, n);
    NormpathLast(Join(d, n), front, n);
  }

  /** Two names joined to one directory normalise apart unless they are the same name. */
  lemma NormpathJoinInjective(d: Path, n1: string, n2: string)
    requires PlainName(n1) && PlainName(n2)
    requires Normpath(Join(d, n1)) == Normpath(Join(d, n2))
    ensures n1 == n2
  {
    NormpathJoinLast(d, n1);
    NormpathJoinLast(d, n2);
  }
}
