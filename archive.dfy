/** The archive is the filesystem itself. A filesystem here maps normalised
    paths to directories (their entry names, in listing order) and files (their
    text). `glob`, `os.path.exists` and `open(...).read()` are modelled on it. */
module Archive {
  import opened Text
  import opened Paths
  import opened Outcomes

  datatype Node = Dir(entries: seq<string>) | File(text: string)

  type FileSystem = map<Path, Node>

  /** Paths that normalise to the same string name the same entry. */
  function Lookup(fs: FileSystem, p: Path): Option<Node>
  {
    var q := Normpath(p);
    if q in fs then Some(fs[q]) else None
  }

  /** `os.path.exists(p)`. */
  predicate Exists(fs: FileSystem, p: Path)
  {
    Lookup(fs, p).Some?
  }

  /** `open(p, "r").read()`: the text of a file, or the exception `open` raises. */
  function ReadText(fs: FileSystem, p: Path): (r: Result<string>)
    ensures r.Ok? ==> Exists(fs, p) && Lookup(fs, p) == Some(File(r.value))
    ensures Lookup(fs, p).None? ==> r == Err(FileNotFoundError(p))
    ensures Lookup(fs, p).Some? && Lookup(fs, p).value.Dir? ==> r == Err(IsADirectoryError(p))
    ensures Lookup(fs, p).Some? && Lookup(fs, p).value.File? ==> r == Ok(Lookup(fs, p).value.text)
  {
    match Lookup(fs, p)
    case None => Err(FileNotFoundError(p))
    case Some(Dir(_)) => Err(IsADirectoryError(p))
    case Some(File(t)) => Ok(t)
  }

  /** The names a directory listing yields; nothing for a missing path or a file. */
  function Entries(fs: FileSystem, dir: Path): seq<string>
  {
    match Lookup(fs, dir)
    case Some(Dir(es)) => es
    case _ => []
  }

  predicate EndsWith(s: string, suffix: string)
  {
    |suffix| <= |s| && s[|s| - |suffix|..] == suffix
  }

  /** A name the pattern `*<suffix>` matches: `*` never matches a leading dot. */
  predicate Matches(n: string, suffix: string)
  {
    (|n| == 0 || n[0] != '.') && EndsWith(n, suffix)
  }

  function Matching(dir: Path, names: seq<string>, suffix: string): seq<Path>
    decreases |names|
  {
    if |names| == 0 then []
    else (if Matches(names[0], suffix) then [Join(dir, names[0])] else []) + Matching(dir, names[1..], suffix)
  }

  /** `glob.glob(os.path.join(dir, "*" + suffix))`, in listing order. */
  function Glob(fs: FileSystem, dir: Path, suffix: string): seq<Path>
  {
    Matching(dir, Entries(fs, dir), suffix)
  }

  /** A directory listing: plain names, none twice. */
  predicate ListingOk(es: seq<string>)
  {
    (forall k :: 0 <= k < |es| ==> PlainName(es[k])) &&
    (forall i, j :: 0 <= i < j < |es| ==> es[i] != es[j])
  }

  /** What every real filesystem satisfies and the model relies on. */
  predicate WellFormed(fs: FileSystem)
  {
    forall p :: p in fs && fs[p].Dir? ==> ListingOk(fs[p].entries)
  }

  predicate Distinct<T(==)>(s: seq<T>)
  {
    forall i, j :: 0 <= i < j < |s| ==> s[i] != s[j]
  }

  lemma EntriesOk(fs: FileSystem, dir: Path)
    requires WellFormed(fs)
    ensures ListingOk(Entries(fs, dir))
  {
  }

  /** A glob result is exactly a matching entry joined to the directory. */
  lemma {:induction false} MatchingMembers(dir: Path, names: seq<string>, suffix: string, p: Path)
    ensures p in Matching(dir, names, suffix) <==> exists n :: n in names && Matches(n, suffix) && p == Join(dir, n)
    decreases |names|
  {
    if |names| > 0 {
      MatchingMembers(dir, names[1..], suffix, p);
      if p in Matching(dir, names[1..], suffix) {
        var n :| n in names[1..] && Matches(n, suffix) && p == Join(dir, n);
        assert n in names;
      }
      forall n | n in names && Matches(n, suffix) && p == Join(dir, n)
        ensures p in Matching(dir, names, suffix)
      {
        if n != names[0] { assert n in names[1..]; }
      }
    }
  }

  lemma GlobMembers(fs: FileSystem, dir: Path, suffix: string, p: Path)
    ensures p in Glob(fs, dir, suffix) <==>
      exists n :: n in Entries(fs, dir) && Matches(n, suffix) && p == Join(dir, n)
  {
    MatchingMembers(dir, Entries(fs, dir), suffix, p);
  }

  /** Distinct names give distinct paths under one directory. */
  lemma JoinInjective(d: Path, n1: string, n2: string)
    requires PlainName(n1) && PlainName(n2)
    requires Join(d, n1) == Join(d, n2)
    ensures n1 == n2
  {
    assert n1[0] in n1 && n2[0] in n2;
    var x := Join(d, n1);
    if |d| == 0 || d[|d| - 1] == Sep {
      assert x[|d|..] == n1 && Join(d, n2)[|d|..] == n2;
    } else {
      assert x[|d| + 1..] == n1 && Join(d, n2)[|d| + 1..] == n2;
    }
  }

  lemma {:induction false} MatchingDistinct(dir: Path, names: seq<string>, suffix: string)
    requires ListingOk(names)
    ensures Distinct(Matching(dir, names, suffix))
    decreases |names|
  {
    if |names| > 0 {
      ListingTail(names);
      MatchingDistinct(dir, names[1..], suffix);
      var rest := Matching(dir, names[1..], suffix);
      if Matches(names[0], suffix) {
        var p := Join(dir, names[0]);
        HeadFresh(dir, names, suffix);
        DistinctCons(p, rest);
        assert Matching(dir, names, suffix) == [p] + rest;
      } else {
        assert Matching(dir, names, suffix) == rest;
      }
    }
  }

  lemma ListingTail(names: seq<string>)
    requires ListingOk(names) && |names| > 0
    ensures ListingOk(names[1..]) && names[0] !in names[1..] && PlainName(names[0])
  {
    forall k | 0 <= k < |names[1..]| ensures PlainName(names[1..][k]) && names[1..][k] != names[0] {
      assert names[1..][k] == names[k + 1];
    }
    forall i, j | 0 <= i < j < |names[1..]| ensures names[1..][i] != names[1..][j] {
      assert names[1..][i] == names[i + 1] && names[1..][j] == names[j + 1];
    }
  }

  /** The first entry's path is not among the paths of the later entries. */
  lemma HeadFresh(dir: Path, names: seq<string>, suffix: string)
    requires ListingOk(names) && |names| > 0
    ensures Join(dir, names[0]) !in Matching(dir, names[1..], suffix)
  {
    var p := Join(dir, names[0]);
    ListingTail(names);
    MatchingMembers(dir, names[1..], suffix, p);
    if p in Matching(dir, names[1..], suffix) {
      var n :| n in names[1..] && Matches(n, suffix) && p == Join(dir, n);
      var k :| 0 <= k < |names[1..]| && names[1..][k] == n;
      assert PlainName(n);
      JoinInjective(dir, names[0], n);
    }
  }

  lemma DistinctCons(p: Path, rest: seq<Path>)
    requires Distinct(rest) && p !in rest
    ensures Distinct([p] + rest)
  {
    var s := [p] + rest;
    forall i, j | 0 <= i < j < |s| ensures s[i] != s[j] {
      assert s[j] == rest[j - 1];
      if i > 0 { assert s[i] == rest[i - 1]; }
    }
  }

  /** On a well-formed filesystem a glob never yields a path twice. */
  lemma GlobDistinct(fs: FileSystem, dir: Path, suffix: string)
    requires WellFormed(fs)
    ensures Distinct(Glob(fs, dir, suffix))
  {
    EntriesOk(fs, dir);
    MatchingDistinct(dir, Entries(fs, dir), suffix);
  }
}
