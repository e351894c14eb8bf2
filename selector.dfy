/** The recency selector, `get_recent_resumes`: from the path of the current
    résumé, find its position (the path component after `database`), list
    `database/<position>`, sort the entries newest first, and walk the first
    `limit` of them, keeping each one that has a PDF other than the current
    résumé and a stored review. */
module Selector {
  import opened Text
  import opened Paths
  import opened Outcomes
  import opened Archive
  import opened Sorting

  const ArchiveRoot: string := "database"
  const ReviewFileName: string := "review_result.txt"
  const PdfSuffix: string := ".pdf"
  const DefaultLimit: int := 5

  /** `str` of the `ValueError` that `parts.index("database")` raises. */
  const RootMissing: string := "'database' is not in list"

  /** One selected submission: its folder, its first PDF and its stored review. */
  datatype Record = Record(folder: Path, pdfPath: Path, reviewContent: string)

  /** `xs.index(x)`: the first position of `x`, or nothing when it is absent. */
  function IndexOf(xs: seq<string>, x: string): (r: Option<nat>)
    ensures r.Some? ==> r.value < |xs| && xs[r.value] == x
    ensures r.Some? ==> forall j :: 0 <= j < r.value ==> xs[j] != x
    ensures r.None? ==> x !in xs
    decreases |xs|
  {
    if |xs| == 0 then None
    else if xs[0] == x then Some(0)
    else match IndexOf(xs[1..], x)
      case None => None
      case Some(i) => Some(i + 1)
  }

  /** `parts[parts.index("database") + 1]` with `parts = current_path.split("/")`,
      or the `ValueError` / `IndexError` that statement raises. */
  function PositionOf(currentPath: Path): Result<string>
  {
    var parts := Split(currentPath, Sep);
    match IndexOf(parts, ArchiveRoot)
    case None => Err(ValueError(RootMissing))
    case Some(i) => if i + 1 < |parts| then Ok(parts[i + 1]) else Err(IndexError("list index out of range"))
  }

  /** The position is the component right after the FIRST `database`; a path
      without one raises `ValueError`, a path ending in it `IndexError`. */
  lemma PositionOfSpec(currentPath: Path, i: nat)
    ensures var parts := Split(currentPath, Sep);
      ArchiveRoot !in parts ==> PositionOf(currentPath) == Err(ValueError(RootMissing))
    ensures var parts := Split(currentPath, Sep);
      i < |parts| && parts[i] == ArchiveRoot && (forall j :: 0 <= j < i ==> parts[j] != ArchiveRoot) ==>
        PositionOf(currentPath) == (if i + 1 < |parts| then Ok(parts[i + 1]) else Err(IndexError("list index out of range")))
  {
    var parts := Split(currentPath, Sep);
    var r := IndexOf(parts, ArchiveRoot);
    if i < |parts| && parts[i] == ArchiveRoot && (forall j :: 0 <= j < i ==> parts[j] != ArchiveRoot) {
      assert r.Some?;
      assert r.value == i;
    }
  }

  /** `os.path.join("database", position)`. */
  function PositionPath(position: string): Path
  {
    Join(ArchiveRoot, position)
  }

  /** Every entry of the position directory, newest first (`date_folders` after the sort). */
  function PositionListing(fs: FileSystem, position: string): seq<Path>
  {
    SortDesc(Glob(fs, PositionPath(position), ""))
  }

  /** The length of `s[:limit]` for a list of length `n`, negative `limit` included. */
  function WindowLen(n: nat, limit: int): (w: nat)
    ensures w <= n
  {
    if limit >= 0 then (if limit < n then limit else n)
    else if n + limit > 0 then n + limit
    else 0
  }

  /** What one iteration of the loop does with a folder. */
  datatype Visit = Skip | Keep(record: Record) | Fail(error: Exception)

  function Examine(fs: FileSystem, currentPath: Path, folder: Path): Visit
  {
    var pdfs := Glob(fs, folder, PdfSuffix);
    if |pdfs| == 0 then Skip
    else if pdfs[0] == currentPath then Skip
    else
      var reviewFile := Join(folder, ReviewFileName);
      if !Exists(fs, reviewFile) then Skip
      else match ReadText(fs, reviewFile)
        case Ok(t) => Keep(Record(folder, pdfs[0], t))
        case Err(e) => Fail(e)
  }

  /** A folder is kept exactly when it has a PDF, its first PDF is not the
      current résumé, and its review file reads as text; that text is the record's. */
  lemma ExamineKeep(fs: FileSystem, currentPath: Path, folder: Path, rec: Record)
    ensures Examine(fs, currentPath, folder) == Keep(rec) <==>
      var pdfs := Glob(fs, folder, PdfSuffix);
      |pdfs| > 0 && pdfs[0] != currentPath &&
      ReadText(fs, Join(folder, ReviewFileName)) == Ok(rec.reviewContent) &&
      rec == Record(folder, pdfs[0], rec.reviewContent)
  {
  }

  function Prepend(acc: seq<Record>, r: Result<seq<Record>>): Result<seq<Record>>
  {
    match r
    case Ok(rs) => Ok(acc + rs)
    case Err(e) => Err(e)
  }

  lemma PrependNothing(r: Result<seq<Record>>)
    ensures Prepend([], r) == r
  {
    if r.Ok? { assert [] + r.value == r.value; }
  }

  lemma PrependSnoc(acc: seq<Record>, rec: Record, r: Result<seq<Record>>)
    ensures Prepend(acc, Prepend([rec], r)) == Prepend(acc + [rec], r)
  {
    if r.Ok? { assert acc + ([rec] + r.value) == (acc + [rec]) + r.value; }
  }

  /** What examining each folder gives, in walking order. */
  function Visits(fs: FileSystem, currentPath: Path, folders: seq<Path>): (vs: seq<Visit>)
    ensures |vs| == |folders|
    ensures forall k :: 0 <= k < |folders| ==> vs[k] == Examine(fs, currentPath, folders[k])
  {
    seq(|folders|, k requires 0 <= k < |folders| => Examine(fs, currentPath, folders[k]))
  }

  /** The records the loop collects from `visits` when `budget` more may be
      taken before the `len(resume_data) >= limit` break. */
  function Collect(visits: seq<Visit>, budget: int): Result<seq<Record>>
    decreases |visits|
  {
    if |visits| == 0 then Ok([])
    else match visits[0]
      case Skip => Collect(visits[1..], budget)
      case Fail(e) => Err(e)
      case Keep(rec) =>
        if budget <= 1 then Ok([rec])
        else Prepend([rec], Collect(visits[1..], budget - 1))
  }

  /** One iteration of the walk, seen from position `k`. */
  lemma CollectStep(visits: seq<Visit>, k: nat, budget: int)
    requires k < |visits|
    ensures Collect(visits[k..], budget) ==
      match visits[k]
      case Skip => Collect(visits[k + 1..], budget)
      case Fail(e) => Err(e)
      case Keep(rec) => if budget <= 1 then Ok([rec]) else Prepend([rec], Collect(visits[k + 1..], budget - 1))
  {
    assert visits[k..][0] == visits[k] && visits[k..][1..] == visits[k + 1..];
  }

  /** `get_recent_resumes(current_path, limit)`. */
  function SelectRecent(fs: FileSystem, currentPath: Path, limit: int): Result<seq<Record>>
  {
    match PositionOf(currentPath)
    case Err(e) => Err(e)
    case Ok(position) =>
      var listing := PositionListing(fs, position);
      Collect(Visits(fs, currentPath, listing[..WindowLen(|listing|, limit)]), limit)
  }

  /** The loop has walked `visits[..k]`, collecting `acc`, and what is left
      of the walk completes it to the whole result. */
  predicate Walked(visits: seq<Visit>, limit: int, k: nat, acc: seq<Record>)
  {
    k <= |visits| && Collect(visits, limit) == Prepend(acc, Collect(visits[k..], limit - |acc|))
  }

  lemma WalkStart(visits: seq<Visit>, limit: int)
    ensures Walked(visits, limit, 0, [])
  {
    assert visits[0..] == visits;
    PrependNothing(Collect(visits, limit));
  }

  lemma WalkSkip(visits: seq<Visit>, limit: int, k: nat, acc: seq<Record>)
    requires Walked(visits, limit, k, acc) && k < |visits| && visits[k] == Skip
    ensures Walked(visits, limit, k + 1, acc)
  {
    CollectStep(visits, k, limit - |acc|);
  }

  lemma WalkFail(visits: seq<Visit>, limit: int, k: nat, acc: seq<Record>, e: Exception)
    requires Walked(visits, limit, k, acc) && k < |visits| && visits[k] == Fail(e)
    ensures Collect(visits, limit) == Err(e)
  {
    CollectStep(visits, k, limit - |acc|);
  }

  lemma WalkKeep(visits: seq<Visit>, limit: int, k: nat, acc: seq<Record>, rec: Record)
    requires Walked(visits, limit, k, acc) && k < |visits| && visits[k] == Keep(rec)
    ensures |acc + [rec]| >= limit ==> Collect(visits, limit) == Ok(acc + [rec])
    ensures |acc + [rec]| < limit ==> Walked(visits, limit, k + 1, acc + [rec])
  {
    CollectStep(visits, k, limit - |acc|);
    PrependSnoc(acc, rec, Collect(visits[k + 1..], limit - |acc| - 1));
  }

  lemma WalkEnd(visits: seq<Visit>, limit: int, acc: seq<Record>)
    requires Walked(visits, limit, |visits|, acc)
    ensures Collect(visits, limit) == Ok(acc)
  {
    assert visits[|visits|..] == [] && acc + [] == acc;
  }

  method GetRecentResumes(fs: FileSystem, currentPath: Path, limit: int) returns (r: Result<seq<Record>>)
    ensures r == SelectRecent(fs, currentPath, limit)
  {
    var position := PositionOf(currentPath);
    if position.Err? {
      return Err(position.error);
    }
    var positionPath := Join(ArchiveRoot, position.value);
    var dateFolders := Glob(fs, positionPath, "");
    dateFolders := SortDesc(dateFolders);
    var window := dateFolders[..WindowLen(|dateFolders|, limit)];
    ghost var visits := Visits(fs, currentPath, window);
    var resumeData: seq<Record> := [];
    var k := 0;
    WalkStart(visits, limit);
    while k < |window|
      invariant 0 <= k <= |window|
      invariant Walked(visits, limit, k, resumeData)
    {
      var folder := window[k];
      var pdfFiles := Glob(fs, folder, PdfSuffix);
      if |pdfFiles| == 0 {
        WalkSkip(visits, limit, k, resumeData);
        k := k + 1;
        continue;
      }
      if pdfFiles[0] == currentPath {
        WalkSkip(visits, limit, k, resumeData);
        k := k + 1;
        continue;
      }
      var reviewFile := Join(folder, ReviewFileName);
      if !Exists(fs, reviewFile) {
        WalkSkip(visits, limit, k, resumeData);
        k := k + 1;
        continue;
      }
      var content := ReadText(fs, reviewFile);
      if content.Err? {
        WalkFail(visits, limit, k, resumeData, content.error);
        return Err(content.error);
      }
      var rec := Record(folder, pdfFiles[0], content.value);
      ExamineKeep(fs, currentPath, folder, rec);
      WalkKeep(visits, limit, k, resumeData, rec);
      resumeData := resumeData + [rec];
      if |resumeData| >= limit {
        break;
      }
      k := k + 1;
    }
    if k == |window| {
      WalkEnd(visits, limit, resumeData);
    }
    return Ok(resumeData);
  }

  function Folders(rs: seq<Record>): (fs: seq<Path>)
    ensures |fs| == |rs|
    ensures forall k :: 0 <= k < |rs| ==> fs[k] == rs[k].folder
  {
    seq(|rs|, k requires 0 <= k < |rs| => rs[k].folder)
  }

  /** `xs` is `ys` with some elements left out, order kept. */
  predicate Subsequence(xs: seq<Path>, ys: seq<Path>)
    decreases |ys|
  {
    |xs| == 0 ||
    (|ys| > 0 && ((xs[0] == ys[0] && Subsequence(xs[1..], ys[1..])) || Subsequence(xs, ys[1..])))
  }

  lemma {:induction false} SubsequenceOrdered(xs: seq<Path>, ys: seq<Path>)
    requires Subsequence(xs, ys)
    requires StrictlyDescending(ys)
    ensures StrictlyDescending(xs)
    ensures forall k :: 0 <= k < |xs| ==> xs[k] in ys
    decreases |ys|
  {
    if |xs| > 0 {
      if xs[0] == ys[0] && Subsequence(xs[1..], ys[1..]) {
        SubsequenceOrdered(xs[1..], ys[1..]);
        forall k | 1 <= k < |xs| ensures LexLess(xs[k], xs[0]) && xs[k] in ys {
          assert xs[1..][k - 1] == xs[k];
          var m :| 0 <= m < |ys[1..]| && ys[1..][m] == xs[k];
          assert ys[m + 1] == xs[k];
        }
        forall i, j | 0 <= i < j < |xs| ensures LexLess(xs[j], xs[i]) {
          if i > 0 { assert xs[1..][i - 1] == xs[i] && xs[1..][j - 1] == xs[j]; }
        }
      } else {
        SubsequenceOrdered(xs, ys[1..]);
        forall k | 0 <= k < |xs| ensures xs[k] in ys {
          var m :| 0 <= m < |ys[1..]| && ys[1..][m] == xs[k];
          assert ys[m + 1] == xs[k];
        }
      }
    }
  }

  lemma {:induction false} SubsequenceExtend(xs: seq<Path>, ys: seq<Path>, zs: seq<Path>)
    requires Subsequence(xs, ys)
    ensures Subsequence(xs, ys + zs)
    decreases |ys|
  {
    if |xs| > 0 {
      assert (ys + zs)[0] == ys[0] && (ys + zs)[1..] == ys[1..] + zs;
      if xs[0] == ys[0] && Subsequence(xs[1..], ys[1..]) {
        SubsequenceExtend(xs[1..], ys[1..], zs);
      } else {
        SubsequenceExtend(xs, ys[1..], zs);
      }
    }
  }

  /** The records of every kept visit, in order. */
  function Kept(visits: seq<Visit>): seq<Record>
    decreases |visits|
  {
    if |visits| == 0 then []
    else match visits[0]
      case Keep(rec) => [rec] + Kept(visits[1..])
      case _ => Kept(visits[1..])
  }

  predicate NoFailure(visits: seq<Visit>)
  {
    forall k :: 0 <= k < |visits| ==> !visits[k].Fail?
  }

  /** The loop never collects more than it walks, nor more than the limit
      allows (one, once the limit is below one). */
  lemma {:induction false} CollectLength(visits: seq<Visit>, budget: int)
    requires Collect(visits, budget).Ok?
    ensures var rs := Collect(visits, budget).value;
      |rs| <= |visits| && |rs| <= (if budget >= 1 then budget else 1)
    decreases |visits|
  {
    if |visits| > 0 {
      match visits[0]
      case Skip => CollectLength(visits[1..], budget);
      case Fail(e) =>
      case Keep(rec) =>
        if budget > 1 { CollectLength(visits[1..], budget - 1); }
    }
  }

  /** What the loop collects is a prefix of all the kept records:
      it takes them in order and only ever stops early. */
  lemma {:induction false} CollectPrefix(visits: seq<Visit>, budget: int)
    requires Collect(visits, budget).Ok?
    ensures var rs := Collect(visits, budget).value;
      |rs| <= |Kept(visits)| && rs == Kept(visits)[..|rs|]
    decreases |visits|
  {
    if |visits| > 0 {
      match visits[0]
      case Skip => CollectPrefix(visits[1..], budget);
      case Fail(e) =>
      case Keep(rec) =>
        if budget > 1 {
          CollectPrefix(visits[1..], budget - 1);
          var rest := Collect(visits[1..], budget - 1).value;
          assert ([rec] + Kept(visits[1..]))[..1 + |rest|] == [rec] + Kept(visits[1..])[..|rest|];
        }
    }
  }

  /** With a budget as large as the walk and no unreadable review, the loop
      keeps every qualifying folder it walks: nothing is cut off early. */
  lemma {:induction false} CollectComplete(visits: seq<Visit>, budget: int)
    requires budget >= |visits|
    requires NoFailure(visits)
    ensures Collect(visits, budget) == Ok(Kept(visits))
    decreases |visits|
  {
    if |visits| > 0 {
      assert !visits[0].Fail?;
      assert NoFailure(visits[1..]) by {
        forall k | 0 <= k < |visits[1..]| ensures !visits[1..][k].Fail? { assert visits[1..][k] == visits[k + 1]; }
      }
      match visits[0]
      case Skip => CollectComplete(visits[1..], budget);
      case Keep(rec) =>
        if budget <= 1 {
          assert visits[1..] == [] && Kept(visits[1..]) == [];
          assert Kept(visits) == [rec] + Kept(visits[1..]);
          assert [rec] + Kept(visits[1..]) == [rec];
          assert Collect(visits, budget) == Ok([rec]);
        } else {
          CollectComplete(visits[1..], budget - 1);
        }
    }
  }

  /** A kept visit carries the folder it examined. */
  lemma ExamineFolder(fs: FileSystem, currentPath: Path, folder: Path)
    ensures Examine(fs, currentPath, folder).Keep? ==> Examine(fs, currentPath, folder).record.folder == folder
  {
  }

  /** The kept records of a walk name its folders in walking order, and each is
      what examining its folder keeps. */
  lemma KeptFolders(fs: FileSystem, currentPath: Path, folders: seq<Path>)
    ensures var ks := Kept(Visits(fs, currentPath, folders));
      Subsequence(Folders(ks), folders) &&
      forall k :: 0 <= k < |ks| ==> Examine(fs, currentPath, ks[k].folder) == Keep(ks[k])
  {
    var vs := Visits(fs, currentPath, folders);
    forall k | 0 <= k < |vs| && vs[k].Keep? ensures vs[k].record.folder == folders[k] {
      ExamineFolder(fs, currentPath, folders[k]);
    }
    KeptOrigin(vs, folders);
    var ks := Kept(vs);
    forall k | 0 <= k < |ks| ensures Examine(fs, currentPath, ks[k].folder) == Keep(ks[k]) {
      var m :| 0 <= m < |vs| && vs[m] == Keep(ks[k]);
      assert ks[k].folder == folders[m];
    }
  }

  /** When each kept visit carries the folder at its position, the kept records
      name a subsequence of the folders and each comes from one of the visits. */
  lemma {:induction false} KeptOrigin(vs: seq<Visit>, folders: seq<Path>)
    requires |vs| == |folders|
    requires forall k :: 0 <= k < |vs| && vs[k].Keep? ==> vs[k].record.folder == folders[k]
    ensures var ks := Kept(vs);
      Subsequence(Folders(ks), folders) && forall k :: 0 <= k < |ks| ==> Keep(ks[k]) in vs
    decreases |vs|
  {
    if |vs| > 0 {
      assert forall k :: 0 <= k < |vs[1..]| ==> vs[1..][k] == vs[k + 1] && folders[1..][k] == folders[k + 1];
      KeptOrigin(vs[1..], folders[1..]);
      var ks := Kept(vs);
      var ks' := Kept(vs[1..]);
      forall k | 0 <= k < |ks'| ensures Keep(ks'[k]) in vs {
        var m :| 0 <= m < |vs[1..]| && vs[1..][m] == Keep(ks'[k]);
        assert vs[m + 1] == Keep(ks'[k]);
      }
      match vs[0]
      case Keep(rec) =>
        assert ks == [rec] + ks';
        assert Folders(ks)[0] == folders[0] && Folders(ks)[1..] == Folders(ks');
        forall k | 0 <= k < |ks| ensures Keep(ks[k]) in vs {
          if k > 0 { assert ks[k] == ks'[k - 1]; }
        }
      case Skip =>
      case Fail(e) =>
    }
  }

  lemma {:induction false} SubsequencePrefix(xs: seq<Path>, ys: seq<Path>, n: nat)
    requires n <= |xs| && Subsequence(xs, ys)
    ensures Subsequence(xs[..n], ys)
    decreases |ys|
  {
    if n > 0 {
      assert xs[..n][0] == xs[0] && xs[..n][1..] == xs[1..][..n - 1];
      if xs[0] == ys[0] && Subsequence(xs[1..], ys[1..]) {
        SubsequencePrefix(xs[1..], ys[1..], n - 1);
      } else {
        SubsequencePrefix(xs, ys[1..], n);
      }
    }
  }

  /** The selected records, seen through the kept records of the window. */
  lemma SelectRecentKept(fs: FileSystem, currentPath: Path, limit: int)
    requires SelectRecent(fs, currentPath, limit).Ok?
    ensures PositionOf(currentPath).Ok?
    ensures var rs := SelectRecent(fs, currentPath, limit).value;
      var listing := PositionListing(fs, PositionOf(currentPath).value);
      var window := listing[..WindowLen(|listing|, limit)];
      (limit >= 0 ==> |rs| <= limit) && (limit < 0 ==> |rs| <= 1) &&
      Subsequence(Folders(rs), window) &&
      forall k :: 0 <= k < |rs| ==> Examine(fs, currentPath, rs[k].folder) == Keep(rs[k])
  {
    var listing := PositionListing(fs, PositionOf(currentPath).value);
    var window := listing[..WindowLen(|listing|, limit)];
    var vs := Visits(fs, currentPath, window);
    var rs := SelectRecent(fs, currentPath, limit).value;
    CollectLength(vs, limit);
    CollectPrefix(vs, limit);
    KeptFolders(fs, currentPath, window);
    var ks := Kept(vs);
    assert Folders(ks)[..|rs|] == Folders(rs);
    SubsequencePrefix(Folders(ks), window, |rs|);
    forall k | 0 <= k < |rs| ensures Examine(fs, currentPath, rs[k].folder) == Keep(rs[k]) {
      assert rs[k] == ks[k];
    }
  }

  /** At most `limit` records (at most one for a negative limit), all from the
      first `limit` entries of the newest-first listing. */
  lemma SelectRecentBounded(fs: FileSystem, currentPath: Path, limit: int)
    requires SelectRecent(fs, currentPath, limit).Ok?
    ensures var rs := SelectRecent(fs, currentPath, limit).value;
      (limit >= 0 ==> |rs| <= limit) && (limit < 0 ==> |rs| <= 1)
    ensures PositionOf(currentPath).Ok?
    ensures var rs := SelectRecent(fs, currentPath, limit).value;
      var listing := PositionListing(fs, PositionOf(currentPath).value);
      forall k :: 0 <= k < |rs| ==> rs[k].folder in listing[..WindowLen(|listing|, limit)]
  {
    SelectRecentKept(fs, currentPath, limit);
    var listing := PositionListing(fs, PositionOf(currentPath).value);
    var rs := SelectRecent(fs, currentPath, limit).value;
    SubsequenceMembers(Folders(rs), listing[..WindowLen(|listing|, limit)]);
  }

  lemma {:induction false} SubsequenceMembers(xs: seq<Path>, ys: seq<Path>)
    requires Subsequence(xs, ys)
    ensures forall k :: 0 <= k < |xs| ==> xs[k] in ys
    decreases |ys|
  {
    if |xs| > 0 {
      if xs[0] == ys[0] && Subsequence(xs[1..], ys[1..]) {
        SubsequenceMembers(xs[1..], ys[1..]);
        forall k | 1 <= k < |xs| ensures xs[k] in ys {
          assert xs[1..][k - 1] == xs[k];
          var m :| 0 <= m < |ys[1..]| && ys[1..][m] == xs[k];
          assert ys[m + 1] == xs[k];
        }
      } else {
        SubsequenceMembers(xs, ys[1..]);
        forall k | 0 <= k < |xs| ensures xs[k] in ys {
          var m :| 0 <= m < |ys[1..]| && ys[1..][m] == xs[k];
          assert ys[m + 1] == xs[k];
        }
      }
    }
  }

  /** The position listing has no repeated folder and is strictly newest first. */
  lemma ListingStrict(fs: FileSystem, position: string)
    requires WellFormed(fs)
    ensures StrictlyDescending(PositionListing(fs, position))
  {
    GlobDistinct(fs, PositionPath(position), "");
    SortDescStrict(Glob(fs, PositionPath(position), ""));
  }

  /** Records come in strictly descending folder order, as a subsequence of
      the sorted listing. */
  lemma SelectRecentOrdered(fs: FileSystem, currentPath: Path, limit: int)
    requires WellFormed(fs)
    requires SelectRecent(fs, currentPath, limit).Ok?
    ensures var rs := SelectRecent(fs, currentPath, limit).value;
      StrictlyDescending(Folders(rs)) &&
      Subsequence(Folders(rs), PositionListing(fs, PositionOf(currentPath).value))
  {
    SelectRecentKept(fs, currentPath, limit);
    var position := PositionOf(currentPath).value;
    var listing := PositionListing(fs, position);
    var w := WindowLen(|listing|, limit);
    var window := listing[..w];
    var rs := SelectRecent(fs, currentPath, limit).value;
    ListingStrict(fs, position);
    assert listing == window + listing[w..];
    assert StrictlyDescending(window);
    SubsequenceOrdered(Folders(rs), window);
    SubsequenceExtend(Folders(rs), window, listing[w..]);
  }

  /** Every record's folder is an entry of `database/<position>`, for the
      position read off the current path. */
  lemma SelectRecentLocation(fs: FileSystem, currentPath: Path, limit: int)
    requires SelectRecent(fs, currentPath, limit).Ok?
    ensures PositionOf(currentPath).Ok?
    ensures var rs := SelectRecent(fs, currentPath, limit).value;
      forall k :: 0 <= k < |rs| ==> InPositionDir(fs, PositionOf(currentPath).value, rs[k].folder)
  {
    var position := PositionOf(currentPath).value;
    var listing := PositionListing(fs, position);
    var window := listing[..WindowLen(|listing|, limit)];
    var rs := SelectRecent(fs, currentPath, limit).value;
    SelectRecentBounded(fs, currentPath, limit);
    forall k | 0 <= k < |rs| ensures InPositionDir(fs, position, rs[k].folder) {
      ListingMember(fs, position, window, rs[k].folder);
    }
  }

  /** `p` is `database/<position>/<n>` for an entry `n` the pattern `*` matches. */
  predicate InPositionDir(fs: FileSystem, position: string, p: Path)
  {
    exists n :: n in Entries(fs, PositionPath(position)) && Matches(n, "") && p == Join(PositionPath(position), n)
  }

  /** An entry of (a prefix of) the position listing is a globbed entry of the
      position directory. */
  lemma ListingMember(fs: FileSystem, position: string, window: seq<Path>, p: Path)
    requires window <= PositionListing(fs, position)
    requires p in window
    ensures InPositionDir(fs, position, p)
  {
    var listing := PositionListing(fs, position);
    var m :| 0 <= m < |window| && window[m] == p;
    assert listing[m] == p;
    assert p in multiset(listing);
    assert p in multiset(Glob(fs, PositionPath(position), ""));
    GlobMembers(fs, PositionPath(position), "", p);
  }

  /** Every record has a PDF, names the folder's first PDF, is not the current
      résumé, and carries exactly the stored review text. */
  lemma SelectRecentRecords(fs: FileSystem, currentPath: Path, limit: int)
    requires SelectRecent(fs, currentPath, limit).Ok?
    ensures var rs := SelectRecent(fs, currentPath, limit).value;
      forall k :: 0 <= k < |rs| ==>
        var pdfs := Glob(fs, rs[k].folder, PdfSuffix);
        |pdfs| > 0 && rs[k].pdfPath == pdfs[0] && rs[k].pdfPath != currentPath &&
        ReadText(fs, Join(rs[k].folder, ReviewFileName)) == Ok(rs[k].reviewContent)
  {
    SelectRecentKept(fs, currentPath, limit);
    var rs := SelectRecent(fs, currentPath, limit).value;
    forall k | 0 <= k < |rs|
      ensures var pdfs := Glob(fs, rs[k].folder, PdfSuffix);
        |pdfs| > 0 && rs[k].pdfPath == pdfs[0] && rs[k].pdfPath != currentPath &&
        ReadText(fs, Join(rs[k].folder, ReviewFileName)) == Ok(rs[k].reviewContent)
    {
      ExamineKeep(fs, currentPath, rs[k].folder, rs[k]);
    }
  }

  /** For a non-negative limit the window never holds more than `limit`
      folders, so the break never cuts it short: the result is every
      qualifying folder among the first `limit` entries, in order. Skipped
      folders therefore count against the limit. */
  lemma SelectRecentWindow(fs: FileSystem, currentPath: Path, limit: int)
    requires limit >= 0
    requires PositionOf(currentPath).Ok?
    requires var listing := PositionListing(fs, PositionOf(currentPath).value);
      NoFailure(Visits(fs, currentPath, listing[..WindowLen(|listing|, limit)]))
    ensures var listing := PositionListing(fs, PositionOf(currentPath).value);
      SelectRecent(fs, currentPath, limit) == Ok(Kept(Visits(fs, currentPath, listing[..WindowLen(|listing|, limit)])))
  {
    var listing := PositionListing(fs, PositionOf(currentPath).value);
    CollectComplete(Visits(fs, currentPath, listing[..WindowLen(|listing|, limit)]), limit);
  }
}
