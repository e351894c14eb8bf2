/** `compare_recent_5_resumes`: read the current submission's stored review,
    select the recent submissions of the same position, and ask the service to
    rank the current one against the others. Every exception inside becomes a
    result text behind a fixed prefix. */
module Comparator {
  import opened Text
  import opened Paths
  import opened Outcomes
  import opened Archive
  import opened Sorting
  import opened Selector
  import opened Llm

  const CompareErrorPrefix: string := "이력서 비교 중 오류가 발생했습니다: "
  const ReviewNotFound: string := "현재 이력서의 리뷰 결과를 찾을 수 없습니다."
  const NotEnough: string := "비교할 이력서가 충분하지 않습니다. 최소 2개 이상의 이력서가 필요합니다."
  const CompareSystem: string := "당신은 액트노바라는 소규모 스타트업 채용 담당자입니다. 여러 이력서를 비교 분석하고 상대적인 평가를 제공합니다."

  /** The prompt opens with this text, the current review, then `HeaderTail`. */
  const HeaderHead: string := "\n다음은 최근에 검토된 이력서들의 리뷰 결과입니다. 이 이력서들을 정량적으로 비교 분석하고, 현재 이력서의 순위를 제시해주세요.\n\n현재 이력서:\n"
  const HeaderTail: string := "\n\n다른 이력서 리뷰들:\n"

  /** The four questions that close the prompt. */
  const Questions: string := "\n위 이력서들을 비교 분석하여 다음 사항에 대해 답변해주세요:\n1. 현재 이력서의 다른 이력서들 대비 상대적 순위 (상위 몇 %)\n2. 현재 이력서의 다른 이력서들과 비교했을 때 두드러진 강점\n3. 현재 이력서의 다른 이력서들과 비교했을 때 개선이 필요한 부분\n4. 최종적으로 이 지원자를 채용해야 할지에 대한 추천 (다른 이력서들과 비교하여)\n"

  function Header(currentReview: string): string
  {
    HeaderHead + currentReview + HeaderTail
  }

  /** A peer review as it appears in the prompt, under `이력서 <label>`. */
  datatype Peer = Peer(number: nat, review: string)

  function Block(p: Peer): string
  {
    "\n이력서 " + Decimal(p.number) + " 리뷰:\n" + p.review + "\n"
  }

  /** A record is left out of the prompt when its folder normalises to the current folder. */
  predicate Excluded(rec: Record, currentFolder: Path)
  {
    Normpath(rec.folder) == Normpath(currentFolder)
  }

  /** Which records are left out, position by position. */
  function Mask(recs: seq<Record>, currentFolder: Path): (m: seq<bool>)
    ensures |m| == |recs|
  {
    seq(|recs|, i requires 0 <= i < |recs| => Excluded(recs[i], currentFolder))
  }

  /** The peers the loop has added after walking `recs[..n]`: each record not
      masked out, labelled with its index plus one. */
  function Peers(recs: seq<Record>, mask: seq<bool>, n: nat): (ps: seq<Peer>)
    requires n <= |recs| && n <= |mask|
    ensures |ps| <= n
  {
    if n == 0 then []
    else if mask[n - 1] then Peers(recs, mask, n - 1)
    else Peers(recs, mask, n - 1) + [Peer(n, recs[n - 1].reviewContent)]
  }

  function RenderPeers(ps: seq<Peer>): string
  {
    if |ps| == 0 then "" else RenderPeers(ps[..|ps| - 1]) + Block(ps[|ps| - 1])
  }

  function ComparisonPrompt(currentReview: string, recs: seq<Record>, currentFolder: Path): string
  {
    Header(currentReview) + RenderPeers(Peers(recs, Mask(recs, currentFolder), |recs|)) + Questions
  }

  /** Adding one peer appends its block to the text so far. */
  lemma RenderPeersSnoc(head: string, ps: seq<Peer>, p: Peer)
    ensures head + RenderPeers(ps + [p]) == head + RenderPeers(ps) + Block(p)
  {
    assert (ps + [p])[..|ps|] == ps;
  }

  lemma MaskAt(recs: seq<Record>, currentFolder: Path, i: nat)
    requires i < |recs|
    ensures Mask(recs, currentFolder)[i] == Excluded(recs[i], currentFolder)
  {
  }

  lemma SkipPeer(recs: seq<Record>, mask: seq<bool>, i: nat)
    requires i < |recs| && i < |mask| && mask[i]
    ensures Peers(recs, mask, i + 1) == Peers(recs, mask, i)
  {
  }

  lemma AddPeer(head: string, recs: seq<Record>, mask: seq<bool>, i: nat)
    requires i < |recs| && i < |mask| && !mask[i]
    ensures head + RenderPeers(Peers(recs, mask, i + 1)) ==
      head + RenderPeers(Peers(recs, mask, i)) + Block(Peer(i + 1, recs[i].reviewContent))
  {
    RenderPeersSnoc(head, Peers(recs, mask, i), Peer(i + 1, recs[i].reviewContent));
  }

  /** The `for i, resume in enumerate(recent_resumes)` loop: one block per
      record whose folder does not normalise to the current folder, appended
      to the prompt so far. */
  method AppendPeers(prompt0: string, recs: seq<Record>, currentFolder: Path) returns (prompt: string)
    ensures prompt == prompt0 + RenderPeers(Peers(recs, Mask(recs, currentFolder), |recs|))
  {
    prompt := prompt0;
    var i := 0;
    while i < |recs|
      invariant 0 <= i <= |recs|
      invariant prompt == prompt0 + RenderPeers(Peers(recs, Mask(recs, currentFolder), i))
    {
      prompt := AppendPeer(prompt0, prompt, recs, currentFolder, i);
      i := i + 1;
    }
  }

  /** One turn of that loop: record `i` is skipped or adds its block. */
  method AppendPeer(prompt0: string, prompt: string, recs: seq<Record>, currentFolder: Path, i: nat)
    returns (next: string)
    requires i < |recs|
    requires prompt == prompt0 + RenderPeers(Peers(recs, Mask(recs, currentFolder), i))
    ensures next == prompt0 + RenderPeers(Peers(recs, Mask(recs, currentFolder), i + 1))
  {
    ghost var mask := Mask(recs, currentFolder);
    MaskAt(recs, currentFolder, i);
    if Excluded(recs[i], currentFolder) {
      SkipPeer(recs, mask, i);
      next := prompt;
    } else {
      AddPeer(prompt0, recs, mask, i);
      next := prompt + Block(Peer(i + 1, recs[i].reviewContent));
    }
  }

  method CompareRecentResumes(fs: FileSystem, filePath: Path, model: string, llm: Request -> Reply)
    returns (result: string, call: Option<Request>)
    ensures var reviewPath := Join(Dirname(filePath), ReviewFileName);
      !Exists(fs, reviewPath) ==> result == ReviewNotFound && call == None
    ensures var reviewPath := Join(Dirname(filePath), ReviewFileName);
      Exists(fs, reviewPath) && ReadText(fs, reviewPath).Err? ==>
        result == CompareErrorPrefix + Str(ReadText(fs, reviewPath).error) && call == None
    ensures var reviewPath := Join(Dirname(filePath), ReviewFileName);
      ReadText(fs, reviewPath).Ok? && SelectRecent(fs, filePath, DefaultLimit).Err? ==>
        result == CompareErrorPrefix + Str(SelectRecent(fs, filePath, DefaultLimit).error) && call == None
    ensures var reviewPath := Join(Dirname(filePath), ReviewFileName);
      ReadText(fs, reviewPath).Ok? && SelectRecent(fs, filePath, DefaultLimit).Ok? &&
      |SelectRecent(fs, filePath, DefaultLimit).value| < 2 ==>
        result == NotEnough && call == None
    ensures var reviewPath := Join(Dirname(filePath), ReviewFileName);
      ReadText(fs, reviewPath).Ok? && SelectRecent(fs, filePath, DefaultLimit).Ok? &&
      |SelectRecent(fs, filePath, DefaultLimit).value| >= 2 ==>
        var q := Request(model, CompareSystem,
          ComparisonPrompt(ReadText(fs, reviewPath).value, SelectRecent(fs, filePath, DefaultLimit).value, Dirname(filePath)));
        call == Some(q) && result == Render(llm(q), CompareErrorPrefix)
  {
    var currentFolder := Dirname(filePath);
    var currentReviewPath := Join(currentFolder, ReviewFileName);
    if !Exists(fs, currentReviewPath) {
      return ReviewNotFound, None;
    }
    var currentReview := ReadText(fs, currentReviewPath);
    if currentReview.Err? {
      return CompareErrorPrefix + Str(currentReview.error), None;
    }
    var recentResumes := GetRecentResumes(fs, filePath, DefaultLimit);
    if recentResumes.Err? {
      return CompareErrorPrefix + Str(recentResumes.error), None;
    }
    var recs := recentResumes.value;
    if |recs| < 2 {
      return NotEnough, None;
    }
    var prompt := Header(currentReview.value);
    prompt := AppendPeers(prompt, recs, currentFolder);
    prompt := prompt + Questions;
    var request := Request(model, CompareSystem, prompt);
    return Render(llm(request), CompareErrorPrefix), Some(request);
  }

  /** Walking one more record keeps the peers so far and adds at most that record. */
  lemma PeersPrefix(recs: seq<Record>, mask: seq<bool>, n: nat)
    requires 0 < n <= |recs| && n <= |mask|
    ensures var ps := Peers(recs, mask, n);
      var ps' := Peers(recs, mask, n - 1);
      (mask[n - 1] ==> ps == ps') &&
      (!mask[n - 1] ==>
        |ps| == |ps'| + 1 && ps[|ps'|] == Peer(n, recs[n - 1].reviewContent) &&
        forall k :: 0 <= k < |ps'| ==> ps[k] == ps'[k])
  {
  }

  /** Every peer in the prompt is a record not masked out, numbered with its
      index in the record list plus one and carrying that record's review. */
  lemma {:induction false} PeersSound(recs: seq<Record>, mask: seq<bool>, n: nat)
    requires n <= |recs| && n <= |mask|
    ensures var ps := Peers(recs, mask, n);
      forall k :: 0 <= k < |ps| ==>
        1 <= ps[k].number <= n && !mask[ps[k].number - 1] &&
        ps[k].review == recs[ps[k].number - 1].reviewContent
  {
    if n > 0 {
      PeersSound(recs, mask, n - 1);
      PeersPrefix(recs, mask, n);
    }
  }

  /** Peers appear in record order: their numbers strictly increase (and skip
      the masked records). */
  lemma {:induction false} PeersOrdered(recs: seq<Record>, mask: seq<bool>, n: nat)
    requires n <= |recs| && n <= |mask|
    ensures var ps := Peers(recs, mask, n);
      forall k, l :: 0 <= k < l < |ps| ==> ps[k].number < ps[l].number
  {
    if n > 0 {
      PeersOrdered(recs, mask, n - 1);
      PeersSound(recs, mask, n - 1);
      PeersPrefix(recs, mask, n);
    }
  }

  /** Every record not masked out appears in the prompt. */
  lemma {:induction false} PeersComplete(recs: seq<Record>, mask: seq<bool>, n: nat)
    requires n <= |recs| && n <= |mask|
    ensures var ps := Peers(recs, mask, n);
      forall i :: 0 <= i < n && !mask[i] ==> exists k :: 0 <= k < |ps| && ps[k].number == i + 1
  {
    if n > 0 {
      PeersComplete(recs, mask, n - 1);
      PeersPrefix(recs, mask, n);
      var ps' := Peers(recs, mask, n - 1);
      if !mask[n - 1] {
        var ps := ps' + [Peer(n, recs[n - 1].reviewContent)];
        assert ps[|ps'|].number == n;
        forall i | 0 <= i < n && !mask[i]
          ensures exists k :: 0 <= k < |ps| && ps[k].number == i + 1
        {
          if i < n - 1 {
            var k :| 0 <= k < |ps'| && ps'[k].number == i + 1;
            assert ps[k] == ps'[k];
          }
        }
      }
    }
  }

  /** When at most one record is masked, at most one is missing from the prompt. */
  lemma {:induction false} PeersCount(recs: seq<Record>, mask: seq<bool>, n: nat)
    requires n <= |recs| && n <= |mask|
    requires forall i, j :: 0 <= i < j < |mask| ==> !(mask[i] && mask[j])
    ensures |Peers(recs, mask, n)| + 1 >= n
    ensures (forall i :: 0 <= i < n ==> !mask[i]) ==> |Peers(recs, mask, n)| == n
  {
    if n > 0 {
      PeersCount(recs, mask, n - 1);
      if mask[n - 1] {
        assert forall i :: 0 <= i < n - 1 ==> !mask[i];
      }
    }
  }

  /** Two selected records never share a normalised folder: their folders are
      distinct entries of one directory. */
  lemma SelectedFoldersApart(fs: FileSystem, currentPath: Path, limit: int, i: nat, j: nat)
    requires WellFormed(fs)
    requires SelectRecent(fs, currentPath, limit).Ok?
    requires i < j < |SelectRecent(fs, currentPath, limit).value|
    ensures var rs := SelectRecent(fs, currentPath, limit).value;
      Normpath(rs[i].folder) != Normpath(rs[j].folder)
  {
    var rs := SelectRecent(fs, currentPath, limit).value;
    var position := PositionOf(currentPath).value;
    var dir := PositionPath(position);
    SelectRecentLocation(fs, currentPath, limit);
    SelectRecentOrdered(fs, currentPath, limit);
    assert InPositionDir(fs, position, rs[i].folder) && InPositionDir(fs, position, rs[j].folder);
    var ni :| ni in Entries(fs, dir) && Matches(ni, "") && rs[i].folder == Join(dir, ni);
    var nj :| nj in Entries(fs, dir) && Matches(nj, "") && rs[j].folder == Join(dir, nj);
    EntriesOk(fs, dir);
    assert PlainName(ni) && PlainName(nj);
    assert Folders(rs)[i] == rs[i].folder && Folders(rs)[j] == rs[j].folder;
    assert LexLess(rs[j].folder, rs[i].folder);
    LexLessIrreflexive(rs[i].folder);
    if Normpath(rs[i].folder) == Normpath(rs[j].folder) {
      NormpathJoinInjective(dir, ni, nj);
    }
  }

  /** On a well-formed archive, whenever the comparator reaches the service the
      prompt holds at least one peer review, and at most one selected record
      is left out of it. */
  lemma ComparisonHasPeer(fs: FileSystem, filePath: Path)
    requires WellFormed(fs)
    requires SelectRecent(fs, filePath, DefaultLimit).Ok?
    requires |SelectRecent(fs, filePath, DefaultLimit).value| >= 2
    ensures var recs := SelectRecent(fs, filePath, DefaultLimit).value;
      var ps := Peers(recs, Mask(recs, Dirname(filePath)), |recs|);
      |ps| >= 1 && |ps| + 1 >= |recs|
  {
    var recs := SelectRecent(fs, filePath, DefaultLimit).value;
    var mask := Mask(recs, Dirname(filePath));
    forall i, j | 0 <= i < j < |mask| ensures !(mask[i] && mask[j]) {
      SelectedFoldersApart(fs, filePath, DefaultLimit, i, j);
    }
    PeersCount(recs, mask, |recs|);
  }
}
