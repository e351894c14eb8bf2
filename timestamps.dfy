/** The archive's folder names: each submission is saved under
    `database/<position>/<YYYYMMDD_HHMMSS>/<file name>`, the middle part being
    the upload time in `strftime("%Y%m%d_%H%M%S")` form. Fixed-width,
    zero-padded fields make lexical order on these names chronological order,
    which is what the newest-first sort of the selector relies on. */
module Timestamps {
  import opened Text
  import opened Paths
  import opened Outcomes
  import opened Selector

  /** A moment of the local clock, as `datetime.now()` gives it. */
  datatype Moment = Moment(year: nat, month: nat, day: nat, hour: nat, minute: nat, second: nat)

  /** Four-digit years and the ranges `datetime` keeps every field in. */
  predicate Valid(m: Moment)
  {
    1000 <= m.year <= 9999 && 1 <= m.month <= 12 && 1 <= m.day <= 31 &&
    m.hour < 24 && m.minute < 60 && m.second < 60
  }

  /** `v` in exactly `w` decimal digits, zero-padded on the left. */
  function Pad(v: nat, w: nat): (s: string)
    requires v < Pow10(w)
    ensures |s| == w && AllDigits(s) && Value(s) == v
    decreases w
  {
    if w == 0 then ""
    else
      var s := Pad(v / 10, w - 1) + [DigitChar(v % 10)];
      assert s[..|s| - 1] == Pad(v / 10, w - 1);
      s
  }

  /** `%Y%m%d`. */
  function DatePart(m: Moment): string
    requires Valid(m)
  {
    Pad(m.year, 4) + Pad(m.month, 2) + Pad(m.day, 2)
  }

  /** `%H%M%S`. */
  function TimePart(m: Moment): string
    requires Valid(m)
  {
    Pad(m.hour, 2) + Pad(m.minute, 2) + Pad(m.second, 2)
  }

  /** `m.strftime("%Y%m%d_%H%M%S")`. */
  function Token(m: Moment): string
    requires Valid(m)
  {
    DatePart(m) + "_" + TimePart(m)
  }

  /** `m1` is strictly earlier than `m2`. */
  predicate Before(m1: Moment, m2: Moment)
  {
    m1.year < m2.year || (m1.year == m2.year &&
    (m1.month < m2.month || (m1.month == m2.month &&
    (m1.day < m2.day || (m1.day == m2.day &&
    (m1.hour < m2.hour || (m1.hour == m2.hour &&
    (m1.minute < m2.minute || (m1.minute == m2.minute && m1.second < m2.second)))))))))
  }

  /** Lexicographic order on triples. */
  predicate TripleLess(a1: nat, b1: nat, c1: nat, a2: nat, b2: nat, c2: nat)
  {
    a1 < a2 || (a1 == a2 && (b1 < b2 || (b1 == b2 && c1 < c2)))
  }

  /** Numeric comparison of `x * p + y` against `x' * p + y'` with `y, y' < p`. */
  lemma Positional(x1: nat, y1: nat, x2: nat, y2: nat, p: nat)
    requires y1 < p && y2 < p
    ensures x1 * p + y1 < x2 * p + y2 <==> x1 < x2 || (x1 == x2 && y1 < y2)
    ensures x1 * p + y1 == x2 * p + y2 <==> x1 == x2 && y1 == y2
  {
    LeadingDigit(x1, x2, y1, y2, p);
    LeadingDigit(x2, x1, y2, y1, p);
  }

  /** Three zero-padded fields of fixed widths compare, lexically, as the
      triple of their values; and only equal triples give equal strings. */
  lemma PaddedTriple(a1: nat, b1: nat, c1: nat, a2: nat, b2: nat, c2: nat, w: nat)
    requires a1 < Pow10(w) && a2 < Pow10(w) && b1 < 100 && b2 < 100 && c1 < 100 && c2 < 100
    ensures var s1 := Pad(a1, w) + Pad(b1, 2) + Pad(c1, 2);
      var s2 := Pad(a2, w) + Pad(b2, 2) + Pad(c2, 2);
      (LexLess(s1, s2) <==> TripleLess(a1, b1, c1, a2, b2, c2)) &&
      (s1 == s2 <==> a1 == a2 && b1 == b2 && c1 == c2)
  {
    assert Pow10(2) == 100 by { assert Pow10(1) == 10; }
    var s1 := Pad(a1, w) + Pad(b1, 2) + Pad(c1, 2);
    var s2 := Pad(a2, w) + Pad(b2, 2) + Pad(c2, 2);
    ValueConcat(Pad(a1, w), Pad(b1, 2));
    ValueConcat(Pad(a1, w) + Pad(b1, 2), Pad(c1, 2));
    ValueConcat(Pad(a2, w), Pad(b2, 2));
    ValueConcat(Pad(a2, w) + Pad(b2, 2), Pad(c2, 2));
    assert Value(s1) == (a1 * 100 + b1) * 100 + c1;
    assert Value(s2) == (a2 * 100 + b2) * 100 + c2;
    Positional(a1, b1, a2, b2, 100);
    Positional(a1 * 100 + b1, c1, a2 * 100 + b2, c2, 100);
    LexLessDigits(s1, s2);
  }

  /** Lexical order on upload tokens is chronological order. */
  lemma TokenOrder(m1: Moment, m2: Moment)
    requires Valid(m1) && Valid(m2)
    ensures LexLess(Token(m1), Token(m2)) <==> Before(m1, m2)
  {
    var d1, d2 := DatePart(m1), DatePart(m2);
    var t1, t2 := TimePart(m1), TimePart(m2);
    TokenShape(m1);
    TokenShape(m2);
    LexLessConcat(d1, "_" + t1, d2, "_" + t2);
    UnderscoreLess(t1, t2);
    DateTimeOrder(m1, m2);
    BeforeTriples(m1, m2);
  }

  /** A token is its date part, an underscore and its time part, the date part eight characters long. */
  lemma TokenShape(m: Moment)
    requires Valid(m)
    ensures Token(m) == DatePart(m) + ("_" + TimePart(m)) && |DatePart(m)| == 8
  {
  }

  /** Behind a common underscore, the time parts decide. */
  lemma UnderscoreLess(t1: string, t2: string)
    ensures LexLess("_" + t1, "_" + t2) <==> LexLess(t1, t2)
  {
    LexLessConcat("_", t1, "_", t2);
    LexLessIrreflexive("_");
  }

  /** Date and time parts compare as their triples of fields. */
  lemma DateTimeOrder(m1: Moment, m2: Moment)
    requires Valid(m1) && Valid(m2)
    ensures LexLess(DatePart(m1), DatePart(m2)) <==> TripleLess(m1.year, m1.month, m1.day, m2.year, m2.month, m2.day)
    ensures DatePart(m1) == DatePart(m2) <==> m1.year == m2.year && m1.month == m2.month && m1.day == m2.day
    ensures LexLess(TimePart(m1), TimePart(m2)) <==> TripleLess(m1.hour, m1.minute, m1.second, m2.hour, m2.minute, m2.second)
  {
    assert Pow10(4) == 10000 by { assert Pow10(2) == 100 by { assert Pow10(1) == 10; } }
    PaddedTriple(m1.year, m1.month, m1.day, m2.year, m2.month, m2.day, 4);
    PaddedTriple(m1.hour, m1.minute, m1.second, m2.hour, m2.minute, m2.second, 2);
  }

  /** Chronological order is the date triple's order, then the time triple's. */
  lemma BeforeTriples(m1: Moment, m2: Moment)
    ensures Before(m1, m2) <==>
      TripleLess(m1.year, m1.month, m1.day, m2.year, m2.month, m2.day) ||
      (m1.year == m2.year && m1.month == m2.month && m1.day == m2.day &&
       TripleLess(m1.hour, m1.minute, m1.second, m2.hour, m2.minute, m2.second))
  {
  }

  /** Different moments (to the second) give different tokens. */
  lemma TokenInjective(m1: Moment, m2: Moment)
    requires Valid(m1) && Valid(m2)
    requires Token(m1) == Token(m2)
    ensures m1 == m2
  {
    TokenOrder(m1, m2);
    TokenOrder(m2, m1);
    LexLessIrreflexive(Token(m1));
  }

  /** A token is a plain path component. */
  lemma TokenPlain(m: Moment)
    requires Valid(m)
    ensures PlainName(Token(m)) && Token(m)[|Token(m)| - 1] != Sep
  {
    var t := Token(m);
    assert |t| == 15;
    assert forall k :: 0 <= k < |t| ==> t[k] != Sep by {
      forall k | 0 <= k < |t| ensures t[k] != Sep {
        if k < 8 {
          assert t[k] == DatePart(m)[k];
        } else if k > 8 {
          assert t[k] == TimePart(m)[k - 9];
        }
      }
    }
    assert t[0] != '.';
  }

  /** `os.path.join(dir, n)` for a name `n` that is not absolute. */
  lemma JoinRelative(d: Path, n: string)
    requires |d| > 0 && d[|d| - 1] != Sep && |n| > 0 && n[0] != Sep
    ensures Join(d, n) == d + [Sep] + n
  {
  }

  /** `save_folder` of app.py for a position and an upload time. */
  function SaveFolder(position: string, m: Moment): Path
    requires Valid(m)
  {
    Join(Join(ArchiveRoot, position), Token(m))
  }

  /** Within one position, folders order as their upload times: the
      newest-first sort of the selector lists the latest submission first. */
  lemma SaveFolderOrder(position: string, m1: Moment, m2: Moment)
    requires PlainName(position)
    requires Valid(m1) && Valid(m2)
    ensures LexLess(SaveFolder(position, m1), SaveFolder(position, m2)) <==> Before(m1, m2)
  {
    var dir := Join(ArchiveRoot, position);
    JoinRelative(ArchiveRoot, position);
    TokenPlain(m1);
    TokenPlain(m2);
    JoinRelative(dir, Token(m1));
    JoinRelative(dir, Token(m2));
    var pre := dir + [Sep];
    assert SaveFolder(position, m1) == pre + Token(m1) && SaveFolder(position, m2) == pre + Token(m2);
    LexLessConcat(pre, Token(m1), pre, Token(m2));
    LexLessIrreflexive(pre);
    TokenOrder(m1, m2);
  }

  /** Four separator-free parts joined by separators split back into themselves. */
  lemma SplitFour(a: string, b: string, c: string, d: string)
    requires Sep !in a && Sep !in b && Sep !in c && Sep !in d
    ensures Split(a + [Sep] + (b + [Sep] + (c + [Sep] + d)), Sep) == [a, b, c, d]
  {
    SplitAppend(a, b + [Sep] + (c + [Sep] + d), Sep);
    SplitAppend(b, c + [Sep] + d, Sep);
    SplitAppend(c, d, Sep);
    SplitNoSep(a, Sep);
    SplitNoSep(b, Sep);
    SplitNoSep(c, Sep);
    SplitNoSep(d, Sep);
  }

  lemma LayoutSplit(position: string, t: string, name: string)
    requires PlainName(position) && PlainName(t) && PlainName(name)
    ensures Split(Join(Join(Join(ArchiveRoot, position), t), name), Sep) == [ArchiveRoot, position, t, name]
  {
    var dir := Join(ArchiveRoot, position);
    var folder := Join(dir, t);
    assert position[|position| - 1] in position && t[|t| - 1] in t;
    JoinRelative(ArchiveRoot, position);
    JoinRelative(dir, t);
    JoinRelative(folder, name);
    assert Join(folder, name) == ArchiveRoot + [Sep] + (position + [Sep] + (t + [Sep] + name));
    SplitFour(ArchiveRoot, position, t, name);
  }

  /** `database/<position>/<t>/<name>` names `position` for the selector and
      has `database/<position>/<t>` as its directory. */
  lemma FourPartLayout(position: string, t: string, name: string)
    requires PlainName(position) && PlainName(t) && PlainName(name)
    ensures var folder := Join(Join(ArchiveRoot, position), t);
      PositionOf(Join(folder, name)) == Ok(position) && Dirname(Join(folder, name)) == folder
  {
    var folder := Join(Join(ArchiveRoot, position), t);
    LayoutSplit(position, t, name);
    PositionOfSpec(Join(folder, name), 0);
    assert t[|t| - 1] in t;
    DirnameJoin(folder, name);
  }

  /** The path app.py saves a submission under names its position for the
      selector, and its directory is the submission's folder. */
  lemma SavedPathLayout(position: string, m: Moment, name: string)
    requires PlainName(position) && PlainName(name)
    requires Valid(m)
    ensures PositionOf(Join(SaveFolder(position, m), name)) == Ok(position)
    ensures Dirname(Join(SaveFolder(position, m), name)) == SaveFolder(position, m)
  {
    TokenPlain(m);
    FourPartLayout(position, Token(m), name);
  }
}
