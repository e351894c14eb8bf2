/** Strings as Python treats them: code-point lexical order (`<` on `str`),
    `str.split` and `str.join` on a one-character separator, and the decimal
    rendering of a natural number (`str(n)`). */
module Text {

  /** Python's `a < b` on `str`: the first differing code point decides, and a
      proper prefix is smaller. */
  predicate LexLess(a: string, b: string)
    decreases |a|
  {
    if |a| == 0 then |b| > 0
    else if |b| == 0 then false
    else if a[0] != b[0] then a[0] < b[0]
    else LexLess(a[1..], b[1..])
  }

  lemma {:induction false} LexLessIrreflexive(a: string)
    ensures !LexLess(a, a)
    decreases |a|
  {
    if |a| > 0 { LexLessIrreflexive(a[1..]); }
  }

  lemma {:induction false} LexLessTransitive(a: string, b: string, c: string)
    requires LexLess(a, b) && LexLess(b, c)
    ensures LexLess(a, c)
    decreases |a|
  {
    if |a| > 0 && |b| > 0 && |c| > 0 && a[0] == b[0] && b[0] == c[0] {
      LexLessTransitive(a[1..], b[1..], c[1..]);
    }
  }

  /** Any two different strings are ordered one way or the other, and never both. */
  lemma {:induction false} LexLessTrichotomy(a: string, b: string)
    ensures a == b || LexLess(a, b) || LexLess(b, a)
    ensures !(LexLess(a, b) && LexLess(b, a))
    decreases |a|
  {
    if |a| > 0 && |b| > 0 && a[0] == b[0] {
      LexLessTrichotomy(a[1..], b[1..]);
      if a[1..] == b[1..] {
        assert a == [a[0]] + a[1..] && b == [b[0]] + b[1..];
      }
    }
  }

  /** Comparing two strings that start with pieces of equal length compares
      the pieces first and the rests only when the pieces agree. */
  lemma {:induction false} LexLessConcat(a1: string, b1: string, a2: string, b2: string)
    requires |a1| == |a2|
    ensures LexLess(a1 + b1, a2 + b2) <==> LexLess(a1, a2) || (a1 == a2 && LexLess(b1, b2))
    decreases |a1|
  {
    if |a1| == 0 {
      assert a1 + b1 == b1 && a2 + b2 == b2;
    } else {
      assert (a1 + b1)[0] == a1[0] && (a2 + b2)[0] == a2[0];
      assert (a1 + b1)[1..] == a1[1..] + b1 && (a2 + b2)[1..] == a2[1..] + b2;
      LexLessConcat(a1[1..], b1, a2[1..], b2);
      if a1[0] == a2[0] && a1[1..] == a2[1..] {
        assert a1 == [a1[0]] + a1[1..] && a2 == [a2[0]] + a2[1..];
      }
      if a1 == a2 {
        LexLessIrreflexive(a1);
      }
    }
  }

  /** `s.split(sep)`: the pieces between separators, always at least one. */
  function Split(s: string, sep: char): (parts: seq<string>)
    ensures |parts| >= 1
    ensures forall k :: 0 <= k < |parts| ==> sep !in parts[k]
    decreases |s|
  {
    if |s| == 0 then [[]]
    else if s[0] == sep then [[]] + Split(s[1..], sep)
    else
      var rest := Split(s[1..], sep);
      [[s[0]] + rest[0]] + rest[1..]
  }

  /** `sep.join(parts)`. */
  function JoinSep(parts: seq<string>, sep: char): string
    decreases |parts|
  {
    if |parts| == 0 then []
    else if |parts| == 1 then parts[0]
    else parts[0] + [sep] + JoinSep(parts[1..], sep)
  }

  lemma {:induction false} SplitNoSep(s: string, sep: char)
    requires sep !in s
    ensures Split(s, sep) == [s]
    decreases |s|
  {
    if |s| > 0 {
      assert sep !in s[1..] by {
        forall k | 0 <= k < |s[1..]| ensures s[1..][k] != sep { assert s[1..][k] == s[k + 1]; }
      }
      SplitNoSep(s[1..], sep);
      assert [s[0]] + s[1..] == s;
    }
  }

  /** Splitting at a separator splits the two sides independently. */
  lemma {:induction false} SplitAppend(a: string, b: string, sep: char)
    ensures Split(a + [sep] + b, sep) == Split(a, sep) + Split(b, sep)
    decreases |a|
  {
    if |a| == 0 {
      assert a + [sep] + b == [sep] + b;
      assert ([sep] + b)[1..] == b;
    } else {
      SplitAppend(a[1..], b, sep);
      if a[0] == sep {
        SplitAppendAtSep(a, b, sep);
      } else {
        SplitAppendAtChar(a, b, sep);
      }
    }
  }

  lemma SplitAppendAtSep(a: string, b: string, sep: char)
    requires |a| > 0 && a[0] == sep
    requires Split(a[1..] + [sep] + b, sep) == Split(a[1..], sep) + Split(b, sep)
    ensures Split(a + [sep] + b, sep) == Split(a, sep) + Split(b, sep)
  {
    var t := a[1..];
    assert a == [sep] + t && a + [sep] + b == [sep] + (t + [sep] + b);
    SplitAtSep(t, sep);
    SplitAtSep(t + [sep] + b, sep);
    ConcatAssoc([[]], Split(t, sep), Split(b, sep));
  }

  lemma ConcatAssoc(x: seq<string>, y: seq<string>, z: seq<string>)
    ensures x + (y + z) == (x + y) + z
  {
  }

  /** A leading separator opens an empty first part. */
  lemma SplitAtSep(t: string, sep: char)
    ensures Split([sep] + t, sep) == [[]] + Split(t, sep)
  {
    assert ([sep] + t)[0] == sep && ([sep] + t)[1..] == t;
  }

  lemma SplitAppendAtChar(a: string, b: string, sep: char)
    requires |a| > 0 && a[0] != sep
    requires Split(a[1..] + [sep] + b, sep) == Split(a[1..], sep) + Split(b, sep)
    ensures Split(a + [sep] + b, sep) == Split(a, sep) + Split(b, sep)
  {
    var c, t := a[0], a[1..];
    assert a == [c] + t && a + [sep] + b == [c] + (t + [sep] + b);
    SplitCons(c, t, sep);
    SplitCons(c, t + [sep] + b, sep);
    PrependToHead([c], Split(t, sep), Split(b, sep));
  }

  /** Splitting a string that starts with a non-separator glues that
      character to the first part. */
  lemma SplitCons(c: char, t: string, sep: char)
    requires c != sep
    ensures var r := Split(t, sep);
      Split([c] + t, sep) == [[c] + r[0]] + r[1..]
  {
    assert ([c] + t)[0] == c && ([c] + t)[1..] == t;
  }

  lemma PrependToHead(x: string, r: seq<string>, tail: seq<string>)
    requires |r| > 0
    ensures [x + (r + tail)[0]] + (r + tail)[1..] == ([x + r[0]] + r[1..]) + tail
  {
    assert (r + tail)[0] == r[0];
    assert (r + tail)[1..] == r[1..] + tail;
  }

  /** Round trip one way: splitting a join gives back the parts. */
  lemma {:induction false} SplitJoin(parts: seq<string>, sep: char)
    requires |parts| >= 1
    requires forall k :: 0 <= k < |parts| ==> sep !in parts[k]
    ensures Split(JoinSep(parts, sep), sep) == parts
    decreases |parts|
  {
    if |parts| == 1 {
      SplitNoSep(parts[0], sep);
    } else {
      SplitJoin(parts[1..], sep);
      SplitAppend(parts[0], JoinSep(parts[1..], sep), sep);
      SplitNoSep(parts[0], sep);
      assert [parts[0]] + parts[1..] == parts;
    }
  }

  /** Round trip the other way: joining the pieces of a split restores the string. */
  lemma {:induction false} JoinSplit(s: string, sep: char)
    ensures JoinSep(Split(s, sep), sep) == s
    decreases |s|
  {
    if |s| > 0 {
      var t := s[1..];
      var rest := Split(t, sep);
      JoinSplit(t, sep);
      assert s == [s[0]] + t;
      if s[0] == sep {
        SplitAtSep(t, sep);
        JoinSepCons([], rest, sep);
      } else {
        SplitCons(s[0], t, sep);
        JoinSepGlue([s[0]], rest, sep);
      }
    }
  }

  /** Joining a part in front of non-empty parts puts a separator between. */
  lemma JoinSepCons(p: string, rest: seq<string>, sep: char)
    requires |rest| >= 1
    ensures JoinSep([p] + rest, sep) == p + [sep] + JoinSep(rest, sep)
  {
    assert ([p] + rest)[0] == p && ([p] + rest)[1..] == rest;
  }

  /** Gluing a prefix onto the first part glues it onto the join. */
  lemma JoinSepGlue(x: string, rest: seq<string>, sep: char)
    requires |rest| >= 1
    ensures JoinSep([x + rest[0]] + rest[1..], sep) == x + JoinSep(rest, sep)
  {
    var parts := [x + rest[0]] + rest[1..];
    assert parts[0] == x + rest[0] && parts[1..] == rest[1..];
    if |rest| > 1 {
      assert JoinSep(rest, sep) == rest[0] + [sep] + JoinSep(rest[1..], sep);
    }
  }

  /** Joining one more part at the end. */
  lemma {:induction false} JoinSepSnoc(parts: seq<string>, last: string, sep: char)
    requires |parts| >= 1
    ensures JoinSep(parts + [last], sep) == JoinSep(parts, sep) + [sep] + last
    decreases |parts|
  {
    if |parts| == 1 {
      assert parts + [last] == [parts[0], last];
    } else {
      assert (parts + [last])[1..] == parts[1..] + [last];
      JoinSepSnoc(parts[1..], last, sep);
    }
  }

  predicate IsDigit(c: char) { '0' <= c <= '9' }

  predicate AllDigits(s: string) { forall k :: 0 <= k < |s| ==> IsDigit(s[k]) }

  function DigitChar(d: nat): (c: char)
    requires d < 10
    ensures IsDigit(c) && c as int - '0' as int == d
  {
    (('0' as int) + d) as char
  }

  function Pow10(k: nat): (p: nat)
    ensures p >= 1
  {
    if k == 0 then 1 else 10 * Pow10(k - 1)
  }

  /** The number a string of decimal digits denotes (leading zeros allowed). */
  function Value(s: string): nat
    requires AllDigits(s)
    decreases |s|
  {
    if |s| == 0 then 0
    else Value(s[..|s| - 1]) * 10 + (s[|s| - 1] as int - '0' as int)
  }

  lemma {:induction false} ValueBound(s: string)
    requires AllDigits(s)
    ensures Value(s) < Pow10(|s|)
    decreases |s|
  {
    if |s| > 0 { ValueBound(s[..|s| - 1]); }
  }

  /** The value of a concatenation: the first part shifted by the length of the second. */
  lemma {:induction false} ValueConcat(a: string, b: string)
    requires AllDigits(a) && AllDigits(b)
    ensures AllDigits(a + b)
    ensures Value(a + b) == Value(a) * Pow10(|b|) + Value(b)
    decreases |b|
  {
    assert AllDigits(a + b) by {
      forall k | 0 <= k < |a + b| ensures IsDigit((a + b)[k]) {
        if k < |a| { assert (a + b)[k] == a[k]; } else { assert (a + b)[k] == b[k - |a|]; }
      }
    }
    if |b| == 0 {
      assert a + b == a;
    } else {
      var b' := b[..|b| - 1];
      assert (a + b)[..|a + b| - 1] == a + b';
      ValueConcat(a, b');
      var d := b[|b| - 1] as int - '0' as int;
      assert Value(a + b) == Value(a + b') * 10 + d;
      assert Value(b) == Value(b') * 10 + d;
      Shift(Value(a), Pow10(|b'|), Value(b'), d);
    }
  }

  lemma Shift(x: int, p: int, y: int, d: int)
    ensures (x * p + y) * 10 + d == x * (10 * p) + (y * 10 + d)
  {
    calc {
      (x * p + y) * 10 + d;
      x * p * 10 + y * 10 + d;
      { assert x * p * 10 == x * (10 * p); }
      x * (10 * p) + (y * 10 + d);
    }
  }

  /** On digit strings of one length, lexical order is numeric order. This is
      what makes fixed-width, zero-padded numbers sort chronologically. */
  lemma {:induction false} LexLessDigits(a: string, b: string)
    requires |a| == |b| && AllDigits(a) && AllDigits(b)
    ensures LexLess(a, b) <==> Value(a) < Value(b)
    decreases |a|
  {
    if |a| > 0 {
      var a', b' := a[1..], b[1..];
      HeadValue(a);
      HeadValue(b);
      LexLessDigits(a', b');
      assert [a[0]] + a' == a && [b[0]] + b' == b;
      LexLessConcat([a[0]], a', [b[0]], b');
      var da, db := a[0] as int - '0' as int, b[0] as int - '0' as int;
      var p := Pow10(|a'|);
      LeadingDigit(da, db, Value(a'), Value(b'), p);
      LeadingDigit(db, da, Value(b'), Value(a'), p);
    }
  }

  /** The value of a digit string: its leading digit times the place value, plus the rest. */
  lemma HeadValue(a: string)
    requires |a| > 0 && AllDigits(a)
    ensures AllDigits(a[1..])
    ensures Value(a) == (a[0] as int - '0' as int) * Pow10(|a| - 1) + Value(a[1..])
    ensures Value(a[1..]) < Pow10(|a| - 1)
  {
    var h, t := [a[0]], a[1..];
    TailDigits(a);
    ValueDigit(a[0]);
    ValueConcat(h, t);
    ValueBound(t);
    assert h + t == a;
  }

  lemma TailDigits(a: string)
    requires |a| > 0 && AllDigits(a)
    ensures AllDigits(a[1..]) && IsDigit(a[0])
  {
    forall k | 0 <= k < |a[1..]| ensures IsDigit(a[1..][k]) { assert a[1..][k] == a[k + 1]; }
  }

  /** A single digit denotes its own value. */
  lemma ValueDigit(c: char)
    requires IsDigit(c)
    ensures AllDigits([c]) && Value([c]) == c as int - '0' as int
  {
    assert [c][..0] == [];
  }

  lemma LeadingDigit(da: int, db: int, x: int, y: int, p: int)
    requires 0 <= x < p && 0 <= y < p
    ensures da < db ==> da * p + x < db * p + y
    ensures da == db ==> (da * p + x < db * p + y <==> x < y)
  {
    if da < db {
      MulAtLeast(db - da, p);
      assert db * p == da * p + (db - da) * p;
    }
  }

  lemma {:induction false} MulAtLeast(k: int, p: int)
    requires k >= 1 && p >= 0
    ensures k * p >= p
    decreases k
  {
    if k > 1 {
      MulAtLeast(k - 1, p);
      assert k * p == (k - 1) * p + p;
    }
  }

  /** `str(n)`: decimal digits with no leading zero, denoting `n`. */
  function Decimal(n: nat): (s: string)
    ensures |s| >= 1 && AllDigits(s) && Value(s) == n
    ensures s[0] == '0' ==> s == "0"
    decreases n
  {
    if n < 10 then [DigitChar(n)]
    else
      var s := Decimal(n / 10) + [DigitChar(n % 10)];
      assert s[..|s| - 1] == Decimal(n / 10);
      s
  }
}
