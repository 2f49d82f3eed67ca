/** String helpers shared by the JavaScript analyzer and the Python lemmatizer:
    joining, splitting on a separator string, substring search and lower-casing. */
module Strings {

  /** Concatenates `parts`, putting `sep` between consecutive parts
      (JavaScript `Array.prototype.join`, Python `str.join`). */
  function Join(parts: seq<string>, sep: string): string
  {
    if |parts| == 0 then ""
    else if |parts| == 1 then parts[0]
    else parts[0] + sep + Join(parts[1..], sep)
  }

  /** Splits `s` at every leftmost, non-overlapping occurrence of the non-empty
      `sep` (JavaScript `String.prototype.split` and Python `str.split` with a
      string argument). There is always at least one piece. */
  function SplitOn(s: string, sep: string): (r: seq<string>)
    requires |sep| > 0
    ensures |r| >= 1
  {
    SplitFrom(s, sep, "")
  }

  /** Scanner behind SplitOn: `cur` is the piece collected so far. */
  function SplitFrom(s: string, sep: string, cur: string): (r: seq<string>)
    requires |sep| > 0
    ensures |r| >= 1
    decreases |s|
  {
    if |s| == 0 then [cur]
    else if sep <= s then [cur] + SplitFrom(s[|sep|..], sep, "")
    else SplitFrom(s[1..], sep, cur + [s[0]])
  }

  /** True iff `p` occurs in `s` as a contiguous substring (`String.prototype.includes`);
      the empty string occurs in every string. */
  function Contains(s: string, p: string): bool
    decreases |s|
  {
    p <= s || (|s| > 0 && Contains(s[1..], p))
  }

  /** No occurrence of `sep` starts at any of the first `n` positions of `s`. */
  ghost predicate NoMatchBefore(s: string, sep: string, n: nat)
  {
    n <= |s| && forall q :: 0 <= q < n ==> !(sep <= s[q..])
  }

  /** Lower-casing of one character: only ASCII A..Z and the Russian capitals А..Я and Ё.
      Every other character, the other Cyrillic capitals included, is left unchanged. */
  function LowerChar(c: char): char
  {
    if 'A' <= c <= 'Z' then (c as int + 32) as char
    else if 0x410 <= c as int <= 0x42F then (c as int + 32) as char
    else if c as int == 0x401 then 0x451 as char
    else c
  }

  /** `String.prototype.toLowerCase`, restricted to the characters LowerChar knows. */
  function ToLower(s: string): (r: string)
    ensures |r| == |s|
  {
    seq(|s|, i requires 0 <= i < |s| => LowerChar(s[i]))
  }

  /** Lower-casing is idempotent: a lower-cased string has no upper-case letter left. */
  lemma ToLowerIdempotent(s: string)
    ensures ToLower(ToLower(s)) == ToLower(s)
  {
  }

  // ---------------------------------------------------------------------------
  // Split and Join are inverse to each other

  lemma {:induction false} JoinSplitFrom(s: string, sep: string, cur: string)
    requires |sep| > 0
    ensures Join(SplitFrom(s, sep, cur), sep) == cur + s
    decreases |s|
  {
    if |s| == 0 {
    } else if sep <= s {
      var rest := SplitFrom(s[|sep|..], sep, "");
      JoinSplitFrom(s[|sep|..], sep, "");
      assert ([cur] + rest)[1..] == rest;
      assert s == sep + s[|sep|..];
    } else {
      JoinSplitFrom(s[1..], sep, cur + [s[0]]);
      assert cur + [s[0]] + s[1..] == cur + s;
    }
  }

  /** Joining the pieces of a split with the same separator gives back the string. */
  lemma JoinSplit(s: string, sep: string)
    requires |sep| > 0
    ensures Join(SplitOn(s, sep), sep) == s
  {
    JoinSplitFrom(s, sep, "");
  }

  /** Appending one part to a non-empty list of parts. */
  lemma {:induction false} JoinSnoc(parts: seq<string>, x: string, sep: string)
    requires |parts| > 0
    ensures Join(parts + [x], sep) == Join(parts, sep) + sep + x
    decreases |parts|
  {
    if |parts| == 1 {
      assert parts + [x] == [parts[0], x];
      assert [parts[0], x][1..] == [x];
    } else {
      JoinSnoc(parts[1..], x, sep);
      assert (parts + [x])[1..] == parts[1..] + [x];
    }
  }

  /** Extending the last part extends the joined string by the same suffix. */
  lemma {:induction false} JoinExtendLast(parts: seq<string>, t: string, sep: string)
    requires |parts| > 0
    ensures Join(parts[..|parts| - 1] + [parts[|parts| - 1] + t], sep) == Join(parts, sep) + t
    decreases |parts|
  {
    var n := |parts|;
    if n == 1 {
      assert parts[..0] + [parts[0] + t] == [parts[0] + t];
    } else {
      var tail := parts[1..];
      JoinExtendLast(tail, t, sep);
      var ext := parts[..n - 1] + [parts[n - 1] + t];
      assert ext[0] == parts[0];
      assert ext[1..] == tail[..|tail| - 1] + [tail[|tail| - 1] + t];
    }
  }

  /** Without a match in the first `n` positions, the scanner just moves those
      characters into the current piece. */
  lemma {:induction false} SplitSkip(s: string, sep: string, cur: string, n: nat)
    requires |sep| > 0
    requires NoMatchBefore(s, sep, n)
    ensures SplitFrom(s, sep, cur) == SplitFrom(s[n..], sep, cur + s[..n])
    decreases n
  {
    if n == 0 {
      assert s[0..] == s;
      assert cur + s[..0] == cur;
    } else {
      assert !(sep <= s[0..]);
      assert s[0..] == s;
      var t := s[1..];
      forall q | 0 <= q < n - 1
        ensures !(sep <= t[q..])
      {
        assert t[q..] == s[q + 1..];
      }
      SplitSkip(t, sep, cur + [s[0]], n - 1);
      assert t[n - 1..] == s[n..];
      assert cur + [s[0]] + t[..n - 1] == cur + s[..n];
    }
  }

  /** A match test at position q < n of `x` is unaffected by appending `y`
      when the separator fits inside `x` from q on. */
  lemma NoMatchBeforeAppend(x: string, y: string, sep: string, n: nat)
    requires NoMatchBefore(x, sep, n)
    requires n + |sep| <= |x|
    ensures NoMatchBefore(x + y, sep, n)
  {
    forall q | 0 <= q < n
      ensures !(sep <= (x + y)[q..])
    {
      assert (x + y)[q..][..|sep|] == x[q..][..|sep|];
    }
  }

  /** Splitting a join gives back the parts, provided no occurrence of the separator
      starts inside a part: for every part but the last, none before the separator
      that follows it; for the last part, none at all. */
  lemma {:induction false} SplitJoin(ps: seq<string>, sep: string)
    requires |sep| > 0 && |ps| > 0
    requires forall i :: 0 <= i < |ps| - 1 ==> NoMatchBefore(ps[i] + sep, sep, |ps[i]|)
    requires NoMatchBefore(ps[|ps| - 1], sep, |ps[|ps| - 1]|)
    ensures SplitOn(Join(ps, sep), sep) == ps
    decreases |ps|
  {
    var p := ps[0];
    if |ps| == 1 {
      SplitSkip(p, sep, "", |p|);
      assert p[|p|..] == "";
      assert "" + p[..|p|] == p;
    } else {
      var tail := ps[1..];
      assert Join(ps, sep) == p + sep + Join(tail, sep);
      SplitPeel(p, sep, Join(tail, sep));
      forall i | 0 <= i < |tail| - 1
        ensures NoMatchBefore(tail[i] + sep, sep, |tail[i]|)
      {
        assert tail[i] == ps[i + 1];
      }
      SplitJoin(tail, sep);
      assert [p] + tail == ps;
    }
  }

  /** A first piece followed by the separator splits off as one part. */
  lemma SplitPeel(p: string, sep: string, rest: string)
    requires |sep| > 0 && NoMatchBefore(p + sep, sep, |p|)
    ensures SplitOn(p + sep + rest, sep) == [p] + SplitOn(rest, sep)
  {
    var s := p + sep + rest;
    NoMatchBeforeAppend(p + sep, rest, sep, |p|);
    assert p + sep + rest == (p + sep) + rest;
    SplitSkip(s, sep, "", |p|);
    assert s[|p|..] == sep + rest;
    assert "" + s[..|p|] == p;
    assert sep <= sep + rest;
    assert (sep + rest)[|sep|..] == rest;
    assert SplitFrom(sep + rest, sep, p) == [p] + SplitFrom(rest, sep, "");
  }

  /** A string shorter than the separator is never split. */
  lemma ShortNotSplit(s: string, sep: string)
    requires 0 < |sep| && |s| < |sep|
    ensures SplitOn(s, sep) == [s]
  {
    forall q | 0 <= q < |s|
      ensures !(sep <= s[q..])
    {
    }
    SplitSkip(s, sep, "", |s|);
    assert s[|s|..] == "" && "" + s[..|s|] == s;
  }

  // ---------------------------------------------------------------------------
  // Lexicographic order

  /** Code-unit lexicographic order: `a` sorts before `b`. */
  predicate LexLess(a: string, b: string)
    decreases |a|
  {
    |b| > 0 && (|a| == 0 || a[0] < b[0] || (a[0] == b[0] && LexLess(a[1..], b[1..])))
  }

  /** For blocks of equal length, the order of two concatenations is decided by the
      first blocks, and by the second ones when the first are equal. */
  lemma {:induction false} LexLessConcat(a1: string, a2: string, b1: string, b2: string)
    requires |a1| == |b1|
    ensures LexLess(a1 + a2, b1 + b2) <==> LexLess(a1, b1) || (a1 == b1 && LexLess(a2, b2))
    decreases |a1|
  {
    if |a1| == 0 {
      assert a1 + a2 == a2 && b1 + b2 == b2;
    } else {
      LexLessConcat(a1[1..], a2, b1[1..], b2);
      assert (a1 + a2)[1..] == a1[1..] + a2;
      assert (b1 + b2)[1..] == b1[1..] + b2;
      if a1[0] == b1[0] && a1[1..] == b1[1..] {
        assert a1 == b1;
      }
    }
  }

  lemma {:induction false} LexLessIrreflexive(a: string)
    ensures !LexLess(a, a)
    decreases |a|
  {
    if |a| > 0 {
      LexLessIrreflexive(a[1..]);
    }
  }

  /** A common separator between two equal-length blocks does not change the order. */
  lemma LexLessSkipSeparator(a: string, s: string, x: string, x': string, b: string, y: string, y': string)
    requires |a| == |b|
    requires LexLess(x, y) <==> LexLess(x', y')
    ensures LexLess(a + s + x, b + s + y) <==> LexLess(a + x', b + y')
  {
    assert a + s + x == a + (s + x) && b + s + y == b + (s + y);
    LexLessConcat(a, s + x, b, s + y);
    LexLessConcat(s, x, s, y);
    LexLessIrreflexive(s);
    LexLessConcat(a, x', b, y');
  }

  /** A separator character that does not occur in `x` is not found before its end. */
  lemma NoCharNoMatch(x: string, y: string, c: char)
    requires forall k :: 0 <= k < |x| ==> x[k] != c
    ensures NoMatchBefore(x + y, [c], |x|)
  {
    forall q | 0 <= q < |x|
      ensures !([c] <= (x + y)[q..])
    {
      assert (x + y)[q..][0] == x[q];
    }
  }
}
