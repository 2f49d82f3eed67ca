/** The order the log is sorted in before context extraction: chat name first, then
    timestamp, compared after rewriting "DD/MM/YYYY HH:MM" into "YYYY-MM-DDTHH:MM". */
module Ordering {
  import opened Strings
  import opened Seqs
  import opened Schema

  /** The key `sortByChatNameThenByDate` builds from a timestamp: split at spaces, the
      date part split at "/", reversed and joined with "-", all parts joined with "T". */
  function DateKey(datetime: string): string
  {
    var parts := SplitOn(datetime, " ");
    var date := Join(Reverse(SplitOn(parts[0], "/")), "-");
    Join([date] + parts[1..], "T")
  }

  predicate Digits(s: string, n: nat)
  {
    |s| == n && forall k :: 0 <= k < |s| ==> '0' <= s[k] <= '9'
  }

  /** A timestamp as the message log writes it. */
  function Timestamp(dd: string, mm: string, yyyy: string, hh: string, mi: string): string
  {
    dd + "/" + mm + "/" + yyyy + " " + hh + ":" + mi
  }

  predicate TimestampFields(dd: string, mm: string, yyyy: string, hh: string, mi: string)
  {
    Digits(dd, 2) && Digits(mm, 2) && Digits(yyyy, 4) && Digits(hh, 2) && Digits(mi, 2)
  }

  /** The rewrite turns a log timestamp into the ISO 8601 local date-time form. */
  lemma DateKeyOfTimestamp(dd: string, mm: string, yyyy: string, hh: string, mi: string)
    requires TimestampFields(dd, mm, yyyy, hh, mi)
    ensures DateKey(Timestamp(dd, mm, yyyy, hh, mi)) == yyyy + "-" + mm + "-" + dd + "T" + hh + ":" + mi
  {
    var date := dd + "/" + mm + "/" + yyyy;
    var time := hh + ":" + mi;
    assert Timestamp(dd, mm, yyyy, hh, mi) == date + " " + time;
    // the timestamp splits at its one space
    assert Join([date, time], " ") == date + " " + time by {
      assert [date, time][1..] == [time];
    }
    NoCharNoMatch(date, " ", ' ');
    NoCharNoMatch(time, "", ' ');
    assert time + "" == time;
    SplitJoin([date, time], " ");
    // the date splits at its two slashes
    Join3(dd, mm, yyyy, "/");
    NoCharNoMatch(dd, "/", '/');
    NoCharNoMatch(mm, "/", '/');
    NoCharNoMatch(yyyy, "", '/');
    assert yyyy + "" == yyyy;
    SplitJoin([dd, mm, yyyy], "/");
    assert SplitOn(date, "/") == [dd, mm, yyyy];
    assert Reverse([dd, mm, yyyy]) == [yyyy, mm, dd] by {
      assert [dd, mm, yyyy][1..] == [mm, yyyy];
      assert [mm, yyyy][1..] == [yyyy];
      assert [yyyy][1..] == [];
      assert Reverse([yyyy]) == [yyyy];
      assert Reverse([mm, yyyy]) == [yyyy, mm];
    }
    var key := yyyy + "-" + mm + "-" + dd;
    Join3(yyyy, mm, dd, "-");
    assert [date, time][1..] == [time];
    assert [key] + [time] == [key, time];
    assert Join([key, time], "T") == key + "T" + time by {
      assert [key, time][1..] == [time];
    }
  }

  lemma Join3(a: string, b: string, c: string, sep: string)
    ensures Join([a, b, c], sep) == a + sep + b + sep + c
  {
    assert [a, b, c][1..] == [b, c];
    assert [b, c][1..] == [c];
    assert Join([c], sep) == c;
    assert Join([b, c], sep) == b + sep + c;
  }

  /** Keys of log timestamps order exactly as the timestamps do chronologically: by year,
      then month, day, hour and minute. */
  lemma DateKeyChronological(d1: string, m1: string, y1: string, h1: string, n1: string,
                             d2: string, m2: string, y2: string, h2: string, n2: string)
    requires TimestampFields(d1, m1, y1, h1, n1) && TimestampFields(d2, m2, y2, h2, n2)
    ensures LexLess(DateKey(Timestamp(d1, m1, y1, h1, n1)), DateKey(Timestamp(d2, m2, y2, h2, n2)))
      <==> LexLess(y1 + m1 + d1 + h1 + n1, y2 + m2 + d2 + h2 + n2)
  {
    KeyNested(d1, m1, y1, h1, n1);
    KeyNested(d2, m2, y2, h2, n2);
    // peel the fields off from the minutes up, dropping one separator per step
    var t1, t2 := h1 + ":" + n1, h2 + ":" + n2;
    var u1, u2 := d1 + "T" + t1, d2 + "T" + t2;
    var w1, w2 := m1 + "-" + u1, m2 + "-" + u2;
    LexLessSkipSeparator(h1, ":", n1, n1, h2, n2, n2);
    LexLessSkipSeparator(d1, "T", t1, h1 + n1, d2, t2, h2 + n2);
    LexLessSkipSeparator(m1, "-", u1, d1 + (h1 + n1), m2, u2, d2 + (h2 + n2));
    LexLessSkipSeparator(y1, "-", w1, m1 + (d1 + (h1 + n1)), y2, w2, m2 + (d2 + (h2 + n2)));
  }

  /** The key and the bare digits of a timestamp, both bracketed from the right. */
  lemma KeyNested(dd: string, mm: string, yyyy: string, hh: string, mi: string)
    requires TimestampFields(dd, mm, yyyy, hh, mi)
    ensures DateKey(Timestamp(dd, mm, yyyy, hh, mi))
         == yyyy + "-" + (mm + "-" + (dd + "T" + (hh + ":" + mi)))
    ensures yyyy + mm + dd + hh + mi == yyyy + (mm + (dd + (hh + mi)))
  {
    DateKeyOfTimestamp(dd, mm, yyyy, hh, mi);
    NestRight9(yyyy, "-", mm, "-", dd, "T", hh, ":", mi);
    assert yyyy + mm + dd + hh + mi == yyyy + (mm + (dd + (hh + mi)));
  }

  lemma NestRight9<T>(a: seq<T>, b: seq<T>, c: seq<T>, d: seq<T>, e: seq<T>,
                      f: seq<T>, g: seq<T>, h: seq<T>, i: seq<T>)
    ensures a + b + c + d + e + f + g + h + i == a + b + (c + d + (e + f + (g + h + i)))
  {
    assert a + b + c + d + e + f + g + h + i == a + b + (c + d + e + f + g + h + i);
    assert c + d + e + f + g + h + i == c + d + (e + f + g + h + i);
    assert e + f + g + h + i == e + f + (g + h + i);
  }

  /** The comparator `sortByChatNameThenByDate`: chat names in the collation
      `chatBefore`, then timestamps by their keys. */
  predicate RowBefore(a: Row, b: Row, chatBefore: (string, string) -> bool)
    requires |a| > Datetime && |b| > Datetime
  {
    chatBefore(a[ChatName], b[ChatName])
    || (a[ChatName] == b[ChatName] && LexLess(DateKey(a[Datetime]), DateKey(b[Datetime])))
  }

  /** The log is sorted: no row comes before an earlier one. */
  predicate Sorted(rows: seq<Row>, chatBefore: (string, string) -> bool)
    requires AllWellFormed(rows)
  {
    forall i, j :: 0 <= i < j < |rows| ==> !RowBefore(rows[j], rows[i], chatBefore)
  }

  /** When the collation tells distinct chat names apart, a sorted log is grouped by
      chat, which is what the context extraction relies on. */
  lemma SortedIsGrouped(rows: seq<Row>, chatBefore: (string, string) -> bool)
    requires AllWellFormed(rows) && Sorted(rows, chatBefore)
    requires forall x, y :: x != y ==> chatBefore(x, y) || chatBefore(y, x)
    ensures Grouped(rows)
  {
    forall a, b, c
      ensures InOneRun(rows, a, b, c)
    {
      if 0 <= a < b < c < |rows| {
        assert !RowBefore(rows[b], rows[a], chatBefore) && !RowBefore(rows[c], rows[b], chatBefore);
      }
    }
  }
}
