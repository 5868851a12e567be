/** Ordering log entries by their `datetime` string, as Python compares
    strings, and the newest-first sort that the read handler's fallback uses. */
module DatetimeOrder {
  import opened Store

  /** Python's `a <= b` on `str`: lexicographic by code point, with a proper
      prefix ordered first. A string is `<=` every string it is a prefix of. */
  predicate StrLe(a: string, b: string)
    ensures a <= b ==> StrLe(a, b)
  {
    a == [] || (b != [] && (a[0] < b[0] || (a[0] == b[0] && StrLe(a[1..], b[1..]))))
  }

  /** The first position where two strings differ decides: the string with
      the smaller character there is the smaller one. */
  lemma {:induction false} StrLeFirstDifference(a: string, b: string, i: nat)
    requires i < |a| && i < |b| && a[..i] == b[..i] && a[i] != b[i]
    ensures StrLe(a, b) <==> a[i] < b[i]
  {
    if i > 0 {
      assert a[0] == a[..i][0] == b[..i][0] == b[0];
      assert a[1..][..i - 1] == a[..i][1..] == b[..i][1..] == b[1..][..i - 1];
      StrLeFirstDifference(a[1..], b[1..], i - 1);
    }
  }

  lemma {:induction false} StrLeReflexive(a: string)
    ensures StrLe(a, a)
  {
    if a != [] {
      StrLeReflexive(a[1..]);
    }
  }

  lemma {:induction false} StrLeTotal(a: string, b: string)
    ensures StrLe(a, b) || StrLe(b, a)
  {
    if a != [] && b != [] && a[0] == b[0] {
      StrLeTotal(a[1..], b[1..]);
    }
  }

  lemma {:induction false} StrLeTransitive(a: string, b: string, c: string)
    requires StrLe(a, b) && StrLe(b, c)
    ensures StrLe(a, c)
  {
    if a != [] && a[0] == b[0] && b[0] == c[0] {
      StrLeTransitive(a[1..], b[1..], c[1..]);
    }
  }

  lemma {:induction false} StrLeAntisymmetric(a: string, b: string)
    requires StrLe(a, b) && StrLe(b, a)
    ensures a == b
  {
    if a != [] {
      StrLeAntisymmetric(a[1..], b[1..]);
      assert a == [a[0]] + a[1..] && b == [b[0]] + b[1..];
    }
  }

  /** `x` is at least as recent as `y`. */
  predicate NoOlder(x: LogEntry, y: LogEntry)
  {
    StrLe(y.datetime, x.datetime)
  }

  /** Non-increasing by `datetime`: every entry is at least as recent as every later one. */
  predicate NewestFirst(s: seq<LogEntry>)
  {
    forall i, j :: 0 <= i < j < |s| ==> NoOlder(s[i], s[j])
  }

  /** An entry at least as recent as every entry of a newest-first sequence
      can go in front of it. */
  lemma ConsNewestFirst(x: LogEntry, s: seq<LogEntry>)
    requires NewestFirst(s)
    requires forall j :: 0 <= j < |s| ==> NoOlder(x, s[j])
    ensures NewestFirst([x] + s)
  {
  }

  /** `x` at least as recent as the head of a newest-first sequence is at
      least as recent as all of it. */
  lemma NoOlderThanHead(x: LogEntry, s: seq<LogEntry>)
    requires NewestFirst(s) && s != [] && NoOlder(x, s[0])
    ensures forall j :: 0 <= j < |s| ==> NoOlder(x, s[j])
  {
    forall j | 0 < j < |s| ensures NoOlder(x, s[j]) {
      StrLeTransitive(s[j].datetime, s[0].datetime, x.datetime);
    }
  }

  /** The head of a newest-first sequence is at least as recent as every
      entry of `t`, when `t` holds the rest of the sequence and an entry `x`
      strictly older than the head. */
  lemma HeadNoOlder(x: LogEntry, s: seq<LogEntry>, t: seq<LogEntry>)
    requires NewestFirst(s) && s != [] && !NoOlder(x, s[0])
    requires multiset(t) == multiset(s[1..]) + multiset{x}
    ensures forall j :: 0 <= j < |t| ==> NoOlder(s[0], t[j])
  {
    forall j | 0 <= j < |t| ensures NoOlder(s[0], t[j]) {
      assert t[j] in multiset(t);
      if t[j] == x {
        StrLeTotal(x.datetime, s[0].datetime);
      } else {
        assert t[j] in multiset(s[1..]);
        var k :| 0 <= k < |s[1..]| && s[1..][k] == t[j];
        assert s[k + 1] == t[j];
      }
    }
  }

  /** Inserts `x` in front of the first entry no more recent than it, that is
      after every strictly more recent entry and ahead of equal ones, so that
      it stays ahead of equal datetimes that came after it in the input. */
  function InsertNewestFirst(x: LogEntry, s: seq<LogEntry>): (r: seq<LogEntry>)
    requires NewestFirst(s)
    ensures |r| == |s| + 1
    ensures multiset(r) == multiset(s) + multiset{x}
    ensures NewestFirst(r)
  {
    if s == [] then [x]
    else if NoOlder(x, s[0]) then
      NoOlderThanHead(x, s);
      ConsNewestFirst(x, s);
      [x] + s
    else
      var t := InsertNewestFirst(x, s[1..]);
      assert s == [s[0]] + s[1..];
      HeadNoOlder(x, s, t);
      ConsNewestFirst(s[0], t);
      [s[0]] + t
  }

  /** Python's `sorted(items, key=lambda x: x['datetime'], reverse=True)`:
      a stable insertion sort, newest first. */
  function SortNewestFirst(s: seq<LogEntry>): (r: seq<LogEntry>)
    ensures |r| == |s|
    ensures multiset(r) == multiset(s)
    ensures NewestFirst(r)
  {
    if s == [] then []
    else
      assert s == [s[0]] + s[1..];
      InsertNewestFirst(s[0], SortNewestFirst(s[1..]))
  }

  /** Cutting a newest-first sequence: everything after the cut is no more
      recent than anything before it. */
  lemma PrefixIsNewest(sorted: seq<LogEntry>, m: nat)
    requires NewestFirst(sorted) && m <= |sorted|
    ensures forall x, y :: x in multiset(sorted) - multiset(sorted[..m]) && y in sorted[..m] ==> NoOlder(y, x)
  {
    var r := sorted[..m];
    assert sorted == r + sorted[m..];
    assert multiset(sorted) == multiset(r) + multiset(sorted[m..]);
    forall x, y | x in multiset(sorted) - multiset(r) && y in r ensures NoOlder(y, x) {
      assert x in multiset(sorted[m..]);
      var j :| 0 <= j < |sorted[m..]| && sorted[m..][j] == x;
      var i :| 0 <= i < |r| && r[i] == y;
      assert sorted[i] == y && sorted[m + j] == x;
    }
  }

  /** `sorted(items, key=datetime, reverse=True)[:n]`: the `n` most recent
      entries (all of them when there are fewer), newest first. Every entry
      it leaves out is no more recent than every entry it keeps. */
  function MostRecent(s: seq<LogEntry>, n: nat): (r: seq<LogEntry>)
    ensures |r| == if |s| < n then |s| else n
    ensures NewestFirst(r)
    ensures multiset(r) <= multiset(s)
    ensures forall x, y :: x in multiset(s) - multiset(r) && y in r ==> NoOlder(y, x)
  {
    var sorted := SortNewestFirst(s);
    var m := if |s| < n then |s| else n;
    PrefixIsNewest(sorted, m);
    assert sorted == sorted[..m] + sorted[m..];
    assert multiset(sorted) == multiset(sorted[..m]) + multiset(sorted[m..]);
    sorted[..m]
  }
}
