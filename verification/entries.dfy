/** The time-sheet entry record and the re-sort that follows every add
    (app.py lines 60-69), which orders the list by date string, newest
    first. Python's sort is stable and reversing it still keeps entries
    with equal keys in their original order, so the result is the list
    ordered by date string, newest first, with same-day entries in the order
    they were added. */
module Entries {
  import opened Seqs
  import opened Lex

  /** One logged session: `date` is `YYYY-MM-DD`, the times are `HH:MM`,
      `hours` is in hundredths of an hour. */
  datatype Entry = Entry(id: int, date: string, startTime: string, endTime: string, breakMinutes: nat, hours: nat)

  /** Non-increasing by date string, as the entry list is kept. */
  predicate SortedByDateDesc(s: seq<Entry>)
  {
    forall i, j :: 0 <= i < j < |s| ==> LexLe(s[j].date, s[i].date)
  }

  function HasDate(k: string): Entry -> bool
  {
    (e: Entry) => e.date == k
  }

  /** The entries dated `k`, in list order. */
  function OnDate(s: seq<Entry>, k: string): (r: seq<Entry>)
  {
    Filter(s, HasDate(k))
  }

  /** One insertion step of a stable sort: `x` goes after every leading
      entry whose date is not earlier than its own. */
  function InsertByDate(s: seq<Entry>, x: Entry): (r: seq<Entry>)
    ensures |r| == |s| + 1
    ensures multiset(r) == multiset(s) + multiset{x}
  {
    if |s| == 0 then [x]
    else if LexLe(x.date, s[0].date) then
      assert s == [s[0]] + s[1..];
      [s[0]] + InsertByDate(s[1..], x)
    else [x] + s
  }

  /** Stable sort by date string, newest first. */
  function SortByDateDesc(s: seq<Entry>): (r: seq<Entry>)
    ensures |r| == |s|
    ensures multiset(r) == multiset(s)
    ensures SortedByDateDesc(r)
  {
    if |s| == 0 then []
    else
      var init, last := s[..|s| - 1], s[|s| - 1];
      assert s == init + [last];
      var sorted := SortByDateDesc(init);
      InsertKeepsSorted(sorted, last);
      InsertByDate(sorted, last)
  }

  lemma {:induction false} InsertKeepsSorted(s: seq<Entry>, x: Entry)
    requires SortedByDateDesc(s)
    ensures SortedByDateDesc(InsertByDate(s, x))
  {
    var r := InsertByDate(s, x);
    if |s| == 0 {
    } else if LexLe(x.date, s[0].date) {
      var rest := InsertByDate(s[1..], x);
      InsertKeepsSorted(s[1..], x);
      assert r == [s[0]] + rest;
      forall j | 0 < j < |r|
        ensures LexLe(r[j].date, r[0].date)
      {
        assert r[j] in multiset(rest);
        if r[j] != x {
          assert r[j] in multiset(s[1..]);
          var m :| 0 <= m < |s[1..]| && s[1..][m] == r[j];
          assert s[m + 1] == r[j];
        }
      }
    } else {
      LexLeTotal(x.date, s[0].date);
      assert r == [x] + s;
      forall j | 0 < j < |r|
        ensures LexLe(r[j].date, r[0].date)
      {
        assert r[j] == s[j - 1];
        if j > 1 {
          LexLeTransitive(s[j - 1].date, s[0].date, x.date);
        }
      }
    }
  }

  /** Inserting `x` appends it to the entries of its own date and changes
      the entries of every other date not at all. */
  lemma {:induction false} InsertOnDate(s: seq<Entry>, x: Entry, k: string)
    requires SortedByDateDesc(s)
    ensures OnDate(InsertByDate(s, x), k) == OnDate(s, k) + (if x.date == k then [x] else [])
  {
    if |s| == 0 {
    } else if LexLe(x.date, s[0].date) {
      InsertOnDate(s[1..], x, k);
      InsertOnDateKeep(s, x, k, if x.date == k then [x] else []);
    } else {
      InsertOnDateFront(s, x, k);
    }
  }

  lemma InsertOnDateKeep(s: seq<Entry>, x: Entry, k: string, tail: seq<Entry>)
    requires |s| > 0 && LexLe(x.date, s[0].date)
    requires OnDate(InsertByDate(s[1..], x), k) == OnDate(s[1..], k) + tail
    ensures OnDate(InsertByDate(s, x), k) == OnDate(s, k) + tail
  {
    OnDateOfInsertKeep(s, x, k);
    OnDateCons(s, k);
    ConcatAssoc(OnDate([s[0]], k), OnDate(s[1..], k), tail);
  }

  lemma OnDateOfInsertKeep(s: seq<Entry>, x: Entry, k: string)
    requires |s| > 0 && LexLe(x.date, s[0].date)
    ensures OnDate(InsertByDate(s, x), k) == OnDate([s[0]], k) + OnDate(InsertByDate(s[1..], x), k)
  {
    assert InsertByDate(s, x) == [s[0]] + InsertByDate(s[1..], x);
    FilterConcat([s[0]], InsertByDate(s[1..], x), HasDate(k));
  }

  lemma OnDateCons(s: seq<Entry>, k: string)
    requires |s| > 0
    ensures OnDate(s, k) == OnDate([s[0]], k) + OnDate(s[1..], k)
  {
    FilterConcat([s[0]], s[1..], HasDate(k));
    assert [s[0]] + s[1..] == s;
  }

  lemma InsertOnDateFront(s: seq<Entry>, x: Entry, k: string)
    requires SortedByDateDesc(s)
    requires |s| > 0 && !LexLe(x.date, s[0].date)
    ensures OnDate(InsertByDate(s, x), k) == OnDate(s, k) + (if x.date == k then [x] else [])
  {
    assert InsertByDate(s, x) == [x] + s;
    FilterConcat([x], s, HasDate(k));
    if x.date == k {
      forall i | 0 <= i < |s|
        ensures !HasDate(k)(s[i])
      {
        if i > 0 {
          assert LexLe(s[i].date, s[0].date);
        } else {
          LexLeReflexive(s[0].date);
        }
      }
      FilterDropsAll(s, HasDate(k));
      assert OnDate([x], k) == [x];
    } else {
      assert OnDate([x], k) == [];
    }
  }

  /** Sorting keeps, for each date, its entries in their original order. */
  lemma {:induction false} SortIsStable(s: seq<Entry>, k: string)
    ensures OnDate(SortByDateDesc(s), k) == OnDate(s, k)
  {
    if |s| > 0 {
      var init, last := s[..|s| - 1], s[|s| - 1];
      assert s == init + [last];
      SortIsStable(init, k);
      InsertOnDate(SortByDateDesc(init), last, k);
      assert SortByDateDesc(s) == InsertByDate(SortByDateDesc(init), last);
      FilterConcat(init, [last], HasDate(k));
      assert OnDate([last], k) == if last.date == k then [last] else [];
    }
  }

  /** Appending `x` and re-sorting puts `x` after every entry already on its
      date and leaves the entries of other dates as they were. */
  lemma AppendThenSort(s: seq<Entry>, x: Entry)
    ensures OnDate(SortByDateDesc(s + [x]), x.date) == OnDate(s, x.date) + [x]
    ensures forall k :: k != x.date ==> OnDate(SortByDateDesc(s + [x]), k) == OnDate(s, k)
  {
    AppendThenSortOnDate(s, x, x.date);
    forall k | k != x.date
      ensures OnDate(SortByDateDesc(s + [x]), k) == OnDate(s, k)
    {
      AppendThenSortOnDate(s, x, k);
    }
  }

  lemma AppendThenSortOnDate(s: seq<Entry>, x: Entry, k: string)
    ensures OnDate(SortByDateDesc(s + [x]), k) == OnDate(s, k) + (if x.date == k then [x] else [])
  {
    SortIsStable(s + [x], k);
    FilterConcat(s, [x], HasDate(k));
    assert OnDate([x], k) == if x.date == k then [x] else [];
  }

  /** Sorting a list that is already in order changes nothing. */
  lemma {:induction false} SortOfSortedIsIdentity(s: seq<Entry>)
    requires SortedByDateDesc(s)
    ensures SortByDateDesc(s) == s
  {
    if |s| > 0 {
      var init, last := s[..|s| - 1], s[|s| - 1];
      assert s == init + [last];
      SortedSplit(init, last);
      SortOfSortedIsIdentity(init);
      InsertAfterAll(init, last);
      SortUnfold(s);
    }
  }

  lemma SortUnfold(s: seq<Entry>)
    requires |s| > 0
    ensures SortByDateDesc(s) == InsertByDate(SortByDateDesc(s[..|s| - 1]), s[|s| - 1])
  {
  }

  lemma SortedSplit(init: seq<Entry>, last: Entry)
    requires SortedByDateDesc(init + [last])
    ensures SortedByDateDesc(init)
    ensures forall i :: 0 <= i < |init| ==> LexLe(last.date, init[i].date)
  {
    var s := init + [last];
    forall i | 0 <= i < |init|
      ensures LexLe(last.date, init[i].date)
    {
      assert s[i] == init[i] && s[|init|] == last;
    }
    forall i, j | 0 <= i < j < |init|
      ensures LexLe(init[j].date, init[i].date)
    {
      assert s[i] == init[i] && s[j] == init[j];
    }
  }

  /** An entry dated no later than everything already in the list goes last. */
  lemma {:induction false} InsertAfterAll(s: seq<Entry>, x: Entry)
    requires forall i :: 0 <= i < |s| ==> LexLe(x.date, s[i].date)
    ensures InsertByDate(s, x) == s + [x]
  {
    if |s| > 0 {
      InsertAfterAll(s[1..], x);
      assert s == [s[0]] + s[1..];
    }
  }

  /** Dropping entries from a date-ordered list keeps it date-ordered. */
  lemma {:induction false} SubsequenceKeepsSorted(a: seq<Entry>, b: seq<Entry>)
    requires IsSubsequence(a, b) && SortedByDateDesc(b)
    ensures SortedByDateDesc(a)
    decreases |b|
  {
    if |a| == 0 {
    } else if a[0] == b[0] {
      SubsequenceKeepsSorted(a[1..], b[1..]);
      SubsequenceMembers(a[1..], b[1..]);
      forall j | 0 < j < |a|
        ensures LexLe(a[j].date, a[0].date)
      {
        assert a[j] == a[1..][j - 1];
        assert a[j] in a[1..];
        assert a[j] in b[1..];
        var m :| 0 <= m < |b[1..]| && b[1..][m] == a[j];
        assert b[m + 1] == a[j];
      }
      forall i, j | 0 < i < j < |a|
        ensures LexLe(a[j].date, a[i].date)
      {
        assert a[i] == a[1..][i - 1] && a[j] == a[1..][j - 1];
      }
    } else {
      SubsequenceKeepsSorted(a, b[1..]);
    }
  }
}
