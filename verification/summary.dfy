/** The summary and month views (app.py lines 107-125): total hours, the
    set of month keys and its newest-first list for the month selector,
    the entries of one month and their total. Hours are summed exactly,
    in hundredths. */
module Summary {
  import opened Seqs
  import opened Lex
  import opened Hours
  import opened Dates
  import opened Entries
  import opened Store

  /** The hours of all entries added up (app.py line 108). */
  function TotalHours(s: seq<Entry>): (r: nat)
    ensures forall e :: e in s ==> e.hours <= r
    ensures r == 0 <==> forall e :: e in s ==> e.hours == 0
  {
    if |s| == 0 then 0
    else
      assert forall e :: e in s ==> e == s[0] || e in s[1..];
      s[0].hours + TotalHours(s[1..])
  }

  /** Leaving entries out never raises the total. */
  lemma {:induction false} TotalHoursOfFilter(s: seq<Entry>, p: Entry -> bool)
    ensures TotalHours(Filter(s, p)) <= TotalHours(s)
  {
    if |s| > 0 {
      TotalHoursOfFilter(s[1..], p);
    }
  }

  lemma {:induction false} TotalHoursConcat(a: seq<Entry>, b: seq<Entry>)
    ensures TotalHours(a + b) == TotalHours(a) + TotalHours(b)
  {
    if |a| == 0 {
      assert a + b == b;
    } else {
      assert (a + b)[0] == a[0] && (a + b)[1..] == a[1..] + b;
      TotalHoursConcat(a[1..], b);
    }
  }

  lemma {:induction false} TotalHoursOfInsert(s: seq<Entry>, x: Entry)
    ensures TotalHours(InsertByDate(s, x)) == TotalHours(s) + x.hours
  {
    if |s| > 0 && LexLe(x.date, s[0].date) {
      TotalHoursOfInsert(s[1..], x);
    }
  }

  /** Re-sorting does not change the total. */
  lemma {:induction false} TotalHoursOfSort(s: seq<Entry>)
    ensures TotalHours(SortByDateDesc(s)) == TotalHours(s)
  {
    if |s| > 0 {
      var init, last := s[..|s| - 1], s[|s| - 1];
      SortUnfold(s);
      TotalHoursOfSort(init);
      TotalHoursOfInsert(SortByDateDesc(init), last);
      TotalHoursSnoc(s);
    }
  }

  /** The total of a non-empty list is the total without its last entry
      plus that entry's hours. */
  lemma TotalHoursSnoc(s: seq<Entry>)
    requires |s| > 0
    ensures TotalHours(s) == TotalHours(s[..|s| - 1]) + s[|s| - 1].hours
  {
    var init, last := s[..|s| - 1], s[|s| - 1];
    TotalHoursConcat(init, [last]);
    assert TotalHours([last]) == last.hours by {
      assert [last][1..] == [];
    }
    assert init + [last] == s;
  }

  /** An accepted add raises the total by exactly the new entry's hours. */
  lemma AddRaisesTotal(entries: seq<Entry>, date: CalendarDate, start: TimeOfDay, end: TimeOfDay, breakMinutes: nat)
    requires WorkedMinutes(start, end, breakMinutes) > 0
    ensures TotalHours(Add(entries, date, start, end, breakMinutes).entries)
            == TotalHours(entries) + CalculateHours(start, end, breakMinutes)
  {
    var entry := Add(entries, date, start, end, breakMinutes).entry;
    TotalHoursOfSort(entries + [entry]);
    TotalHoursConcat(entries, [entry]);
  }

  predicate DatesWellFormed(s: seq<Entry>)
  {
    forall i :: 0 <= i < |s| ==> WellFormedDate(s[i].date)
  }

  /** The first seven characters of an entry's date; its month key when
      `strptime` accepts the date (MonthOfIsMonthKey). */
  function MonthOf(e: Entry): string
  {
    if |e.date| >= 7 then e.date[..7] else e.date
  }

  lemma MonthOfIsMonthKey(e: Entry)
    requires WellFormedDate(e.date)
    ensures GetMonthYear(e.date) == Some(MonthOf(e))
  {
  }

  /** The month keys that occur among the entries' dates (app.py line 109). */
  function MonthKeys(s: seq<Entry>): (r: set<string>)
    requires DatesWellFormed(s)
  {
    set i | 0 <= i < |s| :: MonthOf(s[i])
  }

  lemma MonthKeysSnoc(s: seq<Entry>)
    requires |s| > 0 && DatesWellFormed(s)
    ensures MonthKeys(s) == MonthKeys(s[..|s| - 1]) + {MonthOf(s[|s| - 1])}
  {
    var init := s[..|s| - 1];
    assert forall i :: 0 <= i < |init| ==> init[i] == s[i];
    forall k | k in MonthKeys(s)
      ensures k in MonthKeys(init) + {MonthOf(s[|s| - 1])}
    {
      var i :| 0 <= i < |s| && MonthOf(s[i]) == k;
      if i < |init| {
        assert MonthOf(init[i]) == k;
      }
    }
    forall k | k in MonthKeys(init)
      ensures k in MonthKeys(s)
    {
      var i :| 0 <= i < |init| && MonthOf(init[i]) == k;
      assert MonthOf(s[i]) == k;
    }
  }

  /** No two keys equal; newest month first. */
  predicate StrictlyDescending(ks: seq<string>)
  {
    forall i, j :: 0 <= i < j < |ks| ==> LexLt(ks[j], ks[i])
  }

  /** Insert `k` into a newest-first key list unless it is already there. */
  function InsertKey(ks: seq<string>, k: string): (r: seq<string>)
    ensures forall x :: x in r <==> x in ks || x == k
  {
    if |ks| == 0 then [k]
    else if ks[0] == k then ks
    else if LexLe(ks[0], k) then [k] + ks
    else [ks[0]] + InsertKey(ks[1..], k)
  }

  lemma {:induction false} InsertKeyKeepsOrder(ks: seq<string>, k: string)
    requires StrictlyDescending(ks)
    ensures StrictlyDescending(InsertKey(ks, k))
  {
    var r := InsertKey(ks, k);
    if |ks| == 0 || ks[0] == k {
    } else if LexLe(ks[0], k) {
      assert r == [k] + ks;
      forall j | 0 < j < |r|
        ensures LexLt(r[j], r[0])
      {
        if j > 1 {
          LexLtLeTransitive(ks[j - 1], ks[0], k);
        }
      }
    } else {
      var rest := InsertKey(ks[1..], k);
      assert r == [ks[0]] + rest;
      InsertKeyKeepsOrder(ks[1..], k);
      LexLtIsNotGe(k, ks[0]);
      forall j | 0 < j < |r|
        ensures LexLt(r[j], r[0])
      {
        assert r[j] in rest;
        if r[j] != k {
          var m :| 0 <= m < |ks[1..]| && ks[1..][m] == r[j];
          assert ks[m + 1] == r[j];
        }
      }
      forall i, j | 0 < i < j < |r|
        ensures LexLt(r[j], r[i])
      {
        assert r[i] == rest[i - 1] && r[j] == rest[j - 1];
      }
    }
  }

  /** The month selector's options: each month key once, newest first
      (app.py line 120). */
  function Months(s: seq<Entry>): (r: seq<string>)
    requires DatesWellFormed(s)
    ensures StrictlyDescending(r)
    ensures forall k :: k in r <==> k in MonthKeys(s)
  {
    if |s| == 0 then []
    else
      var init := s[..|s| - 1];
      assert forall i :: 0 <= i < |init| ==> init[i] == s[i];
      var ks := Months(init);
      MonthKeysSnoc(s);
      InsertKeyKeepsOrder(ks, MonthOf(s[|s| - 1]));
      InsertKey(ks, MonthOf(s[|s| - 1]))
  }

  lemma {:induction false} DistinctKeysCount(ks: seq<string>)
    requires StrictlyDescending(ks)
    ensures |set k | k in ks| == |ks|
  {
    if |ks| > 0 {
      DistinctKeysCount(ks[1..]);
      assert (set k | k in ks) == {ks[0]} + (set k | k in ks[1..]);
      assert ks[0] !in ks[1..];
    }
  }

  /** "Months Tracked" equals the number of options in the month selector. */
  lemma MonthCountMatchesSelector(s: seq<Entry>)
    requires DatesWellFormed(s)
    ensures |MonthKeys(s)| == |Months(s)|
  {
    DistinctKeysCount(Months(s));
    assert MonthKeys(s) == set k | k in Months(s);
  }

  function InMonthKey(k: string): Entry -> bool
  {
    (e: Entry) => GetMonthYear(e.date) == Some(k)
  }

  /** The entries whose date falls in month `k`, in list order (app.py
      line 124). */
  function InMonth(s: seq<Entry>, k: string): (r: seq<Entry>)
    ensures forall i :: 0 <= i < |r| ==> GetMonthYear(r[i].date) == Some(k)
    ensures forall e :: multiset(r)[e] == if GetMonthYear(e.date) == Some(k) then multiset(s)[e] else 0
    ensures IsSubsequence(r, s)
  {
    FilterMultiset(s, InMonthKey(k));
    FilterIsSubsequence(s, InMonthKey(k));
    Filter(s, InMonthKey(k))
  }

  /** The month table of a date-ordered list is itself date-ordered. */
  lemma InMonthKeepsSorted(s: seq<Entry>, k: string)
    requires SortedByDateDesc(s)
    ensures SortedByDateDesc(InMonth(s, k))
  {
    SubsequenceKeepsSorted(InMonth(s, k), s);
  }

  /** The hours of month `k`'s entries added up (app.py line 125). */
  function MonthTotal(s: seq<Entry>, k: string): (r: nat)
    ensures r <= TotalHours(s)
    ensures (forall i :: 0 <= i < |s| ==> GetMonthYear(s[i].date) != Some(k)) ==> r == 0
  {
    TotalHoursOfFilter(s, InMonthKey(k));
    FilterDropsAll(s, InMonthKey(k));
    TotalHours(InMonth(s, k))
  }

  /** The month totals of the keys `ks`, added up. */
  function SumMonthTotals(s: seq<Entry>, ks: seq<string>): (r: nat)
  {
    if |ks| == 0 then 0 else MonthTotal(s, ks[0]) + SumMonthTotals(s, ks[1..])
  }

  /** The share of entry `e` in the month totals of `ks`. */
  function EntryShare(e: Entry, ks: seq<string>): (r: nat)
  {
    if |ks| == 0 then 0
    else (if GetMonthYear(e.date) == Some(ks[0]) then e.hours else 0) + EntryShare(e, ks[1..])
  }

  lemma {:induction false} SumMonthTotalsCons(e: Entry, s: seq<Entry>, ks: seq<string>)
    ensures SumMonthTotals([e] + s, ks) == EntryShare(e, ks) + SumMonthTotals(s, ks)
  {
    if |ks| > 0 {
      SumMonthTotalsCons(e, s, ks[1..]);
      FilterConcat([e], s, InMonthKey(ks[0]));
      TotalHoursConcat(InMonth([e], ks[0]), InMonth(s, ks[0]));
    }
  }

  lemma {:induction false} SumMonthTotalsEmpty(ks: seq<string>)
    ensures SumMonthTotals([], ks) == 0
  {
    if |ks| > 0 {
      SumMonthTotalsEmpty(ks[1..]);
    }
  }

  /** An entry counts towards exactly one of a list of distinct keys that
      holds its month. */
  lemma {:induction false} EntryShareIsHours(e: Entry, ks: seq<string>)
    requires WellFormedDate(e.date)
    requires StrictlyDescending(ks) && MonthOf(e) in ks
    ensures EntryShare(e, ks) == e.hours
  {
    if ks[0] == MonthOf(e) {
      EntryShareAbsent(e, ks[1..]);
    } else {
      assert MonthOf(e) in ks[1..];
      EntryShareIsHours(e, ks[1..]);
    }
  }

  lemma {:induction false} EntryShareAbsent(e: Entry, ks: seq<string>)
    requires WellFormedDate(e.date) && MonthOf(e) !in ks
    ensures EntryShare(e, ks) == 0
  {
    if |ks| > 0 {
      EntryShareAbsent(e, ks[1..]);
    }
  }

  /** Month totals over distinct keys covering every entry's month add up
      to the total hours. */
  lemma {:induction false} MonthTotalsCover(s: seq<Entry>, ks: seq<string>)
    requires DatesWellFormed(s) && StrictlyDescending(ks)
    requires forall i :: 0 <= i < |s| ==> MonthOf(s[i]) in ks
    ensures SumMonthTotals(s, ks) == TotalHours(s)
  {
    if |s| == 0 {
      SumMonthTotalsEmpty(ks);
    } else {
      assert s == [s[0]] + s[1..];
      MonthTotalsCover(s[1..], ks);
      SumMonthTotalsCons(s[0], s[1..], ks);
      EntryShareIsHours(s[0], ks);
    }
  }

  /** Summing the month view's total over every month in the selector gives
      the summary's total hours: the months partition the entries. */
  lemma MonthTotalsPartitionTotal(s: seq<Entry>)
    requires DatesWellFormed(s)
    ensures SumMonthTotals(s, Months(s)) == TotalHours(s)
  {
    forall i | 0 <= i < |s|
      ensures MonthOf(s[i]) in Months(s)
    {
      assert MonthOf(s[i]) in MonthKeys(s);
    }
    MonthTotalsCover(s, Months(s));
  }

  /** Every list the page can reach has well-formed dates, so its summary
      and month views are defined. */
  lemma ReachableDatesWellFormed(entries: seq<Entry>)
    requires StoreInvariant(entries)
    ensures DatesWellFormed(entries)
  {
  }
}
