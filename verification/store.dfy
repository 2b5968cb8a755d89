/** The session's entry list and the operations the page performs on it:
    add (app.py lines 56-73), delete by id (line 94), clear (line 186) and
    the five-entry recent view (line 82). The list starts empty (lines
    9-10) and every operation maps the current list to the next one. */
module Store {
  import opened Seqs
  import opened Lex
  import opened Hours
  import opened Dates
  import opened Entries

  /** What pressing "Add Entry" does: either the new list together with
      the entry that was added, or the "End time must be after start time"
      error, which leaves the list as it was. */
  datatype AddResult = Added(entries: seq<Entry>, entry: Entry) | Rejected

  /** Add an entry: compute its hours; if positive, give it id
      `len(entries) + 1`, append it and re-sort by date, newest first. */
  function Add(entries: seq<Entry>, date: CalendarDate, start: TimeOfDay, end: TimeOfDay, breakMinutes: nat): (r: AddResult)
    ensures r.Rejected? <==> WorkedMinutes(start, end, breakMinutes) <= 0
    ensures r.Added? ==>
      && r.entry.id == |entries| + 1
      && r.entry.date == FormatDate(date) && WellFormedDate(r.entry.date)
      && r.entry.startTime == FormatTime(start) && r.entry.endTime == FormatTime(end)
      && r.entry.breakMinutes == breakMinutes
      && r.entry.hours == CalculateHours(start, end, breakMinutes) && r.entry.hours > 0
    ensures r.Added? ==>
      && |r.entries| == |entries| + 1
      && multiset(r.entries) == multiset(entries) + multiset{r.entry}
      && SortedByDateDesc(r.entries)
      && OnDate(r.entries, r.entry.date) == OnDate(entries, r.entry.date) + [r.entry]
      && (forall k :: k != r.entry.date ==> OnDate(r.entries, k) == OnDate(entries, k))
  {
    var hours := CalculateHours(start, end, breakMinutes);
    if hours > 0 then
      var entry := Entry(|entries| + 1, FormatDate(date), FormatTime(start), FormatTime(end), breakMinutes, hours);
      ParseFormatDate(date);
      AppendThenSort(entries, entry);
      Added(SortByDateDesc(entries + [entry]), entry)
    else
      Rejected
  }

  function HasOtherId(id: int): Entry -> bool
  {
    (e: Entry) => e.id != id
  }

  /** Delete by id: keep every entry whose id differs, in order. All entries
      sharing the id go, and an id nobody has changes nothing. */
  function Delete(entries: seq<Entry>, id: int): (r: seq<Entry>)
    ensures forall i :: 0 <= i < |r| ==> r[i].id != id
    ensures forall e :: multiset(r)[e] == if e.id != id then multiset(entries)[e] else 0
    ensures IsSubsequence(r, entries)
    ensures (forall i :: 0 <= i < |entries| ==> entries[i].id != id) ==> r == entries
  {
    FilterMultiset(entries, HasOtherId(id));
    FilterIsSubsequence(entries, HasOtherId(id));
    FilterKeepsAll(entries, HasOtherId(id));
    Filter(entries, HasOtherId(id))
  }

  /** The list shows at most this many entries under "Recent Entries". */
  const RecentCount := 5

  /** The first five entries, or all of them when there are fewer (app.py
      line 82). */
  function Recent(entries: seq<Entry>): (r: seq<Entry>)
    ensures |r| == if |entries| < RecentCount then |entries| else RecentCount
    ensures r <= entries
  {
    entries[..if |entries| < RecentCount then |entries| else RecentCount]
  }

  /** On a date-ordered list the recent view holds the latest entries: none
      left out is dated after one shown. */
  lemma RecentShowsLatest(entries: seq<Entry>)
    requires SortedByDateDesc(entries)
    ensures forall i, j :: 0 <= i < |Recent(entries)| <= j < |entries| ==> LexLe(entries[j].date, Recent(entries)[i].date)
  {
    var r := Recent(entries);
    forall i, j | 0 <= i < |r| <= j < |entries|
      ensures LexLe(entries[j].date, r[i].date)
    {
      assert r[i] == entries[i];
    }
  }

  /** Deleting the same id twice is the same as deleting it once. */
  lemma DeleteIsIdempotent(entries: seq<Entry>, id: int)
    ensures Delete(Delete(entries, id), id) == Delete(entries, id)
  {
  }

  /** Deleting keeps the list date-ordered. */
  lemma DeleteKeepsSorted(entries: seq<Entry>, id: int)
    requires SortedByDateDesc(entries)
    ensures SortedByDateDesc(Delete(entries, id))
  {
    SubsequenceKeepsSorted(Delete(entries, id), entries);
  }

  /** One user action on the page. */
  datatype Action =
    | AddEntry(date: CalendarDate, start: TimeOfDay, end: TimeOfDay, breakMinutes: nat)
    | DeleteEntry(id: int)
    | ClearAll

  /** What every list the page can reach satisfies: ordered by date, newest
      first; dates `strptime` accepts; hours in 0.01..23.98; ids positive. */
  predicate StoreInvariant(entries: seq<Entry>)
  {
    && SortedByDateDesc(entries)
    && forall i :: 0 <= i < |entries| ==>
         WellFormedDate(entries[i].date) && 0 < entries[i].hours <= MaxHundredths && entries[i].id >= 1
  }

  /** The list after one action. */
  function Step(entries: seq<Entry>, a: Action): (r: seq<Entry>)
    ensures a.ClearAll? ==> |r| == 0
    ensures StoreInvariant(entries) ==> StoreInvariant(r)
  {
    match a
    case AddEntry(date, start, end, breakMinutes) =>
      (match Add(entries, date, start, end, breakMinutes)
       case Added(next, _) =>
         AddKeepsInvariant(entries, date, start, end, breakMinutes);
         next
       case Rejected => entries)
    case DeleteEntry(id) =>
      DeleteKeepsInvariant(entries, id);
      Delete(entries, id)
    case ClearAll => []
  }

  lemma AddKeepsInvariant(entries: seq<Entry>, date: CalendarDate, start: TimeOfDay, end: TimeOfDay, breakMinutes: nat)
    requires WorkedMinutes(start, end, breakMinutes) > 0
    ensures StoreInvariant(entries) ==> StoreInvariant(Add(entries, date, start, end, breakMinutes).entries)
  {
    var r := Add(entries, date, start, end, breakMinutes);
    HoursAtMostOneDay(start, end, breakMinutes);
    if StoreInvariant(entries) {
      forall i | 0 <= i < |r.entries|
        ensures WellFormedDate(r.entries[i].date) && 0 < r.entries[i].hours <= MaxHundredths && r.entries[i].id >= 1
      {
        var e := r.entries[i];
        assert e in multiset(r.entries);
        if e != r.entry {
          assert e in multiset(entries);
          var m :| 0 <= m < |entries| && entries[m] == e;
        }
      }
    }
  }

  lemma DeleteKeepsInvariant(entries: seq<Entry>, id: int)
    ensures StoreInvariant(entries) ==> StoreInvariant(Delete(entries, id))
  {
    var r := Delete(entries, id);
    if StoreInvariant(entries) {
      DeleteKeepsSorted(entries, id);
      forall i | 0 <= i < |r|
        ensures WellFormedDate(r[i].date) && 0 < r[i].hours <= MaxHundredths && r[i].id >= 1
      {
        assert r[i] in multiset(r);
        assert r[i] in multiset(entries);
        var m :| 0 <= m < |entries| && entries[m] == r[i];
      }
    }
  }

  /** The list after a run of actions from the list `entries`. */
  function RunFrom(entries: seq<Entry>, actions: seq<Action>): (r: seq<Entry>)
    ensures StoreInvariant(entries) ==> StoreInvariant(r)
    decreases |actions|
  {
    if |actions| == 0 then entries else RunFrom(Step(entries, actions[0]), actions[1..])
  }

  /** The list after a run of actions from the empty session. */
  function Run(actions: seq<Action>): (r: seq<Entry>)
    ensures StoreInvariant(r)
  {
    RunFrom([], actions)
  }

  /** Ordering by the date text orders by the dates themselves: on every
      reachable list the parsed dates run from newest to oldest. */
  lemma ReachableListIsChronological(entries: seq<Entry>)
    requires StoreInvariant(entries)
    ensures forall i, j :: 0 <= i < j < |entries| ==>
              DateLe(ParseDate(entries[j].date).value, ParseDate(entries[i].date).value)
  {
    forall i, j | 0 <= i < j < |entries|
      ensures DateLe(ParseDate(entries[j].date).value, ParseDate(entries[i].date).value)
    {
      var di: CalendarDate := ParseDate(entries[i].date).value;
      var dj: CalendarDate := ParseDate(entries[j].date).value;
      FormatParseDate(entries[i].date);
      FormatParseDate(entries[j].date);
      FormattedDateOrder(dj, di);
    }
  }

  /** A rejected add leaves the list unchanged. */
  lemma RejectedAddKeepsEntries(entries: seq<Entry>, date: CalendarDate, start: TimeOfDay, end: TimeOfDay, breakMinutes: nat)
    requires WorkedMinutes(start, end, breakMinutes) <= 0
    ensures Step(entries, AddEntry(date, start, end, breakMinutes)) == entries
  {
  }

  /** Ids are `len + 1` at the time of adding, so they repeat once an entry
      has been deleted: two adds, deleting id 1 and a third add leave two
      entries with id 2, and deleting id 2 then removes both. */
  lemma IdsRepeatAfterDelete(d1: CalendarDate, d2: CalendarDate, d3: CalendarDate, start: TimeOfDay, end: TimeOfDay, breakMinutes: nat)
    requires WorkedMinutes(start, end, breakMinutes) > 0
    ensures var s := Run([AddEntry(d1, start, end, breakMinutes), AddEntry(d2, start, end, breakMinutes),
                          DeleteEntry(1), AddEntry(d3, start, end, breakMinutes)]);
            |s| == 2 && s[0].id == 2 && s[1].id == 2 && Step(s, DeleteEntry(2)) == []
  {
    var a1, a2, a3 := AddEntry(d1, start, end, breakMinutes), AddEntry(d2, start, end, breakMinutes), AddEntry(d3, start, end, breakMinutes);
    IdsRepeatFor(a1, a2, a3);
  }

  lemma IdsRepeatFor(a1: Action, a2: Action, a3: Action)
    requires a1.AddEntry? && WorkedMinutes(a1.start, a1.end, a1.breakMinutes) > 0
    requires a2.AddEntry? && WorkedMinutes(a2.start, a2.end, a2.breakMinutes) > 0
    requires a3.AddEntry? && WorkedMinutes(a3.start, a3.end, a3.breakMinutes) > 0
    ensures var s := Run([a1, a2, DeleteEntry(1), a3]);
            |s| == 2 && s[0].id == 2 && s[1].id == 2 && Step(s, DeleteEntry(2)) == []
  {
    var s3 := Step(Step(Step([], a1), a2), DeleteEntry(1));
    TwoAddsFromEmpty(a1, a2);
    AddToSingle(s3, a3);
    RunOfFour(a1, a2, DeleteEntry(1), a3);
    DeleteBothOfTwo(Run([a1, a2, DeleteEntry(1), a3]), 2);
  }

  lemma DeleteBothOfTwo(s: seq<Entry>, id: int)
    requires |s| == 2 && s[0].id == id && s[1].id == id
    ensures Step(s, DeleteEntry(id)) == []
  {
    DeleteSharedId(s, id);
  }

  lemma TwoAddsFromEmpty(a1: Action, a2: Action)
    requires a1.AddEntry? && WorkedMinutes(a1.start, a1.end, a1.breakMinutes) > 0
    requires a2.AddEntry? && WorkedMinutes(a2.start, a2.end, a2.breakMinutes) > 0
    ensures var s3 := Step(Step(Step([], a1), a2), DeleteEntry(1));
            |s3| == 1 && s3[0].id == 2
  {
    var s1 := Step([], a1);
    AddStep([], a1);
    assert s1[0] in multiset(s1);
    var s2 := Step(s1, a2);
    AddStep(s1, a2);
    var e2 := Add(s1, a2.date, a2.start, a2.end, a2.breakMinutes).entry;
    DeleteLeavesOnlySecond(s2, s1[0], e2);
    var s3 := Step(s2, DeleteEntry(1));
    assert s3[0] in multiset(s3);
  }

  lemma AddToSingle(s: seq<Entry>, a: Action)
    requires |s| == 1 && s[0].id == 2
    requires a.AddEntry? && WorkedMinutes(a.start, a.end, a.breakMinutes) > 0
    ensures var r := Step(s, a); |r| == 2 && r[0].id == 2 && r[1].id == 2
  {
    AddStep(s, a);
    var r := Step(s, a);
    assert s[0] in multiset(s);
    assert r[0] in multiset(r) && r[1] in multiset(r);
  }

  /** An accepted add grows the list by the new entry, whose id is the old length plus one. */
  lemma AddStep(entries: seq<Entry>, a: Action)
    requires a.AddEntry? && WorkedMinutes(a.start, a.end, a.breakMinutes) > 0
    ensures var added := Add(entries, a.date, a.start, a.end, a.breakMinutes);
            && Step(entries, a) == added.entries
            && |added.entries| == |entries| + 1
            && multiset(added.entries) == multiset(entries) + multiset{added.entry}
            && added.entry.id == |entries| + 1
  {
  }

  lemma DeleteLeavesOnlySecond(s: seq<Entry>, e1: Entry, e2: Entry)
    requires multiset(s) == multiset{e1, e2} && e1.id == 1 && e2.id == 2
    ensures |Delete(s, 1)| == 1 && multiset(Delete(s, 1)) == multiset{e2}
    ensures Step(s, DeleteEntry(1)) == Delete(s, 1)
  {
    var r := Delete(s, 1);
    forall e
      ensures multiset(r)[e] == multiset{e2}[e]
    {
    }
    assert multiset(r) == multiset{e2};
    assert |multiset(r)| == |r|;
  }

  /** When every entry carries `id`, deleting `id` empties the list. */
  lemma DeleteSharedId(s: seq<Entry>, id: int)
    requires forall i :: 0 <= i < |s| ==> s[i].id == id
    ensures Step(s, DeleteEntry(id)) == []
  {
    var r := Delete(s, id);
    forall e: Entry
      ensures multiset(r)[e] == 0
    {
    }
    assert multiset(r) == multiset{};
  }

  lemma RunOfFour(a1: Action, a2: Action, a3: Action, a4: Action)
    ensures Run([a1, a2, a3, a4]) == Step(Step(Step(Step([], a1), a2), a3), a4)
  {
    assert [a1, a2, a3, a4] == [a1] + [a2, a3, a4];
    RunFromCons([], a1, [a2, a3, a4]);
    RunOfThree(Step([], a1), a2, a3, a4);
  }

  lemma RunOfThree(s: seq<Entry>, a2: Action, a3: Action, a4: Action)
    ensures RunFrom(s, [a2, a3, a4]) == Step(Step(Step(s, a2), a3), a4)
  {
    assert [a2, a3, a4] == [a2] + [a3, a4];
    RunFromCons(s, a2, [a3, a4]);
    RunOfTwo(Step(s, a2), a3, a4);
  }

  lemma RunOfTwo(s: seq<Entry>, a3: Action, a4: Action)
    ensures RunFrom(s, [a3, a4]) == Step(Step(s, a3), a4)
  {
    assert [a3, a4] == [a3] + [a4];
    RunFromCons(s, a3, [a4]);
    assert [a4] == [a4] + [];
    RunFromCons(Step(s, a3), a4, []);
  }

  /** Running `a` and then `rest` is one step followed by the rest. */
  lemma RunFromCons(entries: seq<Entry>, a: Action, rest: seq<Action>)
    ensures RunFrom(entries, [a] + rest) == RunFrom(Step(entries, a), rest)
  {
    assert ([a] + rest)[1..] == rest;
  }
}
