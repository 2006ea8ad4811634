/**
 * The monthly summary of `summarize`: entries grouped by the year and month of
 * their start, and for each month the total duration, the number of distinct
 * days worked and the number of entries (`Into<SummaryTableItem>`).
 */
module Summary {
  import opened Durations
  import DurationLaws
  import opened Calendar
  import opened Entries

  /** The month a row is about; its label `%Y/%m %B` sorts like this pair. */
  datatype MonthKey = MonthKey(year: int, month: int)

  /** The year and month of an entry's start date. */
  function MonthOf(e: Entry): (k: MonthKey)
    ensures 1 <= k.month <= 12
  {
    var d := DateOf(e.start);
    MonthKey(d.year, d.month)
  }

  /** The day an entry starts on lies within the month of its key. */
  lemma MonthOfContainsStart(e: Entry)
    ensures ValidDate(Date(MonthOf(e).year, MonthOf(e).month, 1))
    ensures DayNumber(Date(MonthOf(e).year, MonthOf(e).month, 1)) <= e.start / MinutesPerDay
      < DayNumber(Date(MonthOf(e).year, MonthOf(e).month, 1)) + MonthLength(MonthOf(e).year, MonthOf(e).month)
  {
    var d := DateOf(e.start);
    assert DayNumber(d) == e.start / MinutesPerDay;
  }

  predicate KeyLess(a: MonthKey, b: MonthKey) {
    a.year < b.year || (a.year == b.year && a.month < b.month)
  }

  /** The entries of `es` that start in month `k`, in their order in `es`. */
  function InMonth(es: seq<Entry>, k: MonthKey): (g: seq<Entry>)
    ensures |g| <= |es|
  {
    if es == [] then []
    else
      var last := es[|es| - 1];
      InMonth(es[..|es| - 1], k) + (if MonthOf(last) == k then [last] else [])
  }

  /** A month's group holds exactly the entries that start in that month. */
  lemma {:induction false} InMonthMembers(es: seq<Entry>, k: MonthKey)
    ensures forall x :: x in InMonth(es, k) <==> x in es && MonthOf(x) == k
  {
    if es != [] {
      var init, last := es[..|es| - 1], es[|es| - 1];
      InMonthMembers(init, k);
      assert es == init + [last];
    }
  }

  /** A month's entries keep the order they have in the ledger. */
  lemma {:induction false} InMonthSorted(es: seq<Entry>, k: MonthKey)
    requires Sorted(es)
    ensures Sorted(InMonth(es, k))
  {
    if es != [] {
      var init, last := es[..|es| - 1], es[|es| - 1];
      SortedSlice(es, 0, |es| - 1);
      InMonthSorted(init, k);
      InMonthMembers(init, k);
      var g := InMonth(init, k);
      forall x | x in g ensures EntryLe(x, last) {
        var i :| 0 <= i < |init| && init[i] == x;
        assert init[i] == es[i];
      }
      var r := g + (if MonthOf(last) == k then [last] else []);
      assert InMonth(es, k) == r;
      forall i, j | 0 <= i < j < |r| ensures EntryLe(r[i], r[j]) {
        if j == |g| {
          assert r[i] in g;
        }
      }
    }
  }

  /**
   * The grouping loop of `summarize`: each entry is pushed onto its month's
   * group, and a month's group is created by its first entry.
   */
  method GroupByMonth(es: seq<Entry>) returns (groups: map<MonthKey, seq<Entry>>)
    ensures forall k :: k in groups <==> exists e :: e in es && MonthOf(e) == k
    ensures forall k :: k in groups ==> groups[k] == InMonth(es, k)
  {
    groups := map[];
    for i := 0 to |es|
      invariant GroupsOf(groups, es[..i])
    {
      var e := es[i];
      var k := MonthOf(e);
      assert es[..i + 1] == es[..i] + [e];
      GroupStep(groups, es[..i], e);
      if k in groups {
        groups := groups[k := groups[k] + [e]];
      } else {
        groups := groups[k := [e]];
      }
    }
    assert es[..|es|] == es;
    forall k ensures k in groups <==> exists e :: e in es && MonthOf(e) == k {
      InMonthMembers(es, k);
      if InMonth(es, k) != [] {
        assert InMonth(es, k)[0] in InMonth(es, k);
      }
    }
  }

  /** `groups` holds one group per month of `es`, each that month's entries in order. */
  ghost predicate GroupsOf(groups: map<MonthKey, seq<Entry>>, es: seq<Entry>) {
    forall k :: (k in groups <==> InMonth(es, k) != []) && (k in groups ==> groups[k] == InMonth(es, k))
  }

  lemma GroupStep(groups: map<MonthKey, seq<Entry>>, es: seq<Entry>, e: Entry)
    requires GroupsOf(groups, es)
    ensures MonthOf(e) in groups ==> GroupsOf(groups[MonthOf(e) := groups[MonthOf(e)] + [e]], es + [e])
    ensures MonthOf(e) !in groups ==> GroupsOf(groups[MonthOf(e) := [e]], es + [e])
  {
    forall j ensures InMonth(es + [e], j) == InMonth(es, j) + (if MonthOf(e) == j then [e] else []) {
      InMonthSnoc(es, e, j);
    }
  }

  lemma InMonthSnoc(es: seq<Entry>, e: Entry, k: MonthKey)
    ensures InMonth(es + [e], k) == InMonth(es, k) + (if MonthOf(e) == k then [e] else [])
  {
    assert (es + [e])[..|es|] == es;
  }

  // ---------------------------------------------------------------------------
  // Distinct days (`Vec::dedup`)
  // ---------------------------------------------------------------------------

  /** `Vec::dedup`: drops every element equal to the one before it. */
  function Dedup(s: seq<int>): (r: seq<int>)
    ensures |r| <= |s|
    ensures s != [] ==> r != [] && r[|r| - 1] == s[|s| - 1]
  {
    if |s| <= 1 then s
    else
      var d := Dedup(s[..|s| - 1]);
      if s[|s| - 1] == s[|s| - 2] then d else d + [s[|s| - 1]]
  }

  lemma DedupSnoc(s: seq<int>, r: nat)
    requires 1 <= r < |s|
    ensures Dedup(s[..r + 1]) == if s[r] == s[r - 1] then Dedup(s[..r]) else Dedup(s[..r]) + [s[r]]
  {
    assert s[..r + 1][..r] == s[..r];
  }

  /** Dropping repeats loses no value. */
  lemma {:induction false} DedupMembers(s: seq<int>)
    ensures forall x :: x in Dedup(s) <==> x in s
  {
    if |s| > 1 {
      var init := s[..|s| - 1];
      DedupMembers(init);
      assert s == init + [s[|s| - 1]];
      assert s[|s| - 2] in init;
    }
  }

  /** `dates.dedup()` on a vector of day numbers, in place; the kept prefix has length `len`. */
  method DedupInPlace(a: array<int>) returns (len: nat)
    modifies a
    ensures len <= a.Length
    ensures a[..len] == Dedup(old(a[..]))
  {
    if a.Length == 0 {
      return 0;
    }
    ghost var s := a[..];
    len := 1;
    var r := 1;
    assert a[..1] == s[..1];
    while r < a.Length
      invariant 1 <= len <= r <= a.Length
      invariant a[..len] == Dedup(s[..r])
      invariant a[r..] == s[r..]
    {
      DedupSnoc(s, r);
      ghost var kept := a[..len];
      assert a[r] == s[r] && a[len - 1] == s[r - 1];
      if a[r] != a[len - 1] {
        a[len] := a[r];
        assert a[..len + 1] == kept + [s[r]];
        len := len + 1;
      }
      assert a[r + 1..] == s[r + 1..];
      r := r + 1;
    }
    assert s[..a.Length] == s;
  }

  ghost function Elements(s: seq<int>): set<int> {
    set x | x in s
  }

  predicate NonDecreasing(s: seq<int>) {
    forall i, j :: 0 <= i < j < |s| ==> s[i] <= s[j]
  }

  predicate Increasing(s: seq<int>) {
    forall i, j :: 0 <= i < j < |s| ==> s[i] < s[j]
  }

  lemma {:induction false} DedupIncreasing(s: seq<int>)
    requires NonDecreasing(s)
    ensures Increasing(Dedup(s))
  {
    if |s| > 1 {
      var init := s[..|s| - 1];
      DedupIncreasing(init);
      DedupMembers(init);
      var d := Dedup(init);
      forall x | x in d ensures x <= s[|s| - 1] {
        var i :| 0 <= i < |init| && init[i] == x;
      }
      if s[|s| - 1] != s[|s| - 2] {
        var r := d + [s[|s| - 1]];
        forall i, j | 0 <= i < j < |r| ensures r[i] < r[j] {
          if j == |d| {
            assert r[i] in d;
            assert r[i] <= s[|s| - 2] < s[|s| - 1];
          }
        }
      }
    }
  }

  lemma {:induction false} IncreasingDistinct(s: seq<int>)
    requires Increasing(s)
    ensures |Elements(s)| == |s|
  {
    if s != [] {
      var init := s[..|s| - 1];
      IncreasingDistinct(init);
      assert Elements(s) == Elements(init) + {s[|s| - 1]};
      assert s[|s| - 1] !in Elements(init);
    }
  }

  /** On sorted input `dedup` leaves exactly one copy of every value. */
  lemma DedupCountsDistinct(s: seq<int>)
    requires NonDecreasing(s)
    ensures |Dedup(s)| == |Elements(s)|
    ensures s != [] ==> 1 <= |Dedup(s)|
  {
    DedupIncreasing(s);
    IncreasingDistinct(Dedup(s));
    DedupMembers(s);
    assert Elements(Dedup(s)) == Elements(s);
  }

  // ---------------------------------------------------------------------------
  // The summary row of a month
  // ---------------------------------------------------------------------------

  /** The fold of `+` over the entries' durations, starting from zero. */
  function TotalDuration(g: seq<Entry>): HumanDuration {
    if g == [] then Zero()
    else Add(TotalDuration(g[..|g| - 1]), Duration(g[|g| - 1]))
  }

  /** The summed length in minutes of the entries. */
  function SumSpans(g: seq<Entry>): int {
    if g == [] then 0 else SumSpans(g[..|g| - 1]) + (g[|g| - 1].end - g[|g| - 1].start)
  }

  /**
   * The total is the summed length of the entries, and when no entry ends before
   * it starts it is a well-formed duration: minutes in [0, 60) and hours not negative.
   */
  lemma {:induction false} TotalDurationSums(g: seq<Entry>)
    ensures TotalMinutes(TotalDuration(g)) == SumSpans(g)
    ensures (forall e :: e in g ==> e.start <= e.end) ==>
      Normalized(TotalDuration(g)) && TotalDuration(g).hours >= 0
  {
    if g != [] {
      var init := g[..|g| - 1];
      assert forall e :: e in init ==> e in g;
      TotalDurationSums(init);
      DurationLaws.AddTotal(TotalDuration(init), Duration(g[|g| - 1]));
      if forall e :: e in g ==> e.start <= e.end {
        assert g[|g| - 1] in g;
        DurationLaws.AddNormalized(TotalDuration(init), Duration(g[|g| - 1]));
      }
    }
  }

  /** A line of the summary table, without the floating-point hours per week. */
  datatype SummaryRow = SummaryRow(month: MonthKey, total: HumanDuration, days: nat, nitems: nat)

  /** The day numbers of the entries' starts, one per entry. */
  function StartDays(g: seq<Entry>): (d: seq<int>)
    ensures |d| == |g|
  {
    seq(|g|, i requires 0 <= i < |g| => g[i].start / MinutesPerDay)
  }

  /**
   * The row `Into<SummaryTableItem>` makes of month `k` with entries `g`: it
   * counts every entry, is as long as all of them, and has at least one and at
   * most `|g|` days when there are entries.
   */
  function RowOf(k: MonthKey, g: seq<Entry>): (row: SummaryRow)
    ensures row.month == k && row.nitems == |g|
    ensures TotalMinutes(row.total) == SumSpans(g)
    ensures row.days <= row.nitems
    ensures g != [] ==> row.days >= 1
  {
    var days := Dedup(StartDays(g));
    var total := TotalDuration(g);
    TotalDurationSums(g);
    assert |days| <= |StartDays(g)| == |g|;
    assert g != [] ==> days != [];
    SummaryRow(k, total, |days|, |g|)
  }

  /** `Into<SummaryTableItem>`: collects the start dates, dedups them and folds the durations. */
  method SummarizeGroup(k: MonthKey, g: seq<Entry>) returns (row: SummaryRow)
    ensures row == RowOf(k, g)
  {
    var dates := new int[|g|](i requires 0 <= i < |g| => g[i].start / MinutesPerDay);
    assert dates[..] == StartDays(g);
    var days := DedupInPlace(dates);
    var total := Zero();
    for i := 0 to |g|
      invariant total == TotalDuration(g[..i])
    {
      assert g[..i + 1][..i] == g[..i];
      total := Add(total, Duration(g[i]));
    }
    assert g[..|g|] == g;
    row := SummaryRow(k, total, days, |g|);
  }

  /**
   * For a sorted month, `days` is the number of distinct start dates, at least
   * one and at most the number of entries.
   */
  lemma RowDays(k: MonthKey, g: seq<Entry>)
    requires Sorted(g) && g != []
    ensures RowOf(k, g).days == |Elements(StartDays(g))|
    ensures 1 <= RowOf(k, g).days <= RowOf(k, g).nitems
  {
    var d := StartDays(g);
    forall i, j | 0 <= i < j < |d| ensures d[i] <= d[j] {
      assert EntryLe(g[i], g[j]);
      DayNumberMonotone(g[i].start, g[j].start);
    }
    DedupCountsDistinct(d);
  }

  // ---------------------------------------------------------------------------
  // The table: one row per month, in month order
  // ---------------------------------------------------------------------------

  predicate StrictlySorted(rows: seq<SummaryRow>) {
    forall i, j :: 0 <= i < j < |rows| ==> KeyLess(rows[i].month, rows[j].month)
  }

  predicate DistinctMonths(rows: seq<SummaryRow>) {
    forall i, j :: 0 <= i < j < |rows| ==> rows[i].month != rows[j].month
  }

  /** Inserts a row before the first row whose month is not earlier. */
  function InsertRow(x: SummaryRow, rows: seq<SummaryRow>): (r: seq<SummaryRow>)
    ensures |r| == |rows| + 1
    ensures forall y :: y in r <==> y == x || y in rows
  {
    if rows == [] then [x]
    else if !KeyLess(rows[0].month, x.month) then [x] + rows
    else
      assert rows == [rows[0]] + rows[1..];
      [rows[0]] + InsertRow(x, rows[1..])
  }

  lemma {:induction false} InsertRowStrict(x: SummaryRow, rows: seq<SummaryRow>)
    requires StrictlySorted(rows)
    requires forall y :: y in rows ==> y.month != x.month
    ensures StrictlySorted(InsertRow(x, rows))
  {
    if rows != [] && KeyLess(rows[0].month, x.month) {
      var tail := rows[1..];
      assert forall y :: y in tail ==> y in rows;
      InsertRowStrict(x, tail);
      var t := InsertRow(x, tail);
      forall y | y in t ensures KeyLess(rows[0].month, y.month) {
        if y != x {
          var k :| 0 <= k < |tail| && tail[k] == y;
          assert rows[k + 1] == y;
        }
      }
      var r := [rows[0]] + t;
      assert InsertRow(x, rows) == r;
      forall i, j | 0 <= i < j < |r| ensures KeyLess(r[i].month, r[j].month) {
        if i == 0 {
          assert r[j] in t;
        }
      }
    } else if rows != [] {
      assert rows[0].month != x.month;
    }
  }

  /** `table_items.sort()`: the rows by month, built by repeated insertion. */
  function SortRows(rows: seq<SummaryRow>): (r: seq<SummaryRow>)
    ensures |r| == |rows|
    ensures forall y :: y in r <==> y in rows
  {
    if rows == [] then []
    else
      assert rows == rows[..|rows| - 1] + [rows[|rows| - 1]];
      InsertRow(rows[|rows| - 1], SortRows(rows[..|rows| - 1]))
  }

  /** Rows with distinct months come out of the sort in strictly increasing month order. */
  lemma {:induction false} SortRowsStrict(rows: seq<SummaryRow>)
    requires DistinctMonths(rows)
    ensures StrictlySorted(SortRows(rows))
  {
    if rows != [] {
      var init, last := rows[..|rows| - 1], rows[|rows| - 1];
      SortRowsStrict(init);
      forall y | y in SortRows(init) ensures y.month != last.month {
        var k :| 0 <= k < |init| && init[k] == y;
        assert rows[k] == y;
      }
      InsertRowStrict(last, SortRows(init));
    }
  }

  /**
   * What `summarize` prints for the entries `es`, apart from the tail slice: a row
   * for every month that has an entry and for no other, in strictly increasing
   * month order, each the row of that month's entries.
   */
  ghost predicate IsMonthlySummary(rows: seq<SummaryRow>, es: seq<Entry>) {
    StrictlySorted(rows)
    && (forall i :: 0 <= i < |rows| ==>
          rows[i] == RowOf(rows[i].month, InMonth(es, rows[i].month))
          && InMonth(es, rows[i].month) != [])
    && (forall e :: e in es ==> exists i :: 0 <= i < |rows| && rows[i].month == MonthOf(e))
  }

  /**
   * The aggregation of `summarize`: group by month, turn each group into a row as
   * the map is drained, and sort the rows.
   */
  method MonthlySummary(es: seq<Entry>) returns (rows: seq<SummaryRow>)
    ensures IsMonthlySummary(rows, es)
  {
    var groups := GroupByMonth(es);
    var items := CollectRows(groups);
    rows := SortRows(items);
    SortRowsStrict(items);
    forall i | 0 <= i < |rows|
      ensures rows[i] == RowOf(rows[i].month, InMonth(es, rows[i].month))
      ensures InMonth(es, rows[i].month) != []
    {
      assert rows[i] in items;
      var k := rows[i].month;
      assert k in groups;
      var e :| e in es && MonthOf(e) == k;
      MonthWithEntry(es, e);
    }
    forall e | e in es ensures exists i :: 0 <= i < |rows| && rows[i].month == MonthOf(e) {
      assert MonthOf(e) in groups;
      var j :| 0 <= j < |items| && items[j].month == MonthOf(e);
      assert items[j] in rows;
    }
  }

  /** The month of an entry has a non-empty group. */
  lemma MonthWithEntry(es: seq<Entry>, e: Entry)
    requires e in es
    ensures InMonth(es, MonthOf(e)) != []
  {
    InMonthMembers(es, MonthOf(e));
    assert e in InMonth(es, MonthOf(e));
  }

  /** Drains the groups, turning each into its row; the drain order is left open. */
  method CollectRows(groups: map<MonthKey, seq<Entry>>) returns (items: seq<SummaryRow>)
    ensures forall i :: 0 <= i < |items| ==>
      items[i].month in groups && items[i] == RowOf(items[i].month, groups[items[i].month])
    ensures forall k :: k in groups ==> exists i :: 0 <= i < |items| && items[i].month == k
    ensures DistinctMonths(items)
  {
    var rest := groups;
    items := [];
    while rest != map[]
      invariant Drained(groups, rest, items)
      decreases |rest|
    {
      var k :| k in rest;
      var row := SummarizeGroup(k, rest[k]);
      DrainStep(groups, rest, items, k);
      items := items + [row];
      rest := rest - {k};
    }
  }

  /** The rows made so far are those of the groups no longer in `rest`, one per month. */
  ghost predicate Drained(groups: map<MonthKey, seq<Entry>>, rest: map<MonthKey, seq<Entry>>, items: seq<SummaryRow>) {
    (forall k :: k in rest ==> k in groups && rest[k] == groups[k])
    && (forall i :: 0 <= i < |items| ==>
          items[i].month in groups && items[i].month !in rest
          && items[i] == RowOf(items[i].month, groups[items[i].month]))
    && (forall k :: k in groups ==> k in rest || exists i :: 0 <= i < |items| && items[i].month == k)
    && DistinctMonths(items)
  }

  lemma DrainStep(groups: map<MonthKey, seq<Entry>>, rest: map<MonthKey, seq<Entry>>, items: seq<SummaryRow>, k: MonthKey)
    requires Drained(groups, rest, items) && k in rest
    ensures Drained(groups, rest - {k}, items + [RowOf(k, rest[k])])
    ensures |rest - {k}| < |rest|
  {
    var items' := items + [RowOf(k, rest[k])];
    forall k' | k' in groups ensures k' in rest - {k} || exists i :: 0 <= i < |items'| && items'[i].month == k' {
      if k' == k {
        assert items'[|items|].month == k;
      } else if k' !in rest {
        var i :| 0 <= i < |items| && items[i].month == k';
        assert items'[i].month == k';
      }
    }
    assert (rest - {k}).Keys == rest.Keys - {k};
  }

  /** The months of a table are exactly the months in which some entry starts. */
  lemma SummaryMonths(rows: seq<SummaryRow>, es: seq<Entry>)
    requires IsMonthlySummary(rows, es)
    ensures forall k :: k in Months(rows) <==> exists e :: e in es && MonthOf(e) == k
  {
    var ks := Months(rows);
    forall k ensures k in ks <==> exists e :: e in es && MonthOf(e) == k {
      InMonthMembers(es, k);
      if k in ks {
        var i :| 0 <= i < |rows| && ks[i] == k;
        assert InMonth(es, k)[0] in InMonth(es, k);
      }
      if exists e :: e in es && MonthOf(e) == k {
        var e :| e in es && MonthOf(e) == k;
        var i :| 0 <= i < |rows| && rows[i].month == MonthOf(e);
        assert ks[i] == k;
      }
    }
  }

  /** Two tables that both summarize `es` are the same table. */
  lemma MonthlySummaryUnique(r1: seq<SummaryRow>, r2: seq<SummaryRow>, es: seq<Entry>)
    requires IsMonthlySummary(r1, es) && IsMonthlySummary(r2, es)
    ensures r1 == r2
  {
    SummaryMonths(r1, es);
    SummaryMonths(r2, es);
    var m1, m2 := Months(r1), Months(r2);
    KeysUnique(m1, m2);
    forall i | 0 <= i < |r1| ensures r1[i] == r2[i] {
      assert m1[i] == m2[i];
    }
  }

  /** The months of the rows, in order. */
  function Months(rows: seq<SummaryRow>): (ks: seq<MonthKey>)
    ensures |ks| == |rows|
    ensures forall i :: 0 <= i < |rows| ==> ks[i] == rows[i].month
    ensures StrictlySorted(rows) ==> KeysIncreasing(ks)
  {
    seq(|rows|, i requires 0 <= i < |rows| => rows[i].month)
  }

  predicate KeysIncreasing(ks: seq<MonthKey>) {
    forall i, j :: 0 <= i < j < |ks| ==> KeyLess(ks[i], ks[j])
  }

  /** Strictly increasing key sequences with the same members are equal. */
  lemma {:induction false} KeysUnique(a: seq<MonthKey>, b: seq<MonthKey>)
    requires KeysIncreasing(a) && KeysIncreasing(b)
    requires forall k :: k in a <==> k in b
    ensures a == b
    decreases |a|
  {
    if a == [] {
      assert forall i :: 0 <= i < |b| ==> b[i] in b;
    } else {
      assert a[0] in b && b != [];
      assert b[0] in a;
      var i :| 0 <= i < |a| && a[i] == b[0];
      var j :| 0 <= j < |b| && b[j] == a[0];
      assert i == 0 || KeyLess(a[0], b[0]);
      assert j == 0 || KeyLess(b[0], a[0]);
      KeyLessAsymmetric(a[0], b[0]);
      var a', b' := a[1..], b[1..];
      forall k ensures k in a' <==> k in b' {
        if k in a' {
          var p :| 0 <= p < |a'| && a'[p] == k;
          assert KeyLess(a[0], a[p + 1]);
          assert k in b;
          var q :| 0 <= q < |b| && b[q] == k;
          assert q != 0;
          assert b'[q - 1] == k;
        }
        if k in b' {
          var q :| 0 <= q < |b'| && b'[q] == k;
          assert KeyLess(b[0], b[q + 1]);
          assert k in a;
          var p :| 0 <= p < |a| && a[p] == k;
          assert p != 0;
          assert a'[p - 1] == k;
        }
      }
      KeysUnique(a', b');
      assert a == [a[0]] + a' && b == [b[0]] + b';
    }
  }

  lemma KeyLessAsymmetric(x: MonthKey, y: MonthKey)
    ensures !(KeyLess(x, y) && KeyLess(y, x))
    ensures x == y || KeyLess(x, y) || KeyLess(y, x)
  {
  }

  // ---------------------------------------------------------------------------
  // What the table adds up to
  // ---------------------------------------------------------------------------

  /** Every entry is counted in exactly one row: the row of its month. */
  lemma EntryInOneRow(rows: seq<SummaryRow>, es: seq<Entry>, e: Entry)
    requires IsMonthlySummary(rows, es) && e in es
    ensures exists i :: (0 <= i < |rows| && rows[i].month == MonthOf(e)
                         && e in InMonth(es, rows[i].month)
                         && forall j :: 0 <= j < |rows| && j != i ==> rows[j].month != MonthOf(e))
  {
    var i :| 0 <= i < |rows| && rows[i].month == MonthOf(e);
    InMonthMembers(es, MonthOf(e));
    forall j | 0 <= j < |rows| && j != i ensures rows[j].month != MonthOf(e) {
      if j < i {
        assert KeyLess(rows[j].month, rows[i].month);
      } else {
        assert KeyLess(rows[i].month, rows[j].month);
      }
    }
  }

  function SumItems(rows: seq<SummaryRow>): nat {
    if rows == [] then 0 else SumItems(rows[..|rows| - 1]) + rows[|rows| - 1].nitems
  }

  /** The summed sizes of the groups of the months `ks`. */
  function SumGroupSizes(es: seq<Entry>, ks: seq<MonthKey>): nat {
    if ks == [] then 0 else SumGroupSizes(es, ks[..|ks| - 1]) + |InMonth(es, ks[|ks| - 1])|
  }

  predicate DistinctKeys(ks: seq<MonthKey>) {
    forall i, j :: 0 <= i < j < |ks| ==> ks[i] != ks[j]
  }

  lemma {:induction false} SumGroupSizesSnoc(es: seq<Entry>, e: Entry, ks: seq<MonthKey>)
    requires DistinctKeys(ks)
    ensures SumGroupSizes(es + [e], ks) == SumGroupSizes(es, ks) + (if MonthOf(e) in ks then 1 else 0)
  {
    if ks != [] {
      var init := ks[..|ks| - 1];
      SumGroupSizesSnoc(es, e, init);
      InMonthSnoc(es, e, ks[|ks| - 1]);
      assert MonthOf(e) in ks <==> MonthOf(e) in init || MonthOf(e) == ks[|ks| - 1];
      if MonthOf(e) in init {
        var p :| 0 <= p < |init| && init[p] == MonthOf(e);
        assert ks[p] != ks[|ks| - 1];
      }
    }
  }

  /** Groups over distinct months that cover every entry hold every entry once. */
  lemma {:induction false} SumGroupSizesCovers(es: seq<Entry>, ks: seq<MonthKey>)
    requires DistinctKeys(ks)
    requires forall e :: e in es ==> MonthOf(e) in ks
    ensures SumGroupSizes(es, ks) == |es|
  {
    if es == [] {
      SumGroupSizesEmpty(ks);
    } else {
      var init := es[..|es| - 1];
      assert es == init + [es[|es| - 1]];
      assert forall e :: e in init ==> e in es;
      SumGroupSizesCovers(init, ks);
      SumGroupSizesSnoc(init, es[|es| - 1], ks);
    }
  }

  lemma {:induction false} SumGroupSizesEmpty(ks: seq<MonthKey>)
    ensures SumGroupSizes([], ks) == 0
  {
    if ks != [] {
      SumGroupSizesEmpty(ks[..|ks| - 1]);
    }
  }

  lemma {:induction false} SumItemsAsGroups(rows: seq<SummaryRow>, es: seq<Entry>)
    requires forall i :: 0 <= i < |rows| ==> rows[i].nitems == |InMonth(es, rows[i].month)|
    ensures SumItems(rows) == SumGroupSizes(es, seq(|rows|, i requires 0 <= i < |rows| => rows[i].month))
  {
    if rows != [] {
      var init := rows[..|rows| - 1];
      SumItemsAsGroups(init, es);
      var ks := seq(|rows|, i requires 0 <= i < |rows| => rows[i].month);
      assert ks[..|ks| - 1] == seq(|init|, i requires 0 <= i < |init| => init[i].month);
    }
  }

  /** The entry counts of the rows add up to the number of entries summarized. */
  lemma SummaryCountsAddUp(rows: seq<SummaryRow>, es: seq<Entry>)
    requires IsMonthlySummary(rows, es)
    ensures SumItems(rows) == |es|
  {
    var ks := seq(|rows|, i requires 0 <= i < |rows| => rows[i].month);
    SumItemsAsGroups(rows, es);
    forall e | e in es ensures MonthOf(e) in ks {
      var i :| 0 <= i < |rows| && rows[i].month == MonthOf(e);
      assert ks[i] == MonthOf(e);
    }
    forall i, j | 0 <= i < j < |ks| ensures ks[i] != ks[j] {
      assert KeyLess(rows[i].month, rows[j].month);
    }
    SumGroupSizesCovers(es, ks);
  }

  /**
   * Over sorted entries every row counts its distinct start dates, at least one
   * and at most its number of entries, and its total is the summed length of
   * its entries.
   */
  lemma SummaryRowsCounted(rows: seq<SummaryRow>, es: seq<Entry>, i: int)
    requires IsMonthlySummary(rows, es) && Sorted(es)
    requires 0 <= i < |rows|
    ensures 1 <= rows[i].days <= rows[i].nitems
    ensures rows[i].days == |Elements(StartDays(InMonth(es, rows[i].month)))|
    ensures TotalMinutes(rows[i].total) == SumSpans(InMonth(es, rows[i].month))
  {
    var k := rows[i].month;
    InMonthSorted(es, k);
    RowDays(k, InMonth(es, k));
    TotalDurationSums(InMonth(es, k));
  }
}
