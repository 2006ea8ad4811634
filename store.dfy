/**
 * What `clock`, `show` and `summarize` do with the stored entries of a namespace:
 * the overlap-checked append, the comment filter and the tail slice, as functions
 * of the stored sequence.
 */
module Store {
  import opened Wrappers
  import opened Durations
  import opened Calendar
  import opened Entries

  /** The ways a ledger command fails. */
  datatype Error =
    | AlreadyRunning  // a clock-in marker already exists
    | NotRunning      // there is no clock-in marker
    | Overlap         // the new entry overlaps a stored one
    | NotFound        // the namespace has no entry file

  /** No two stored entries overlap (an entry never overlaps itself). */
  ghost predicate NoOverlaps(s: seq<Entry>) {
    forall x, y :: x in s && y in s ==> !EntriesOverlap(x, y)
  }

  /** Comparing entries by membership is the same as comparing them by position. */
  lemma NoOverlapsByPosition(s: seq<Entry>)
    ensures NoOverlaps(s) <==> forall i, j :: 0 <= i < j < |s| ==> !EntriesOverlap(s[i], s[j])
  {
    if forall i, j :: 0 <= i < j < |s| ==> !EntriesOverlap(s[i], s[j]) {
      forall x, y | x in s && y in s ensures !EntriesOverlap(x, y) {
        var i :| 0 <= i < |s| && s[i] == x;
        var j :| 0 <= j < |s| && s[j] == y;
        if j < i {
          OverlapSymmetric(x, y);
        }
      }
    }
  }

  /**
   * `clock`: the stored entries in sorted order with the new entry pushed at the
   * end, or `Overlap` when the new entry overlaps one of them.
   */
  function Clocked(existing: seq<Entry>, e: Entry): (r: Result<seq<Entry>, Error>)
    ensures r.Err? <==> exists x :: x in existing && EntriesOverlap(e, x)
    ensures r.Err? ==> r.error == Overlap
    ensures r.Ok? ==> |r.value| == |existing| + 1 && r.value[|existing|] == e
  {
    var sorted := SortEntries(existing);
    SameMembers(sorted, existing);
    if exists x :: x in sorted && EntriesOverlap(e, x) then Err(Overlap)
    else
      assert |sorted| == |multiset(sorted)| == |existing|;
      Ok(sorted + [e])
  }

  lemma SameMembers(s: seq<Entry>, t: seq<Entry>)
    requires multiset(s) == multiset(t)
    ensures forall x :: x in s <==> x in t
  {
    forall x ensures x in s <==> x in t {
      assert x in s <==> x in multiset(s);
      assert x in t <==> x in multiset(t);
    }
  }

  /** A successful clock keeps every old entry, sorts them, and adds the new one. */
  lemma ClockedContents(existing: seq<Entry>, e: Entry)
    requires Clocked(existing, e).Ok?
    ensures multiset(Clocked(existing, e).value) == multiset(existing) + multiset{e}
    ensures Sorted(Clocked(existing, e).value[..|existing|])
  {
    var r := Clocked(existing, e).value;
    assert r[..|existing|] == SortEntries(existing);
  }

  /** A ledger whose entries do not overlap keeps that property through a successful clock. */
  lemma ClockedKeepsNoOverlaps(existing: seq<Entry>, e: Entry)
    requires NoOverlaps(existing)
    requires Clocked(existing, e).Ok?
    ensures NoOverlaps(Clocked(existing, e).value)
  {
    var r := Clocked(existing, e).value;
    ClockedContents(existing, e);
    forall x, y | x in r && y in r ensures !EntriesOverlap(x, y) {
      assert x in multiset(r) && y in multiset(r);
      if x == e && y != e {
        assert y in existing;
      } else if y == e && x != e {
        assert x in existing;
        OverlapSymmetric(x, e);
      } else if x != e {
        assert x in existing && y in existing;
      }
    }
  }

  /**
   * The check lets a copy of a stored entry in: a ledger without overlaps
   * accepts an entry equal to one it already holds.
   */
  lemma ClockedAcceptsCopy(existing: seq<Entry>, e: Entry)
    requires NoOverlaps(existing)
    requires e in existing
    ensures Clocked(existing, e).Ok?
    ensures multiset(Clocked(existing, e).value)[e] == multiset(existing)[e] + 1
  {
    assert forall x :: x in existing ==> !EntriesOverlap(e, x);
    ClockedContents(existing, e);
  }

  /** An entry that starts exactly when the only stored one ends is accepted after it. */
  lemma ClockedBackToBack(a: Entry, b: Entry)
    requires a.start <= a.end && b.start <= b.end && a.end == b.start
    ensures Clocked([a], b) == Ok([a, b])
  {
    TouchingDoNotOverlap(a, b);
    OverlapSymmetric(a, b);
    assert [a][..0] == [];
    assert SortEntries([a]) == Insert(a, SortEntries([])) == [a];
    assert !EntriesOverlap(b, a);
    assert !(exists x :: x in [a] && EntriesOverlap(b, x));
    assert Clocked([a], b).Ok?;
    assert Clocked([a], b).value == [a] + [b] == [a, b];
  }

  /** An entry that starts inside the stored one and ends after it is refused. */
  lemma ClockedRejectsStaggered(a: Entry, b: Entry)
    requires a.start < b.start < a.end < b.end
    ensures Clocked([a], b) == Err(Overlap)
  {
    assert a in [a];
  }

  // ---------------------------------------------------------------------------
  // Comment filter and tail
  // ---------------------------------------------------------------------------

  /**
   * The comment filter of `show` and `summarize`: with a pattern, an entry stays
   * if it has no comment or its comment matches; `matches` stands for
   * `Regex::is_match` of the compiled pattern. Only an entry with a comment can be
   * dropped, and only when there is a pattern.
   */
  predicate Kept(e: Entry, matches: Option<string -> bool>)
    ensures !Kept(e, matches) ==> matches.Some? && e.comment.Some?
  {
    matches.None? || e.comment.None? || matches.value(e.comment.value)
  }

  function Filter(es: seq<Entry>, matches: Option<string -> bool>): (r: seq<Entry>)
    ensures forall x :: x in r <==> x in es && Kept(x, matches)
    ensures |r| <= |es|
  {
    if es == [] then []
    else
      var last := es[|es| - 1];
      assert es == es[..|es| - 1] + [last];
      Filter(es[..|es| - 1], matches) + (if Kept(last, matches) then [last] else [])
  }

  /** Every kept entry survives as often as it occurs, and every other one not at all. */
  lemma {:induction false} FilterCounts(es: seq<Entry>, matches: Option<string -> bool>)
    ensures forall y :: multiset(Filter(es, matches))[y] == if Kept(y, matches) then multiset(es)[y] else 0
  {
    if es != [] {
      var init, last := es[..|es| - 1], es[|es| - 1];
      FilterCounts(init, matches);
      assert es == init + [last];
      assert multiset(es) == multiset(init) + multiset{last};
    }
  }

  /** Without a pattern nothing is dropped. */
  lemma {:induction false} FilterWithoutPattern(es: seq<Entry>)
    ensures Filter(es, None) == es
  {
    if es != [] {
      FilterWithoutPattern(es[..|es| - 1]);
      assert es == es[..|es| - 1] + [es[|es| - 1]];
    }
  }

  /** Filtering keeps the relative order, so a sorted ledger stays sorted. */
  lemma {:induction false} FilterKeepsSorted(es: seq<Entry>, matches: Option<string -> bool>)
    requires Sorted(es)
    ensures Sorted(Filter(es, matches))
  {
    if es != [] {
      var init := es[..|es| - 1];
      SortedSlice(es, 0, |es| - 1);
      FilterKeepsSorted(init, matches);
      var f := Filter(init, matches);
      var last := es[|es| - 1];
      forall x | x in f ensures EntryLe(x, last) {
        var k :| 0 <= k < |init| && init[k] == x;
        assert init[k] == es[k];
      }
      var r := f + (if Kept(last, matches) then [last] else []);
      assert Filter(es, matches) == r;
      forall i, j | 0 <= i < j < |r| ensures EntryLe(r[i], r[j]) {
        if j == |f| {
          assert r[i] in f;
        }
      }
    }
  }

  /**
   * The tail slice of `show` and `summarize`: everything when `tail` is 0,
   * otherwise the last `tail` items, or all of them when there are fewer.
   */
  function TailSlice<T>(s: seq<T>, tail: nat): (r: seq<T>)
    ensures tail == 0 ==> r == s
    ensures tail > 0 ==> |r| == (if tail < |s| then tail else |s|)
    ensures r == s[|s| - |r|..]
  {
    if tail == 0 then s
    else
      var idx := if |s| > tail then |s| - tail else 0;
      s[idx..]
  }

  /** The slice only ever shortens: a longer tail keeps a longer suffix. */
  lemma TailSliceMonotone<T>(s: seq<T>, t1: nat, t2: nat)
    requires 0 < t1 <= t2
    ensures |TailSlice(s, t1)| <= |TailSlice(s, t2)|
    ensures TailSlice(s, t1) == TailSlice(s, t2)[|TailSlice(s, t2)| - |TailSlice(s, t1)|..]
  {
  }

  // ---------------------------------------------------------------------------
  // The rows of `show`
  // ---------------------------------------------------------------------------

  /** A row of the `show` table: date, start and end times of day, duration, comment. */
  datatype TableEntry = TableEntry(date: Date, from: int, to: int, duration: HumanDuration, comment: string)

  /** `Into<TableEntry> for &Entry`: a missing comment is shown as the empty text. */
  function ToTableEntry(e: Entry): (t: TableEntry)
    ensures ValidDate(t.date) && DayNumber(t.date) == e.start / MinutesPerDay
    ensures 0 <= t.from < MinutesPerDay && 0 <= t.to < MinutesPerDay
    ensures At(t.date, t.from) == e.start
    ensures t.to == TimeOfDay(e.end)
    ensures t.duration == Duration(e) && TotalMinutes(t.duration) == e.end - e.start
    ensures e.comment.None? ==> t.comment == ""
    ensures e.comment.Some? ==> t.comment == e.comment.value
  {
    var day, from := e.start / MinutesPerDay, TimeOfDay(e.start);
    assert e.start == day * 1440 + from;
    TableEntry(DateOf(e.start), from, TimeOfDay(e.end), Duration(e), e.comment.GetOr(""))
  }

  /** The rows `show` prints for a stored ledger. */
  function ShownRows(stored: seq<Entry>, matches: Option<string -> bool>, tail: nat): (rows: seq<TableEntry>)
    ensures tail > 0 ==> |rows| <= tail
    ensures |rows| <= |stored|
  {
    var kept := Filter(SortEntries(stored), matches);
    assert |SortEntries(stored)| == |multiset(stored)| == |stored|;
    TailSlice(seq(|kept|, i requires 0 <= i < |kept| => ToTableEntry(kept[i])), tail)
  }

  /**
   * Every row shown is the row of a stored entry the filter keeps, and the rows
   * are in the entries' order.
   */
  lemma ShownRowsFromKeptEntries(stored: seq<Entry>, matches: Option<string -> bool>, tail: nat)
    ensures forall t :: t in ShownRows(stored, matches, tail) ==>
      exists e :: e in stored && Kept(e, matches) && t == ToTableEntry(e)
  {
    var sorted := SortEntries(stored);
    var kept := Filter(sorted, matches);
    var all := seq(|kept|, i requires 0 <= i < |kept| => ToTableEntry(kept[i]));
    forall t | t in ShownRows(stored, matches, tail)
      ensures exists e :: e in stored && Kept(e, matches) && t == ToTableEntry(e)
    {
      var i :| 0 <= i < |all| && all[i] == t;
      assert kept[i] in kept;
      assert kept[i] in multiset(stored);
    }
  }
}
