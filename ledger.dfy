/**
 * The commands of one namespace as operations on its two files: the entry file,
 * which holds the ledger, and the clock-in file, which holds the start of the
 * running clock. Reading, writing and deleting the files are updates of the two
 * fields; a missing file is `None`.
 */
module LedgerState {
  import opened Wrappers
  import opened Entries
  import opened Store
  import opened Summary

  /** The start and end of an entry clocked for `minutes` minutes (`clock_duration`). */
  function DurationSpan(minutes: int, starting: Option<int>, now: int): (span: (int, int))
    ensures span.1 - span.0 == minutes
    ensures starting.Some? ==> span.0 == starting.value
    ensures starting.None? ==> span.1 == now
  {
    match starting
    case Some(start) => (start, start + minutes)
    case None => (now - minutes, now)
  }

  /**
   * The `.any(..)` scan of `clock`: whether the new entry overlaps one of the
   * entries in `a`, looking at them in order.
   */
  method AnyOverlap(a: array<Entry>, e: Entry) returns (found: bool)
    ensures found <==> exists x :: x in a[..] && EntriesOverlap(e, x)
  {
    var i := 0;
    while i < a.Length
      invariant 0 <= i <= a.Length
      invariant forall k :: 0 <= k < i ==> !EntriesOverlap(e, a[k])
    {
      if EntriesOverlap(e, a[i]) {
        assert a[i] in a[..];
        return true;
      }
      i := i + 1;
    }
    return false;
  }

  class Ledger {
    /** The entry file, `None` when it does not exist. */
    var entries: Option<seq<Entry>>
    /** The clock-in file: the start of the running clock, `None` when it is not running. */
    var clockin: Option<int>

    constructor (entries: Option<seq<Entry>>, clockin: Option<int>)
      ensures this.entries == entries && this.clockin == clockin
    {
      this.entries := entries;
      this.clockin := clockin;
    }

    /** The stored entries; a missing file reads as no entries. */
    function Stored(): seq<Entry>
      reads this
    {
      entries.GetOr([])
    }

    /**
     * No two stored entries overlap. The commands that write entries keep this
     * property, but nothing establishes it: an entry file edited outside the
     * program can break it, so no command requires it.
     */
    ghost predicate NoStoredOverlaps()
      reads this
    {
      NoOverlaps(Stored())
    }

    /**
     * `clock`: sorts the stored entries, refuses the new entry if it overlaps one
     * of them, and otherwise writes them back with the new entry at the end.
     */
    method Clock(start: int, end: int, comment: Option<string>) returns (r: Outcome<Error>)
      modifies this
      ensures var result := Clocked(old(Stored()), Entry(start, end, comment));
        (result.Ok? ==> r == Pass && entries == Some(result.value))
        && (result.Err? ==> r == Fail(result.error) && entries == old(entries))
      ensures clockin == old(clockin)
      ensures old(NoStoredOverlaps()) ==> NoStoredOverlaps()
    {
      var existing := Stored();
      var a := new Entry[|existing|](i requires 0 <= i < |existing| => existing[i]);
      assert a[..] == existing;
      SortInPlace(a);
      ghost var sorted := a[..];
      SameMembers(sorted, existing);
      var e := Entry(start, end, comment);
      var overlapping := AnyOverlap(a, e);
      if overlapping {
        return Fail(Overlap);
      }
      assert Clocked(existing, e) == Ok(sorted + [e]);
      if NoOverlaps(existing) {
        ClockedKeepsNoOverlaps(existing, e);
      }
      entries := Some(a[..] + [e]);
      return Pass;
    }

    /** `clock_duration`: clocks an entry of `minutes` minutes from `starting`, or up to `now`. */
    method ClockDuration(minutes: int, starting: Option<int>, comment: Option<string>, now: int)
      returns (r: Outcome<Error>)
      modifies this
      ensures var (start, end) := DurationSpan(minutes, starting, now);
        var result := Clocked(old(Stored()), Entry(start, end, comment));
        (result.Ok? ==> r == Pass && entries == Some(result.value))
        && (result.Err? ==> r == Fail(result.error) && entries == old(entries))
      ensures clockin == old(clockin)
      ensures old(NoStoredOverlaps()) ==> NoStoredOverlaps()
    {
      var (start, end) := DurationSpan(minutes, starting, now);
      r := Clock(start, end, comment);
    }

    /** `clockin`: starts the clock at `starting`, or at `now`, unless it is already running. */
    method ClockIn(starting: Option<int>, now: int) returns (r: Outcome<Error>)
      modifies this
      ensures old(clockin).Some? ==> r == Fail(AlreadyRunning) && clockin == old(clockin)
      ensures old(clockin).None? ==> r == Pass && clockin == Some(starting.GetOr(now))
      ensures entries == old(entries)
    {
      var timestamp := starting.GetOr(now);
      if clockin.Some? {
        return Fail(AlreadyRunning);
      }
      clockin := Some(timestamp);
      return Pass;
    }

    /**
     * `clockout`: clocks the span from the clock-in time to `now`, and stops the
     * clock only if that entry was stored.
     */
    method ClockOut(comment: Option<string>, now: int) returns (r: Outcome<Error>)
      modifies this
      ensures old(clockin).None? ==>
        r == Fail(NotRunning) && entries == old(entries) && clockin == old(clockin)
      ensures old(clockin).Some? ==>
        var result := Clocked(old(Stored()), Entry(old(clockin).value, now, comment));
        (result.Ok? ==> r == Pass && entries == Some(result.value) && clockin == None)
        && (result.Err? ==> r == Fail(result.error) && entries == old(entries) && clockin == old(clockin))
      ensures old(NoStoredOverlaps()) ==> NoStoredOverlaps()
    {
      if clockin.None? {
        return Fail(NotRunning);
      }
      r := Clock(clockin.value, now, comment);
      if r.Pass? {
        clockin := None;
      }
    }

    /** `abort`: stops the running clock without recording anything. */
    method Abort() returns (r: Outcome<Error>)
      modifies this
      ensures old(clockin).None? ==> r == Fail(NotRunning) && clockin == None
      ensures old(clockin).Some? ==> r == Pass && clockin == None
      ensures entries == old(entries)
    {
      if clockin.None? {
        return Fail(NotRunning);
      }
      clockin := None;
      return Pass;
    }

    /**
     * `show`: the rows of the sorted, filtered entries, cut to the last `tail`;
     * a namespace without an entry file is an error.
     */
    method Show(matches: Option<string -> bool>, tail: nat) returns (r: Result<seq<TableEntry>, Error>)
      ensures entries.None? ==> r == Err(NotFound)
      ensures entries.Some? ==> r == Ok(ShownRows(entries.value, matches, tail))
    {
      if entries.None? {
        return Err(NotFound);
      }
      var stored := entries.value;
      var a := new Entry[|stored|](i requires 0 <= i < |stored| => stored[i]);
      assert a[..] == stored;
      SortInPlace(a);
      var kept := Filter(a[..], matches);
      var rows := seq(|kept|, i requires 0 <= i < |kept| => ToTableEntry(kept[i]));
      return Ok(TailSlice(rows, tail));
    }

    /**
     * `summarize`: the monthly table of the sorted, filtered entries, cut to the
     * last `tail` months; a namespace without an entry file is an error.
     */
    method Summarize(matches: Option<string -> bool>, tail: nat) returns (r: Result<seq<SummaryRow>, Error>)
      ensures entries.None? ==> r == Err(NotFound)
      ensures entries.Some? ==> r.Ok? && exists rows ::
        IsMonthlySummary(rows, Filter(SortEntries(entries.value), matches))
        && r.value == TailSlice(rows, tail)
    {
      if entries.None? {
        return Err(NotFound);
      }
      var stored := entries.value;
      var a := new Entry[|stored|](i requires 0 <= i < |stored| => stored[i]);
      assert a[..] == stored;
      SortInPlace(a);
      var kept := Filter(a[..], matches);
      var rows := MonthlySummary(kept);
      return Ok(TailSlice(rows, tail));
    }
  }
}
