/**
 * Ledger entries (`Entry` in src/main.rs), their overlap test and the order that
 * `#[derive(Ord)]` gives them: start, then end, then comment, where no comment
 * sorts before any comment and comments compare character by character.
 */
module Entries {
  import opened Wrappers
  import opened Durations

  /** A clocked span of time, from `start` to `end` in minutes, with an optional comment. */
  datatype Entry = Entry(start: int, end: int, comment: Option<string>)

  /** `Entry::duration`: the span from start to end as a duration. */
  function Duration(e: Entry): (d: HumanDuration)
    ensures TotalMinutes(d) == e.end - e.start
    ensures e.start <= e.end ==> Normalized(d) && d.hours >= 0
  {
    FromSpan(e.end - e.start)
  }

  /**
   * `entries_overlap`: an endpoint of one entry lies strictly inside the other.
   * Overlapping entries that do not run backwards share some time, and every
   * comparison is strict, so two entries with the same start and end never overlap.
   */
  predicate EntriesOverlap(e1: Entry, e2: Entry)
    ensures e1.start <= e1.end && e2.start <= e2.end && EntriesOverlap(e1, e2) ==>
      e1.start < e2.end && e2.start < e1.end
    ensures e1.start == e2.start && e1.end == e2.end ==> !EntriesOverlap(e1, e2)
  {
    (e1.start > e2.start && e1.start < e2.end)
    || (e1.end > e2.start && e1.end < e2.end)
    || (e2.start > e1.start && e2.start < e1.end)
    || (e2.end > e1.start && e2.end < e1.end)
  }

  lemma OverlapSymmetric(e1: Entry, e2: Entry)
    ensures EntriesOverlap(e1, e2) == EntriesOverlap(e2, e1)
  {
  }

  /** An entry that ends exactly when another starts does not overlap it. */
  lemma TouchingDoNotOverlap(e1: Entry, e2: Entry)
    requires e1.start <= e1.end && e2.start <= e2.end
    requires e1.end == e2.start
    ensures !EntriesOverlap(e1, e2)
  {
  }

  /**
   * For entries of positive length, the test finds every pair of intersecting
   * spans except the pair of identical spans.
   */
  lemma OverlapCharacterized(e1: Entry, e2: Entry)
    requires e1.start < e1.end && e2.start < e2.end
    ensures EntriesOverlap(e1, e2) <==>
      e1.start < e2.end && e2.start < e1.end && !(e1.start == e2.start && e1.end == e2.end)
  {
  }

  // ---------------------------------------------------------------------------
  // The derived order
  // ---------------------------------------------------------------------------

  /** Lexicographic order on strings, character by character. */
  predicate StringLe(a: string, b: string)
    decreases |a|
  {
    |a| == 0 || (|b| > 0 && (a[0] < b[0] || (a[0] == b[0] && StringLe(a[1..], b[1..]))))
  }

  /** `Option<String>`'s order: `None` first. */
  predicate CommentLe(a: Option<string>, b: Option<string>) {
    match (a, b)
    case (None, _) => true
    case (Some(_), None) => false
    case (Some(x), Some(y)) => StringLe(x, y)
  }

  /** The derived order on entries. */
  predicate EntryLe(a: Entry, b: Entry) {
    a.start < b.start
    || (a.start == b.start && (a.end < b.end || (a.end == b.end && CommentLe(a.comment, b.comment))))
  }

  lemma {:induction false} StringLeTotal(a: string, b: string)
    ensures StringLe(a, b) || StringLe(b, a)
    decreases |a|
  {
    if |a| > 0 && |b| > 0 && a[0] == b[0] {
      StringLeTotal(a[1..], b[1..]);
    }
  }

  lemma {:induction false} StringLeAntisymmetric(a: string, b: string)
    requires StringLe(a, b) && StringLe(b, a)
    ensures a == b
    decreases |a|
  {
    if |a| > 0 {
      StringLeAntisymmetric(a[1..], b[1..]);
      assert a == [a[0]] + a[1..] && b == [b[0]] + b[1..];
    }
  }

  lemma {:induction false} StringLeTransitive(a: string, b: string, c: string)
    requires StringLe(a, b) && StringLe(b, c)
    ensures StringLe(a, c)
    decreases |a|
  {
    if |a| > 0 && a[0] == b[0] && b[0] == c[0] {
      StringLeTransitive(a[1..], b[1..], c[1..]);
    }
  }

  lemma EntryLeTotal(a: Entry, b: Entry)
    ensures EntryLe(a, b) || EntryLe(b, a)
  {
    if a.comment.Some? && b.comment.Some? {
      StringLeTotal(a.comment.value, b.comment.value);
    }
  }

  lemma EntryLeAntisymmetric(a: Entry, b: Entry)
    requires EntryLe(a, b) && EntryLe(b, a)
    ensures a == b
  {
    if a.comment.Some? && b.comment.Some? {
      StringLeAntisymmetric(a.comment.value, b.comment.value);
    }
  }

  lemma EntryLeTransitive(a: Entry, b: Entry, c: Entry)
    requires EntryLe(a, b) && EntryLe(b, c)
    ensures EntryLe(a, c)
  {
    if a.start == b.start == c.start && a.end == b.end == c.end
      && a.comment.Some? && b.comment.Some? && c.comment.Some?
    {
      StringLeTransitive(a.comment.value, b.comment.value, c.comment.value);
    }
  }

  predicate Sorted(s: seq<Entry>) {
    forall i, j :: 0 <= i < j < |s| ==> EntryLe(s[i], s[j])
  }

  // ---------------------------------------------------------------------------
  // Sorting (`Vec::sort` under the derived order)
  // ---------------------------------------------------------------------------

  function Insert(x: Entry, s: seq<Entry>): (r: seq<Entry>)
    ensures multiset(r) == multiset(s) + multiset{x}
  {
    if s == [] then [x]
    else if EntryLe(x, s[0]) then [x] + s
    else
      assert s == [s[0]] + s[1..];
      [s[0]] + Insert(x, s[1..])
  }

  lemma {:induction false} InsertSorted(x: Entry, s: seq<Entry>)
    requires Sorted(s)
    ensures Sorted(Insert(x, s))
  {
    if s == [] {
    } else if EntryLe(x, s[0]) {
      forall j | 0 <= j < |s| ensures EntryLe(x, s[j]) {
        if j > 0 {
          EntryLeTransitive(x, s[0], s[j]);
        }
      }
    } else {
      EntryLeTotal(x, s[0]);
      var t := Insert(x, s[1..]);
      InsertSorted(x, s[1..]);
      forall y | y in t ensures EntryLe(s[0], y) {
        assert y in multiset(t);
        assert y == x || y in multiset(s[1..]);
      }
      assert Insert(x, s) == [s[0]] + t;
    }
  }

  /** The entries in the derived order: a sorted permutation of the input. */
  function SortEntries(s: seq<Entry>): (r: seq<Entry>)
    ensures Sorted(r)
    ensures multiset(r) == multiset(s)
  {
    if s == [] then []
    else
      assert s == s[..|s| - 1] + [s[|s| - 1]];
      InsertSorted(s[|s| - 1], SortEntries(s[..|s| - 1]));
      Insert(s[|s| - 1], SortEntries(s[..|s| - 1]))
  }

  /** Under a total order the sorted arrangement of a multiset is unique. */
  lemma {:induction false} SortedUnique(s: seq<Entry>, t: seq<Entry>)
    requires Sorted(s) && Sorted(t)
    requires multiset(s) == multiset(t)
    ensures s == t
    decreases |s|
  {
    if s != [] {
      SortedHeadsEqual(s, t);
      TailsSameMultiset(s, t);
      SortedSlice(s, 1, |s|);
      SortedSlice(t, 1, |t|);
      SortedUnique(s[1..], t[1..]);
      assert s == [s[0]] + s[1..] && t == [t[0]] + t[1..];
    } else {
      assert |t| == |multiset(t)| == 0;
    }
  }

  lemma TailsSameMultiset(s: seq<Entry>, t: seq<Entry>)
    requires s != [] && t != [] && s[0] == t[0] && multiset(s) == multiset(t)
    ensures multiset(s[1..]) == multiset(t[1..])
  {
    assert s == [s[0]] + s[1..] && t == [t[0]] + t[1..];
    assert multiset(s[1..]) == multiset(s) - multiset{s[0]};
    assert multiset(t[1..]) == multiset(t) - multiset{t[0]};
  }

  lemma SortedSlice(s: seq<Entry>, lo: int, hi: int)
    requires Sorted(s) && 0 <= lo <= hi <= |s|
    ensures Sorted(s[lo..hi])
    ensures lo == 1 && hi == |s| ==> Sorted(s[1..])
  {
  }

  /** The first element of a sorted sequence is determined by its multiset. */
  lemma SortedHeadsEqual(s: seq<Entry>, t: seq<Entry>)
    requires Sorted(s) && Sorted(t)
    requires multiset(s) == multiset(t) && s != [] && t != []
    ensures s[0] == t[0]
  {
    assert s[0] in multiset(t) && t[0] in multiset(s);
    var i :| 0 <= i < |t| && t[i] == s[0];
    var j :| 0 <= j < |s| && s[j] == t[0];
    if i > 0 && j > 0 {
      EntryLeAntisymmetric(s[0], t[0]);
    }
  }

  /** Sorting is idempotent and ignores the order it is given the entries in. */
  lemma SortEntriesCanonical(s: seq<Entry>, t: seq<Entry>)
    requires multiset(s) == multiset(t)
    ensures SortEntries(s) == SortEntries(t)
    ensures Sorted(s) ==> SortEntries(s) == s
  {
    SortedUnique(SortEntries(s), SortEntries(t));
    if Sorted(s) {
      SortedUnique(SortEntries(s), s);
    }
  }

  /** `entries.sort()`: sorts the array in place into the order `SortEntries` specifies. */
  method SortInPlace(a: array<Entry>)
    modifies a
    ensures a[..] == SortEntries(old(a[..]))
  {
    var i := 0;
    while i < a.Length
      invariant 0 <= i <= a.Length
      invariant Sorted(a[..i])
      invariant multiset(a[..]) == multiset(old(a[..]))
    {
      InsertNext(a, i);
      i := i + 1;
    }
    assert a[..a.Length] == a[..];
    SortEntriesCanonical(old(a[..]), a[..]);
    SortedUnique(a[..], SortEntries(old(a[..])));
  }

  /** Moves `a[i]` left past every greater entry, extending the sorted prefix by one. */
  method InsertNext(a: array<Entry>, i: int)
    requires 0 <= i < a.Length
    requires Sorted(a[..i])
    modifies a
    ensures Sorted(a[..i + 1])
    ensures multiset(a[..]) == multiset(old(a[..]))
  {
    var j := i;
    assert SortedExcept(a[..], j, i);
    while j > 0 && !EntryLe(a[j - 1], a[j])
      invariant 0 <= j <= i
      invariant multiset(a[..]) == multiset(old(a[..]))
      invariant SortedExcept(a[..], j, i)
    {
      ghost var before := a[..];
      a[j - 1], a[j] := a[j], a[j - 1];
      SwapStep(before, j, i);
      assert a[..] == before[j - 1 := before[j]][j := before[j - 1]];
      j := j - 1;
    }
    SortedExceptDone(a[..], j, i);
  }

  /**
   * Every pair of `s[..i + 1]` is in order except the pairs involving `s[j]`,
   * and `s[j]` is in order with everything after it.
   */
  ghost predicate SortedExcept(s: seq<Entry>, j: int, i: int)
    requires 0 <= j <= i < |s|
  {
    (forall k, l :: 0 <= k < l <= i && k != j && l != j ==> EntryLe(s[k], s[l]))
    && (forall l :: j < l <= i ==> EntryLe(s[j], s[l]))
  }

  lemma SwapStep(s: seq<Entry>, j: int, i: int)
    requires 0 < j <= i < |s|
    requires SortedExcept(s, j, i) && !EntryLe(s[j - 1], s[j])
    ensures SortedExcept(s[j - 1 := s[j]][j := s[j - 1]], j - 1, i)
    ensures multiset(s[j - 1 := s[j]][j := s[j - 1]]) == multiset(s)
  {
    EntryLeTotal(s[j - 1], s[j]);
  }

  lemma SortedExceptDone(s: seq<Entry>, j: int, i: int)
    requires 0 <= j <= i < |s|
    requires SortedExcept(s, j, i)
    requires j > 0 ==> EntryLe(s[j - 1], s[j])
    ensures Sorted(s[..i + 1])
  {
    forall k, l | 0 <= k < l <= i ensures EntryLe(s[k], s[l]) {
      if l == j && k < j - 1 {
        EntryLeTransitive(s[k], s[j - 1], s[j]);
      }
    }
  }
}
