/** The free gaps of a range of numbers around a sorted list of unavailable ones. */
module FreeGaps {
  import opened Sorting

  ghost predicate Within(values: seq<int>, first: int, last: int) {
    forall v :: v in values ==> first <= v <= last
  }

  // ---- gaps

  datatype Gap = Gap(start: int, end: int, count: int)

  ghost predicate Covers(gaps: seq<Gap>, v: int) {
    exists i :: 0 <= i < |gaps| && gaps[i].start <= v <= gaps[i].end
  }

  /** Non-empty stretches of [first, end), in order, with at least one number between neighbours. */
  ghost predicate InOrder(gaps: seq<Gap>, first: int, end: int) {
    && (forall i :: 0 <= i < |gaps| ==> first <= gaps[i].start <= gaps[i].end < end)
    && (forall i :: 0 <= i < |gaps| ==> gaps[i].count == gaps[i].end - gaps[i].start + 1)
    && (forall i, j :: 0 <= i < j < |gaps| ==> gaps[i].end + 1 < gaps[j].start)
  }

  /** A gap cannot be extended: it touches an end of the range or an unavailable number on both sides. */
  ghost predicate Maximal(gaps: seq<Gap>, first: int, end: int, taken: seq<int>) {
    forall i :: 0 <= i < |gaps| ==>
      && (gaps[i].start == first || gaps[i].start - 1 in taken)
      && (gaps[i].end + 1 == end || gaps[i].end + 1 in taken)
  }

  /** Together the gaps are the range without the unavailable numbers. */
  ghost predicate Exact(gaps: seq<Gap>, first: int, end: int, taken: seq<int>) {
    forall v :: first <= v < end ==> (Covers(gaps, v) <==> v !in taken)
  }

  ghost predicate AreGaps(gaps: seq<Gap>, first: int, end: int, taken: seq<int>) {
    InOrder(gaps, first, end) && Maximal(gaps, first, end, taken) && Exact(gaps, first, end, taken)
  }

  function TotalCount(gaps: seq<Gap>): int {
    if |gaps| == 0 then 0 else TotalCount(gaps[..|gaps| - 1]) + gaps[|gaps| - 1].count
  }

  lemma CoversMore(gaps: seq<Gap>, gap: Gap, v: int)
    ensures Covers(gaps + [gap], v) <==> Covers(gaps, v) || gap.start <= v <= gap.end
  {
    var more := gaps + [gap];
    if Covers(gaps, v) {
      var i :| 0 <= i < |gaps| && gaps[i].start <= v <= gaps[i].end;
      assert more[i] == gaps[i];
    }
    if gap.start <= v <= gap.end {
      assert more[|gaps|] == gap;
    }
  }

  /** What the loop keeps: everything before the cursor is settled, and a taken number is just behind it. */
  ghost predicate Settled(gaps: seq<Gap>, first: int, cursor: int, taken: seq<int>) {
    && first <= cursor
    && AreGaps(gaps, first, cursor, taken)
    && (forall v :: v in taken ==> v < cursor)
    && (forall i :: 0 <= i < |gaps| ==> gaps[i].end + 1 < cursor)
    && (cursor == first || cursor - 1 in taken)
  }

  /** The stretch from the cursor up to a later number is one more gap. */
  lemma CloseGap(gaps: seq<Gap>, first: int, cursor: int, value: int, taken: seq<int>)
    requires Settled(gaps, first, cursor, taken) && cursor < value
    ensures AreGaps(gaps + [Gap(cursor, value - 1, value - cursor)], first, value, taken)
  {
    var gap := Gap(cursor, value - 1, value - cursor);
    var more := gaps + [gap];
    assert Exact(more, first, value, taken) by {
      hide InOrder, Maximal, Covers;
      forall v | first <= v < value
        ensures Covers(more, v) <==> v !in taken
      {
        CoversMore(gaps, gap, v);
        NothingBehind(gaps, first, cursor, taken, v);
      }
    }
    assert InOrder(more, first, value) && Maximal(more, first, value, taken) by {
      hide Exact, Covers;
    }
  }

  lemma NothingBehind(gaps: seq<Gap>, first: int, cursor: int, taken: seq<int>, v: int)
    requires Settled(gaps, first, cursor, taken)
    ensures cursor <= v ==> !Covers(gaps, v) && v !in taken
  {
  }

  /** The unavailable number that ends the stretch is settled too. */
  lemma PassTaken(gaps: seq<Gap>, first: int, value: int, taken: seq<int>)
    requires AreGaps(gaps, first, value, taken) && first <= value
    requires forall v :: v in taken ==> v < value
    ensures Settled(gaps, first, value + 1, taken + [value])
  {
  }

  lemma Start(first: int, unavailable: seq<int>)
    ensures Settled([], first, first, unavailable[..0]) && TotalCount([]) == 0
  {
  }

  lemma SettledShape(gaps: seq<Gap>, first: int, cursor: int, taken: seq<int>)
    requires Settled(gaps, first, cursor, taken)
    ensures AreGaps(gaps, first, cursor, taken)
    ensures cursor == first || cursor - 1 in taken
  {
  }

  lemma CountMore(gaps: seq<Gap>, gap: Gap)
    ensures TotalCount(gaps + [gap]) == TotalCount(gaps) + gap.count
  {
  }

  method FindGaps(first: int, last: int, unavailable: seq<int>) returns (gaps: seq<Gap>)
    requires first <= last + 1 && StrictlyIncreasing(unavailable)
    requires Within(unavailable, first, last)
    ensures AreGaps(gaps, first, last + 1, unavailable)
    ensures TotalCount(gaps) == last - first + 1 - |unavailable|
  {
    hide *;
    gaps := [];
    var cursor := first;
    Start(first, unavailable);
    for i := 0 to |unavailable|
      invariant first <= cursor <= last + 1
      invariant Settled(gaps, first, cursor, unavailable[..i])
      invariant TotalCount(gaps) == cursor - first - i
    {
      var value := unavailable[i];
      SettledShape(gaps, first, cursor, unavailable[..i]);
      NotYetPassed(unavailable, i, first, last, cursor);
      if value > cursor {
        CloseGap(gaps, first, cursor, value, unavailable[..i]);
        CountMore(gaps, Gap(cursor, value - 1, value - cursor));
        gaps := gaps + [Gap(cursor, value - 1, value - cursor)];
      }
      PassTaken(gaps, first, value, unavailable[..i]);
      cursor := value + 1;
    }
    assert unavailable[..|unavailable|] == unavailable;
    SettledShape(gaps, first, cursor, unavailable);
    if cursor <= last {
      CloseGap(gaps, first, cursor, last + 1, unavailable);
      CountMore(gaps, Gap(cursor, last, last - cursor + 1));
      gaps := gaps + [Gap(cursor, last, last - cursor + 1)];
    }
  }

  lemma NotYetPassed(unavailable: seq<int>, i: nat, first: int, last: int, cursor: int)
    requires i < |unavailable| && StrictlyIncreasing(unavailable)
    requires Within(unavailable, first, last)
    requires first <= cursor && (cursor == first || cursor - 1 in unavailable[..i])
    ensures first <= cursor <= unavailable[i] <= last
    ensures unavailable[..i + 1] == unavailable[..i] + [unavailable[i]]
    ensures forall v :: v in unavailable[..i] ==> v < unavailable[i]
  {
    assert unavailable[i] in unavailable;
  }
}
