/**
 * Vertical layout of one day column in the weekly calendar view.
 *
 * Times are whole minutes, already converted to the display timezone.
 * `dayStart` and `dayEnd` are the day at `startHour:00` and `endHour:00`.
 * Every rendered cell is one 60-unit row high, whatever `slotDuration` is,
 * so `topOffsetMinutes` counts rows (times 60), not minutes of the day.
 */
module SlotLayout {
  import opened Wrappers

  /** Height of one rendered row, independent of the slot duration. */
  const OFFSET_INCREMENT: int := 60

  /** One available interval of the day. Nothing requires `start < end`. */
  datatype Interval = Interval(start: int, end: int)

  /** An available interval together with the row it is drawn on. */
  datatype AvailableCell = AvailableCell(slot: Interval, topOffsetMinutes: int)

  /** A synthetic "unavailable" cell starting at `start`. */
  datatype UnavailableCell = UnavailableCell(start: int, topOffsetMinutes: int)

  // ---------------------------------------------------------------------------
  // EmptyCell
  // ---------------------------------------------------------------------------

  /** A grid cell's offset: the row index recovered exactly from the offset. */
  function EmptyCellOffset(slotIndex: int): (r: int)
    ensures r % OFFSET_INCREMENT == 0
    ensures r / OFFSET_INCREMENT == slotIndex
  {
    slotIndex * OFFSET_INCREMENT
  }

  // ---------------------------------------------------------------------------
  // Rounding
  // ---------------------------------------------------------------------------

  /**
   * `Math.floor(missingMinutes / slotDuration)`. With a positive divisor
   * Dafny's Euclidean `/` rounds toward minus infinity, like `Math.floor`.
   */
  function MissingSlots(missingMinutes: int, slotDuration: int): int
    requires slotDuration > 0
  {
    missingMinutes / slotDuration
  }

  /** MissingSlots is the floor: the largest count of whole slots that fits, negative for a negative gap. */
  lemma MissingSlotsIsFloor(missingMinutes: int, slotDuration: int)
    requires slotDuration > 0
    ensures var r := MissingSlots(missingMinutes, slotDuration);
            r * slotDuration <= missingMinutes < (r + 1) * slotDuration
            && (missingMinutes < 0 <==> r < 0)
  {
  }

  /** Number of `slotDuration` steps needed to pass a gap: its ceiling, or 0 for no gap. */
  function SlotsToCover(gap: int, slotDuration: int): (n: nat)
    requires slotDuration > 0
    ensures gap <= 0 ==> n == 0
    ensures gap > 0 ==> (n - 1) * slotDuration < gap <= n * slotDuration
  {
    if gap <= 0 then 0 else (gap + slotDuration - 1) / slotDuration
  }

  lemma CoverUnique(gap: int, d: int, a: int, b: int)
    requires d > 0
    requires (a - 1) * d < gap <= a * d
    requires (b - 1) * d < gap <= b * d
    ensures a == b
  {
    if a < b {
      assert a * d <= (b - 1) * d by { MulMonotone(a, b - 1, d); }
    } else if b < a {
      assert b * d <= (a - 1) * d by { MulMonotone(b, a - 1, d); }
    }
  }

  lemma MulMonotone(x: int, y: int, d: int)
    requires d > 0 && x <= y
    ensures x * d <= y * d
  {
    assert y * d - x * d == (y - x) * d;
  }

  /** Passing one more step of a positive gap costs exactly one more cell. */
  lemma CoverStep(gap: int, d: int)
    requires d > 0 && gap > 0
    ensures SlotsToCover(gap, d) == SlotsToCover(gap - d, d) + 1
  {
    var n := SlotsToCover(gap, d);
    var m := SlotsToCover(gap - d, d);
    if gap - d <= 0 {
      CoverUnique(gap, d, n, 1);
    } else {
      assert (m + 1 - 1) * d < gap <= (m + 1) * d;
      CoverUnique(gap, d, n, m + 1);
    }
  }

  // ---------------------------------------------------------------------------
  // AvailableCellsForDay
  // ---------------------------------------------------------------------------

  /** Rows skipped between the previous interval's end and `start`: only a strictly later start opens a gap. */
  function GapSlots(previousEnd: int, start: int, slotDuration: int): (r: int)
    requires slotDuration > 0
  {
    if start > previousEnd then MissingSlots(start - previousEnd, slotDuration) else 0
  }

  /**
   * The offset AvailableCellsForDay gives to interval `i`: the first one sits
   * on the row of the whole steps between `dayStart` and its start (negative
   * when it starts before `dayStart`); every later one sits one row below its
   * predecessor, plus the whole steps of a gap that opens before it.
   */
  function OffsetAt(slots: seq<Interval>, i: nat, dayStart: int, slotDuration: int): int
    requires i < |slots| && slotDuration > 0
  {
    if i == 0 then MissingSlots(slots[0].start - dayStart, slotDuration) * OFFSET_INCREMENT
    else OffsetAt(slots, i - 1, dayStart, slotDuration) + OFFSET_INCREMENT
         + GapSlots(slots[i - 1].end, slots[i].start, slotDuration) * OFFSET_INCREMENT
  }

  /** Every available offset lies on a row boundary. */
  lemma {:induction false} OffsetOnRow(slots: seq<Interval>, i: nat, dayStart: int, slotDuration: int)
    requires i < |slots| && slotDuration > 0
    ensures OffsetAt(slots, i, dayStart, slotDuration) % OFFSET_INCREMENT == 0
  {
    if i > 0 {
      OffsetOnRow(slots, i - 1, dayStart, slotDuration);
    }
  }

  /** Offsets grow by at least one row per interval, whatever the order or overlap of the intervals. */
  lemma {:induction false} OffsetsIncrease(slots: seq<Interval>, i: nat, j: nat, dayStart: int, slotDuration: int)
    requires i < j < |slots| && slotDuration > 0
    ensures OffsetAt(slots, j, dayStart, slotDuration) >= OffsetAt(slots, i, dayStart, slotDuration) + OFFSET_INCREMENT * (j - i)
    decreases j
  {
    if i < j - 1 {
      OffsetsIncrease(slots, i, j - 1, dayStart, slotDuration);
    }
  }

  /** The first offset is the floor of the leading gap in rows; it is negative, not clamped, before `dayStart`. */
  lemma FirstOffsetUnclamped(slots: seq<Interval>, dayStart: int, slotDuration: int)
    requires |slots| > 0 && slotDuration > 0
    ensures var first := OffsetAt(slots, 0, dayStart, slotDuration) / OFFSET_INCREMENT;
            && first * slotDuration <= slots[0].start - dayStart < (first + 1) * slotDuration
            && (OffsetAt(slots, 0, dayStart, slotDuration) < 0 <==> slots[0].start < dayStart)
  {
    MissingSlotsIsFloor(slots[0].start - dayStart, slotDuration);
  }

  /** All offsets of a day at once: on row boundaries and strictly increasing, a row per interval at least. */
  lemma OffsetsOnIncreasingRows(slots: seq<Interval>, dayStart: int, slotDuration: int)
    requires slotDuration > 0
    ensures forall k :: 0 <= k < |slots| ==> OffsetAt(slots, k, dayStart, slotDuration) % OFFSET_INCREMENT == 0
    ensures forall k, j :: 0 <= k < j < |slots| ==>
              OffsetAt(slots, j, dayStart, slotDuration) >= OffsetAt(slots, k, dayStart, slotDuration) + OFFSET_INCREMENT * (j - k)
  {
    forall k | 0 <= k < |slots| ensures OffsetAt(slots, k, dayStart, slotDuration) % OFFSET_INCREMENT == 0 {
      OffsetOnRow(slots, k, dayStart, slotDuration);
    }
    forall k, j | 0 <= k < j < |slots|
      ensures OffsetAt(slots, j, dayStart, slotDuration) >= OffsetAt(slots, k, dayStart, slotDuration) + OFFSET_INCREMENT * (j - k)
    {
      OffsetsIncrease(slots, k, j, dayStart, slotDuration);
    }
  }

  /**
   * Gives every interval of the day its `topOffsetMinutes`, in input order;
   * None when the day has no entry or an empty list.
   */
  method AvailableCellsForDay(slotsForToday: Option<seq<Interval>>, dayStart: int, slotDuration: int)
    returns (cells: Option<seq<AvailableCell>>)
    requires slotDuration > 0
    ensures cells.None? <==> slotsForToday.None? || |slotsForToday.value| == 0
    ensures cells.Some? ==> |cells.value| == |slotsForToday.value|
    ensures cells.Some? ==> forall i {:trigger cells.value[i]} :: 0 <= i < |cells.value| ==>
              cells.value[i] == AvailableCell(slotsForToday.value[i], OffsetAt(slotsForToday.value, i, dayStart, slotDuration))
    ensures cells.Some? ==> cells.value[0].topOffsetMinutes
                            == MissingSlots(slotsForToday.value[0].start - dayStart, slotDuration) * OFFSET_INCREMENT
    ensures cells.Some? && slotsForToday.value[0].start < dayStart ==> cells.value[0].topOffsetMinutes < 0
    ensures cells.Some? ==> forall i :: 0 < i < |cells.value| && slotsForToday.value[i].start <= slotsForToday.value[i - 1].end ==>
              cells.value[i].topOffsetMinutes == cells.value[i - 1].topOffsetMinutes + OFFSET_INCREMENT
    ensures cells.Some? ==> forall i :: 0 <= i < |cells.value| ==> cells.value[i].topOffsetMinutes % OFFSET_INCREMENT == 0
    ensures cells.Some? ==> forall i, j :: 0 <= i < j < |cells.value| ==>
              cells.value[j].topOffsetMinutes >= cells.value[i].topOffsetMinutes + OFFSET_INCREMENT * (j - i)
  {
    if slotsForToday.None? || |slotsForToday.value| == 0 {
      return None;
    }
    var slots := slotsForToday.value;
    var initialMissingSlots := MissingSlots(slots[0].start - dayStart, slotDuration);
    var currentOffset := initialMissingSlots * OFFSET_INCREMENT;
    var previousSlotEnd := slots[0].start;
    var result: seq<AvailableCell> := [];
    var i := 0;
    while i < |slots|
      invariant 0 <= i <= |slots|
      invariant |result| == i
      invariant forall k {:trigger result[k]} :: 0 <= k < i ==> result[k] == AvailableCell(slots[k], OffsetAt(slots, k, dayStart, slotDuration))
      invariant i == 0 ==> currentOffset == OffsetAt(slots, 0, dayStart, slotDuration) && previousSlotEnd == slots[0].start
      invariant i > 0 ==> currentOffset == OffsetAt(slots, i - 1, dayStart, slotDuration) + OFFSET_INCREMENT
                          && previousSlotEnd == slots[i - 1].end
    {
      var slotStart := slots[i].start;
      if slotStart > previousSlotEnd {
        var missingSlots := MissingSlots(slotStart - previousSlotEnd, slotDuration);
        currentOffset := currentOffset + missingSlots * OFFSET_INCREMENT;
      }
      assert currentOffset == OffsetAt(slots, i, dayStart, slotDuration);
      result := result + [AvailableCell(slots[i], currentOffset)];
      currentOffset := currentOffset + OFFSET_INCREMENT;
      previousSlotEnd := slots[i].end;
      i := i + 1;
    }
    OffsetsOnIncreasingRows(slots, dayStart, slotDuration);
    FirstOffsetUnclamped(slots, dayStart, slotDuration);
    cells := Some(result);
  }

  // ---------------------------------------------------------------------------
  // UnavailableCellsForDay
  // ---------------------------------------------------------------------------

  /** State of the unavailable walk: cells emitted so far, the cursor time and the next row. */
  datatype Walk = Walk(cells: seq<UnavailableCell>, cursor: int, offset: int)

  /** The walk's state before anything is emitted: cursor at `dayStart`, row 0. */
  function StartWalk(dayStart: int): Walk
  {
    Walk([], dayStart, 0)
  }

  /**
   * One gap loop: while the cursor is strictly before `target`, emit a cell at
   * the cursor, step the cursor by `slotDuration` and the row by one.
   */
  function FillGap(w: Walk, target: int, slotDuration: int): Walk
    requires slotDuration > 0
    decreases target - w.cursor
  {
    if w.cursor < target then
      FillGap(Walk(w.cells + [UnavailableCell(w.cursor, w.offset)], w.cursor + slotDuration, w.offset + OFFSET_INCREMENT),
              target, slotDuration)
    else w
  }

  /** An available interval takes one row without a cell and moves the cursor to its end, even backwards. */
  function PassInterval(w: Walk, slot: Interval): Walk
  {
    Walk(w.cells, slot.end, w.offset + OFFSET_INCREMENT)
  }

  /** The walk after the gap loop and the interval step of every interval, in input order. */
  function WalkSlots(w: Walk, slots: seq<Interval>, slotDuration: int): Walk
    requires slotDuration > 0
    decreases |slots|
  {
    if slots == [] then w
    else
      var last := slots[|slots| - 1];
      PassInterval(FillGap(WalkSlots(w, slots[..|slots| - 1], slotDuration), last.start, slotDuration), last)
  }

  /** The whole walk of UnavailableCellsForDay, including the trailing gap up to `dayEnd`. */
  function FinalWalk(slotsForToday: Option<seq<Interval>>, dayStart: int, dayEnd: int, slotDuration: int): Walk
    requires slotDuration > 0
  {
    if slotsForToday.None? || |slotsForToday.value| == 0 then FillGap(StartWalk(dayStart), dayEnd, slotDuration)
    else FillGap(WalkSlots(StartWalk(dayStart), slotsForToday.value, slotDuration), dayEnd, slotDuration)
  }

  /** The shape of one gap loop's output: ceil(gap / slotDuration) evenly spaced cells on consecutive rows. */
  lemma {:induction false} FillGapShape(w: Walk, target: int, slotDuration: int)
    requires slotDuration > 0
    ensures var r := FillGap(w, target, slotDuration);
            var n := SlotsToCover(target - w.cursor, slotDuration);
            && |r.cells| == |w.cells| + n
            && r.cells[..|w.cells|] == w.cells
            && (forall k :: 0 <= k < n ==>
                  r.cells[|w.cells| + k] == UnavailableCell(w.cursor + k * slotDuration, w.offset + OFFSET_INCREMENT * k))
            && r.cursor == w.cursor + n * slotDuration
            && r.offset == w.offset + OFFSET_INCREMENT * n
    decreases target - w.cursor
  {
    if w.cursor < target {
      var next := Walk(w.cells + [UnavailableCell(w.cursor, w.offset)], w.cursor + slotDuration, w.offset + OFFSET_INCREMENT);
      FillGapShape(next, target, slotDuration);
      CoverStep(target - w.cursor, slotDuration);
      var r := FillGap(w, target, slotDuration);
      var n := SlotsToCover(target - w.cursor, slotDuration);
      assert r == FillGap(next, target, slotDuration);
      assert r.cells[..|next.cells|] == next.cells;
      assert r.cells[..|w.cells|] == next.cells[..|w.cells|];
      forall k | 0 <= k < n
        ensures r.cells[|w.cells| + k] == UnavailableCell(w.cursor + k * slotDuration, w.offset + OFFSET_INCREMENT * k)
      {
        if k == 0 {
          assert r.cells[|w.cells|] == next.cells[|w.cells|];
        } else {
          assert |w.cells| + k == |next.cells| + (k - 1);
          assert next.cursor + (k - 1) * slotDuration == w.cursor + k * slotDuration;
        }
      }
      assert r.cursor == next.cursor + (n - 1) * slotDuration;
    }
  }

  /** A gap loop only emits cells that start at or after the cursor and strictly before its target. */
  lemma {:induction false} FillGapBeforeTarget(w: Walk, target: int, slotDuration: int)
    requires slotDuration > 0
    ensures var r := FillGap(w, target, slotDuration);
            forall k :: |w.cells| <= k < |r.cells| ==> w.cursor <= r.cells[k].start < target
    decreases target - w.cursor
  {
    if w.cursor < target {
      var next := Walk(w.cells + [UnavailableCell(w.cursor, w.offset)], w.cursor + slotDuration, w.offset + OFFSET_INCREMENT);
      FillGapBeforeTarget(next, target, slotDuration);
      FillGapShape(next, target, slotDuration);
      var r := FillGap(w, target, slotDuration);
      assert r.cells[|w.cells|] == next.cells[|w.cells|];
    }
  }

  /**
   * The day with no intervals: one cell at `dayStart + k * slotDuration` for
   * every such time before `dayEnd`, on rows 0, 60, 120, ...; there are
   * ceil((dayEnd - dayStart) / slotDuration) of them, none when `dayEnd <= dayStart`.
   */
  lemma EmptyDayLayout(slotsForToday: Option<seq<Interval>>, dayStart: int, dayEnd: int, slotDuration: int)
    requires slotDuration > 0
    requires slotsForToday.None? || |slotsForToday.value| == 0
    ensures var cells := FinalWalk(slotsForToday, dayStart, dayEnd, slotDuration).cells;
            && (dayEnd <= dayStart ==> cells == [])
            && (dayStart < dayEnd ==> |cells| == (dayEnd - dayStart + slotDuration - 1) / slotDuration)
            && (forall k :: 0 <= k < |cells| ==>
                  cells[k] == UnavailableCell(dayStart + k * slotDuration, OFFSET_INCREMENT * k)
                  && cells[k].start < dayEnd)
  {
    FillGapShape(StartWalk(dayStart), dayEnd, slotDuration);
    FillGapBeforeTarget(StartWalk(dayStart), dayEnd, slotDuration);
  }

  /**
   * Row accounting: a walk whose next row is 60 x (cells + intervals passed)
   * keeps that relation through every gap loop and every interval.
   */
  ghost predicate Accounted(w: Walk, passed: nat)
  {
    w.offset == OFFSET_INCREMENT * (|w.cells| + passed)
  }

  lemma {:induction false} FillGapAccounted(w: Walk, passed: nat, target: int, slotDuration: int)
    requires slotDuration > 0 && Accounted(w, passed)
    ensures Accounted(FillGap(w, target, slotDuration), passed)
    decreases target - w.cursor
  {
    if w.cursor < target {
      FillGapAccounted(Walk(w.cells + [UnavailableCell(w.cursor, w.offset)], w.cursor + slotDuration, w.offset + OFFSET_INCREMENT),
                       passed, target, slotDuration);
    }
  }

  lemma {:induction false} WalkSlotsAccounted(w: Walk, passed: nat, slots: seq<Interval>, slotDuration: int)
    requires slotDuration > 0 && Accounted(w, passed)
    ensures Accounted(WalkSlots(w, slots, slotDuration), passed + |slots|)
    decreases |slots|
  {
    if slots != [] {
      var init := slots[..|slots| - 1];
      WalkSlotsAccounted(w, passed, init, slotDuration);
      FillGapAccounted(WalkSlots(w, init, slotDuration), passed + |init|, slots[|slots| - 1].start, slotDuration);
    }
  }

  /** The final offset is one row per emitted cell plus one row per available interval. */
  lemma FinalOffset(slotsForToday: Option<seq<Interval>>, dayStart: int, dayEnd: int, slotDuration: int)
    requires slotDuration > 0
    ensures var w := FinalWalk(slotsForToday, dayStart, dayEnd, slotDuration);
            w.offset == OFFSET_INCREMENT * (|w.cells| + (if slotsForToday.None? then 0 else |slotsForToday.value|))
  {
    if slotsForToday.None? || |slotsForToday.value| == 0 {
      FillGapAccounted(StartWalk(dayStart), 0, dayEnd, slotDuration);
    } else {
      WalkSlotsAccounted(StartWalk(dayStart), 0, slotsForToday.value, slotDuration);
      FillGapAccounted(WalkSlots(StartWalk(dayStart), slotsForToday.value, slotDuration), |slotsForToday.value|,
                       dayEnd, slotDuration);
    }
  }

  /** Emitted cells sit on distinct non-negative rows, in increasing order, all above the walk's next row. */
  ghost predicate OrderedRows(w: Walk)
  {
    && 0 <= w.offset && w.offset % OFFSET_INCREMENT == 0
    && (forall k :: 0 <= k < |w.cells| ==>
          0 <= w.cells[k].topOffsetMinutes < w.offset && w.cells[k].topOffsetMinutes % OFFSET_INCREMENT == 0)
    && (forall i, j :: 0 <= i < j < |w.cells| ==> w.cells[i].topOffsetMinutes < w.cells[j].topOffsetMinutes)
  }

  lemma {:induction false} FillGapOrdered(w: Walk, target: int, slotDuration: int)
    requires slotDuration > 0 && OrderedRows(w)
    ensures OrderedRows(FillGap(w, target, slotDuration))
    decreases target - w.cursor
  {
    if w.cursor < target {
      FillGapOrdered(Walk(w.cells + [UnavailableCell(w.cursor, w.offset)], w.cursor + slotDuration, w.offset + OFFSET_INCREMENT),
                     target, slotDuration);
    }
  }

  lemma {:induction false} WalkSlotsOrdered(w: Walk, slots: seq<Interval>, slotDuration: int)
    requires slotDuration > 0 && OrderedRows(w)
    ensures OrderedRows(WalkSlots(w, slots, slotDuration))
    decreases |slots|
  {
    if slots != [] {
      WalkSlotsOrdered(w, slots[..|slots| - 1], slotDuration);
      FillGapOrdered(WalkSlots(w, slots[..|slots| - 1], slotDuration), slots[|slots| - 1].start, slotDuration);
    }
  }

  /** The unavailable cells of a day are on distinct rows 0, 60, 120, ... in increasing order. */
  lemma UnavailableRowsIncrease(slotsForToday: Option<seq<Interval>>, dayStart: int, dayEnd: int, slotDuration: int)
    requires slotDuration > 0
    ensures OrderedRows(FinalWalk(slotsForToday, dayStart, dayEnd, slotDuration))
  {
    if slotsForToday.None? || |slotsForToday.value| == 0 {
      FillGapOrdered(StartWalk(dayStart), dayEnd, slotDuration);
    } else {
      WalkSlotsOrdered(StartWalk(dayStart), slotsForToday.value, slotDuration);
      FillGapOrdered(WalkSlots(StartWalk(dayStart), slotsForToday.value, slotDuration), dayEnd, slotDuration);
    }
  }

  /**
   * Emits the unavailable cells of one day: every step of every gap before,
   * between and after the available intervals, within `dayStart`/`dayEnd`.
   */
  method UnavailableCellsForDay(slotsForToday: Option<seq<Interval>>, dayStart: int, dayEnd: int, slotDuration: int)
    returns (unavailableSlots: seq<UnavailableCell>)
    requires slotDuration > 0
    ensures unavailableSlots == FinalWalk(slotsForToday, dayStart, dayEnd, slotDuration).cells
    ensures forall k :: 0 <= k < |unavailableSlots| ==>
              0 <= unavailableSlots[k].topOffsetMinutes && unavailableSlots[k].topOffsetMinutes % OFFSET_INCREMENT == 0
    ensures forall i, j :: 0 <= i < j < |unavailableSlots| ==>
              unavailableSlots[i].topOffsetMinutes < unavailableSlots[j].topOffsetMinutes
  {
    UnavailableRowsIncrease(slotsForToday, dayStart, dayEnd, slotDuration);
    var currentTime := dayStart;
    var currentOffset := 0;
    unavailableSlots := [];
    if slotsForToday.None? || |slotsForToday.value| == 0 {
      while currentTime < dayEnd
        invariant FillGap(Walk(unavailableSlots, currentTime, currentOffset), dayEnd, slotDuration)
                  == FillGap(StartWalk(dayStart), dayEnd, slotDuration)
        decreases dayEnd - currentTime
      {
        unavailableSlots := unavailableSlots + [UnavailableCell(currentTime, currentOffset)];
        currentTime := currentTime + slotDuration;
        currentOffset := currentOffset + OFFSET_INCREMENT;
      }
    } else {
      var slots := slotsForToday.value;
      var i := 0;
      while i < |slots|
        invariant 0 <= i <= |slots|
        invariant Walk(unavailableSlots, currentTime, currentOffset) == WalkSlots(StartWalk(dayStart), slots[..i], slotDuration)
      {
        var slotStart := slots[i].start;
        ghost var entry := Walk(unavailableSlots, currentTime, currentOffset);
        while currentTime < slotStart
          invariant FillGap(Walk(unavailableSlots, currentTime, currentOffset), slotStart, slotDuration)
                    == FillGap(entry, slotStart, slotDuration)
          decreases slotStart - currentTime
        {
          unavailableSlots := unavailableSlots + [UnavailableCell(currentTime, currentOffset)];
          currentTime := currentTime + slotDuration;
          currentOffset := currentOffset + OFFSET_INCREMENT;
        }
        currentTime := slots[i].end;
        currentOffset := currentOffset + OFFSET_INCREMENT;
        assert slots[..i + 1][..i] == slots[..i];
        i := i + 1;
      }
      assert slots[..i] == slots;
      ghost var entry := Walk(unavailableSlots, currentTime, currentOffset);
      while currentTime < dayEnd
        invariant FillGap(Walk(unavailableSlots, currentTime, currentOffset), dayEnd, slotDuration)
                  == FillGap(entry, dayEnd, slotDuration)
        decreases dayEnd - currentTime
      {
        unavailableSlots := unavailableSlots + [UnavailableCell(currentTime, currentOffset)];
        currentTime := currentTime + slotDuration;
        currentOffset := currentOffset + OFFSET_INCREMENT;
      }
    }
  }

  // ---------------------------------------------------------------------------
  // How the two layouts of one day line up
  // ---------------------------------------------------------------------------

  /** The row the unavailable walk leaves free for interval `i`: the walk's next row once the gap before it is filled. */
  function ReservedRow(slots: seq<Interval>, i: nat, dayStart: int, slotDuration: int): int
    requires i < |slots| && slotDuration > 0
  {
    FillGap(WalkSlots(StartWalk(dayStart), slots[..i], slotDuration), slots[i].start, slotDuration).offset
  }

  /**
   * Corrected available offsets: a positive gap counts the cells the
   * unavailable walk puts into it, ceil(gap / slotDuration), instead of its
   * floor, and a first interval before `dayStart` sits on row 0, the row the
   * walk reserves for it, instead of a negative row.
   */
  function AlignedOffsetAt(slots: seq<Interval>, i: nat, dayStart: int, slotDuration: int): int
    requires i < |slots| && slotDuration > 0
  {
    if i == 0 then SlotsToCover(slots[0].start - dayStart, slotDuration) * OFFSET_INCREMENT
    else AlignedOffsetAt(slots, i - 1, dayStart, slotDuration) + OFFSET_INCREMENT
         + SlotsToCover(slots[i].start - slots[i - 1].end, slotDuration) * OFFSET_INCREMENT
  }

  /** The corrected offset of every interval is exactly the row the unavailable walk reserves for it. */
  lemma {:induction false} AlignedOffsetIsReservedRow(slots: seq<Interval>, i: nat, dayStart: int, slotDuration: int)
    requires i < |slots| && slotDuration > 0
    ensures AlignedOffsetAt(slots, i, dayStart, slotDuration) == ReservedRow(slots, i, dayStart, slotDuration)
  {
    var w := WalkSlots(StartWalk(dayStart), slots[..i], slotDuration);
    FillGapShape(w, slots[i].start, slotDuration);
    if i == 0 {
      assert slots[..0] == [];
    } else {
      AlignedOffsetIsReservedRow(slots, i - 1, dayStart, slotDuration);
      assert slots[..i][..i - 1] == slots[..i - 1];
    }
  }

  /** `r` is `w` with cells appended, none of them above `w`'s next row. */
  ghost predicate Extends(w: Walk, r: Walk)
  {
    && |w.cells| <= |r.cells|
    && r.cells[..|w.cells|] == w.cells
    && w.offset <= r.offset
    && forall k :: |w.cells| <= k < |r.cells| ==> r.cells[k].topOffsetMinutes >= w.offset
  }

  /** Every emitted cell lies above the walk's next row. */
  ghost predicate RowsBelow(w: Walk)
  {
    forall k :: 0 <= k < |w.cells| ==> w.cells[k].topOffsetMinutes < w.offset
  }

  lemma ExtendsTransitive(a: Walk, b: Walk, c: Walk)
    requires Extends(a, b) && Extends(b, c)
    ensures Extends(a, c)
  {
    assert c.cells[..|a.cells|] == c.cells[..|b.cells|][..|a.cells|];
    forall k | |a.cells| <= k < |c.cells| ensures c.cells[k].topOffsetMinutes >= a.offset {
      if k < |b.cells| {
        assert c.cells[k] == c.cells[..|b.cells|][k];
      }
    }
  }

  lemma {:induction false} FillGapExtends(w: Walk, target: int, slotDuration: int)
    requires slotDuration > 0
    ensures Extends(w, FillGap(w, target, slotDuration))
    ensures RowsBelow(w) ==> RowsBelow(FillGap(w, target, slotDuration))
    decreases target - w.cursor
  {
    if w.cursor < target {
      var next := Walk(w.cells + [UnavailableCell(w.cursor, w.offset)], w.cursor + slotDuration, w.offset + OFFSET_INCREMENT);
      FillGapExtends(next, target, slotDuration);
      assert Extends(w, next);
      ExtendsTransitive(w, next, FillGap(next, target, slotDuration));
    }
  }

  lemma {:induction false} WalkSlotsExtends(w: Walk, slots: seq<Interval>, j: nat, slotDuration: int)
    requires slotDuration > 0 && j <= |slots|
    ensures Extends(WalkSlots(w, slots[..j], slotDuration), WalkSlots(w, slots, slotDuration))
    ensures RowsBelow(w) ==> RowsBelow(WalkSlots(w, slots, slotDuration))
    decreases |slots|
  {
    if j == |slots| {
      assert slots[..j] == slots;
      if slots != [] {
        WalkSlotsExtends(w, slots[..|slots| - 1], |slots| - 1, slotDuration);
        FillGapExtends(WalkSlots(w, slots[..|slots| - 1], slotDuration), slots[|slots| - 1].start, slotDuration);
      }
    } else {
      var init := slots[..|slots| - 1];
      assert init[..j] == slots[..j];
      WalkSlotsExtends(w, init, j, slotDuration);
      var m := FillGap(WalkSlots(w, init, slotDuration), slots[|slots| - 1].start, slotDuration);
      FillGapExtends(WalkSlots(w, init, slotDuration), slots[|slots| - 1].start, slotDuration);
      ExtendsTransitive(WalkSlots(w, slots[..j], slotDuration), WalkSlots(w, init, slotDuration), m);
      ExtendsTransitive(WalkSlots(w, slots[..j], slotDuration), m, WalkSlots(w, slots, slotDuration));
    }
  }

  /**
   * With corrected offsets no unavailable cell of the day is drawn on an
   * available interval's row: cells before it lie above, cells after it below.
   */
  lemma AlignedRowsAreFree(slots: seq<Interval>, i: nat, dayStart: int, dayEnd: int, slotDuration: int)
    requires i < |slots| && slotDuration > 0
    ensures var cells := FinalWalk(Some(slots), dayStart, dayEnd, slotDuration).cells;
            forall k :: 0 <= k < |cells| ==> cells[k].topOffsetMinutes != AlignedOffsetAt(slots, i, dayStart, slotDuration)
  {
    AlignedOffsetIsReservedRow(slots, i, dayStart, slotDuration);
    var start := StartWalk(dayStart);
    var before := WalkSlots(start, slots[..i], slotDuration);
    var m := FillGap(before, slots[i].start, slotDuration);
    WalkSlotsExtends(start, slots[..i], i, slotDuration);
    FillGapExtends(before, slots[i].start, slotDuration);
    assert RowsBelow(m);
    var p := PassInterval(m, slots[i]);
    assert slots[..i + 1][..i] == slots[..i];
    assert p == WalkSlots(start, slots[..i + 1], slotDuration);
    var all := WalkSlots(start, slots, slotDuration);
    WalkSlotsExtends(start, slots, i + 1, slotDuration);
    FillGapExtends(all, dayEnd, slotDuration);
    ExtendsTransitive(p, all, FillGap(all, dayEnd, slotDuration));
    var cells := FinalWalk(Some(slots), dayStart, dayEnd, slotDuration).cells;
    forall k | 0 <= k < |cells| ensures cells[k].topOffsetMinutes != m.offset {
      if k < |m.cells| {
        assert cells[k] == cells[..|p.cells|][k];
      }
    }
  }

  /**
   * Where every positive gap is a whole number of slots, the source's floored
   * offsets and the corrected ones agree, except that a first interval before
   * `dayStart` shifts all of the source's rows up by its floored leading gap.
   */
  lemma {:induction false} WholeGapsAgree(slots: seq<Interval>, i: nat, dayStart: int, slotDuration: int)
    requires i < |slots| && slotDuration > 0
    requires slots[0].start > dayStart ==> (slots[0].start - dayStart) % slotDuration == 0
    requires forall k :: 0 < k < |slots| && slots[k].start > slots[k - 1].end ==> (slots[k].start - slots[k - 1].end) % slotDuration == 0
    ensures OffsetAt(slots, i, dayStart, slotDuration) == AlignedOffsetAt(slots, i, dayStart, slotDuration)
              + (if slots[0].start < dayStart then MissingSlots(slots[0].start - dayStart, slotDuration) * OFFSET_INCREMENT else 0)
  {
    if i == 0 {
      if slots[0].start > dayStart {
        WholeGapRounding(slots[0].start - dayStart, slotDuration);
      }
    } else {
      WholeGapsAgree(slots, i - 1, dayStart, slotDuration);
      if slots[i].start > slots[i - 1].end {
        WholeGapRounding(slots[i].start - slots[i - 1].end, slotDuration);
      }
    }
  }

  lemma WholeGapRounding(gap: int, slotDuration: int)
    requires slotDuration > 0 && gap > 0 && gap % slotDuration == 0
    ensures MissingSlots(gap, slotDuration) == SlotsToCover(gap, slotDuration)
  {
    var q := gap / slotDuration;
    assert gap == q * slotDuration;
    CoverUnique(gap, slotDuration, q, SlotsToCover(gap, slotDuration));
  }

  /**
   * As written, a leading gap of 45 minutes with 30-minute slots puts the
   * available cell on row 60 (floor 1.5 = 1), where the unavailable walk has
   * already drawn its second cell (it emits ceil 1.5 = 2 cells, rows 0 and 60).
   */
  lemma FloorOffsetCollides()
    ensures var slots := [Interval(45, 60)];
            var cells := FinalWalk(Some(slots), 0, 60, 30).cells;
            && OffsetAt(slots, 0, 0, 30) == 60
            && |cells| == 2
            && cells[1] == UnavailableCell(30, 60)
  {
    var slots := [Interval(45, 60)];
    assert slots[..0] == [];
    FillGapShape(StartWalk(0), 45, 30);
    var p := WalkSlots(StartWalk(0), slots, 30);
    assert p.cursor == 60;
    FillGapShape(p, 60, 30);
  }

  /**
   * As written, a first interval half an hour before `dayStart` is drawn on
   * row -60, and the next interval, after a 45-minute gap, on row 60. The walk
   * passes the first interval on row 0 and fills the gap on rows 60 and 120, so
   * the second available cell lands on an unavailable one, even were the gap
   * rounded up (row 120).
   */
  lemma NegativeFirstRowCollides()
    ensures var slots := [Interval(-30, 0), Interval(45, 60)];
            var cells := FinalWalk(Some(slots), 0, 60, 30).cells;
            && OffsetAt(slots, 0, 0, 30) == -60
            && OffsetAt(slots, 1, 0, 30) == 60
            && cells == [UnavailableCell(0, 60), UnavailableCell(30, 120)]
            && AlignedOffsetAt(slots, 1, 0, 30) == 180
  {
    var slots := [Interval(-30, 0), Interval(45, 60)];
    assert slots[..1][..0] == [];
    var w1 := WalkSlots(StartWalk(0), slots[..1], 30);
    assert WalkSlots(StartWalk(0), slots[..1][..0], 30) == StartWalk(0);
    assert FillGap(StartWalk(0), -30, 30) == StartWalk(0);
    assert slots[..1][0] == slots[0];
    assert w1 == Walk([], 0, 60);
    FillGapShape(w1, 45, 30);
    assert slots[..2] == slots;
    var p := WalkSlots(StartWalk(0), slots, 30);
    assert p.cursor == 60;
    FillGapShape(p, 60, 30);
  }
}
