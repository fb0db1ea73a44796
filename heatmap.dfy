/**
 * get_heatmap_data: a meeting's slots projected onto (local date, local
 * time) cells in the viewer's zone, with the sorted distinct dates and
 * times. Stored slots are read in the table's default order (most
 * available first, then earliest); when the meeting has no stored slot, the
 * raw lattice is shown with zeroed cells. A later slot that lands on the
 * same cell overwrites an earlier one.
 */
module Heatmap {
  import opened Calendar
  import opened Models
  import opened Store
  import opened TimeSlots
  import opened Ranking
  import opened SortedSets

  /** One heatmap cell. */
  datatype Cell = Cell(level: int, available: nat, total: nat, percentage: real, startUtc: Instant, endUtc: Instant)

  /** A slot to place, with the cell it contributes. */
  datatype Entry = Entry(start: Instant, end: Instant, cell: Cell)

  /** heatmap[date][time] = cell. */
  type Grid = map<Date, map<TimeOfDay, Cell>>

  datatype HeatmapData = HeatmapData(dates: seq<int>, timeSlots: seq<int>, heatmap: Grid, timezone: TimeZoneName)

  /** The cell of a stored slot: its level, counts and percentage. */
  function CellOf(s: SuggestedSlot): Cell {
    var pct := AvailabilityPercentage(s);
    Cell(HeatmapLevel(pct), s.availableCount, s.totalParticipants, pct, s.startTime, s.endTime)
  }

  /** The cell of a lattice slot when nothing is stored: everything zero. */
  function ZeroCell(s: Slot): Cell {
    Cell(0, 0, 0, 0.0, s.start, s.end)
  }

  function StoredEntries(rows: seq<SuggestedSlot>): seq<Entry> {
    seq(|rows|, i requires 0 <= i < |rows| => Entry(rows[i].startTime, rows[i].endTime, CellOf(rows[i])))
  }

  function LatticeEntries(slots: seq<Slot>): seq<Entry> {
    seq(|slots|, i requires 0 <= i < |slots| => Entry(slots[i].start, slots[i].end, ZeroCell(slots[i])))
  }

  /** What get_heatmap_data places: the stored rows in default order, or the zeroed lattice. */
  function HeatmapEntries(t: seq<SuggestedSlot>, m: MeetingRequest, utcOf: Localizer): seq<Entry>
    requires m.stepSizeMinutes > 0
  {
    var stored := SlotsOf(t, m.id);
    if stored == [] then LatticeEntries(Lattice(m, utcOf)) else StoredEntries(Sort(stored))
  }

  /** heatmap[d][t] = c, creating the row for d when missing. */
  function Put(h: Grid, d: Date, t: TimeOfDay, c: Cell): Grid {
    h[d := (if d in h then h[d] else map[])[t := c]]
  }

  /** The grid after placing every entry in order. */
  function GridOf(es: seq<Entry>, tz: TimeZoneName, localOf: LocalView): Grid {
    if es == [] then map[]
    else
      var e := es[|es| - 1];
      var local := localOf(tz, e.start);
      Put(GridOf(es[..|es| - 1], tz, localOf), local.0, local.1, e.cell)
  }

  /** dates_set: the local dates of the entries. */
  function DatesOf(es: seq<Entry>, tz: TimeZoneName, localOf: LocalView): (r: set<int>)
    ensures forall d :: d in r <==> exists i :: 0 <= i < |es| && localOf(tz, es[i].start).0 == d
  {
    if es == [] then {}
    else
      var p := es[..|es| - 1];
      assert forall i :: 0 <= i < |p| ==> p[i] == es[i];
      DatesOf(p, tz, localOf) + {localOf(tz, es[|es| - 1].start).0}
  }

  /** times_set: the local times of day of the entries. */
  function TimesOf(es: seq<Entry>, tz: TimeZoneName, localOf: LocalView): (r: set<int>)
    ensures forall t :: t in r <==> exists i :: 0 <= i < |es| && localOf(tz, es[i].start).1 == t
  {
    if es == [] then {}
    else
      var p := es[..|es| - 1];
      assert forall i :: 0 <= i < |p| ==> p[i] == es[i];
      TimesOf(p, tz, localOf) + {localOf(tz, es[|es| - 1].start).1}
  }

  /**
   * The dict-filling loop of get_heatmap_data over the entries: the grid is
   * GridOf of the entries, and the date and time lists are the sorted
   * distinct local dates and times of day.
   */
  method Organize(entries: seq<Entry>, tz: TimeZoneName, localOf: LocalView)
    returns (dates: seq<int>, times: seq<int>, heatmap: Grid)
    ensures heatmap == GridOf(entries, tz, localOf)
    ensures StrictlyIncreasing(dates) && forall d :: d in dates <==> d in DatesOf(entries, tz, localOf)
    ensures StrictlyIncreasing(times) && forall t :: t in times <==> t in TimesOf(entries, tz, localOf)
  {
    heatmap := map[];
    var datesSet: set<int> := {};
    var timesSet: set<int> := {};
    for i := 0 to |entries|
      invariant heatmap == GridOf(entries[..i], tz, localOf)
      invariant datesSet == DatesOf(entries[..i], tz, localOf)
      invariant timesSet == TimesOf(entries[..i], tz, localOf)
    {
      assert entries[..i + 1][..i] == entries[..i];
      var local := localOf(tz, entries[i].start);
      var dateStr, timeStr := local.0, local.1;
      datesSet := datesSet + {dateStr};
      timesSet := timesSet + {timeStr};
      if dateStr !in heatmap {
        heatmap := heatmap[dateStr := map[]];
      }
      heatmap := heatmap[dateStr := heatmap[dateStr][timeStr := entries[i].cell]];
    }
    assert entries[..|entries|] == entries;
    dates := SortedOf(datesSet);
    times := SortedOf(timesSet);
  }

  /**
   * get_heatmap_data for meeting m over the suggested-slot table t, viewed
   * in zone tz.
   */
  method GetHeatmapData(t: seq<SuggestedSlot>, m: MeetingRequest, tz: TimeZoneName, utcOf: Localizer, localOf: LocalView)
    returns (data: HeatmapData)
    requires m.stepSizeMinutes > 0
    ensures data.heatmap == GridOf(HeatmapEntries(t, m, utcOf), tz, localOf)
    ensures StrictlyIncreasing(data.dates) && forall d :: d in data.dates <==> d in DatesOf(HeatmapEntries(t, m, utcOf), tz, localOf)
    ensures StrictlyIncreasing(data.timeSlots) && forall x :: x in data.timeSlots <==> x in TimesOf(HeatmapEntries(t, m, utcOf), tz, localOf)
    ensures data.timezone == tz
  {
    var slots := SlotsOf(t, m.id);
    var entries: seq<Entry>;
    if slots == [] {
      var possibleSlots := GenerateTimeSlots(m, utcOf);
      entries := LatticeEntries(possibleSlots);
    } else {
      entries := StoredEntries(Sort(slots));
    }
    var dates, times, heatmap := Organize(entries, tz, localOf);
    data := HeatmapData(dates, times, heatmap, tz);
  }

  /**
   * The cell at (d, t) exists iff some entry starts at local (d, t), and then
   * it is the cell of the last such entry.
   */
  lemma {:induction false} GridAt(es: seq<Entry>, tz: TimeZoneName, localOf: LocalView, d: Date, t: TimeOfDay)
    ensures (d in GridOf(es, tz, localOf) && t in GridOf(es, tz, localOf)[d]) <==>
      exists i :: 0 <= i < |es| && localOf(tz, es[i].start) == (d, t)
    ensures d in GridOf(es, tz, localOf) && t in GridOf(es, tz, localOf)[d] ==>
      exists i :: 0 <= i < |es| && localOf(tz, es[i].start) == (d, t) && GridOf(es, tz, localOf)[d][t] == es[i].cell
        && forall j :: i < j < |es| ==> localOf(tz, es[j].start) != (d, t)
  {
    if es != [] {
      var p, e := es[..|es| - 1], es[|es| - 1];
      GridAt(p, tz, localOf, d, t);
      assert forall i :: 0 <= i < |p| ==> p[i] == es[i];
      var g := GridOf(es, tz, localOf);
      if localOf(tz, e.start) == (d, t) {
        assert g[d][t] == e.cell;
      } else if d in g && t in g[d] {
        var i :| 0 <= i < |p| && localOf(tz, p[i].start) == (d, t) && GridOf(p, tz, localOf)[d][t] == p[i].cell
          && forall j :: i < j < |p| ==> localOf(tz, p[j].start) != (d, t);
        assert g[d][t] == es[i].cell;
      }
    }
  }

  /** The grid's dates are exactly the dates list's. */
  lemma {:induction false} GridDates(es: seq<Entry>, tz: TimeZoneName, localOf: LocalView)
    ensures forall d :: d in GridOf(es, tz, localOf) <==> d in DatesOf(es, tz, localOf)
  {
    if es != [] {
      GridDates(es[..|es| - 1], tz, localOf);
      assert forall d :: d in DatesOf(es, tz, localOf) <==>
        d in DatesOf(es[..|es| - 1], tz, localOf) || d == localOf(tz, es[|es| - 1].start).0;
    }
  }

  /** Every (date, time) key of the grid appears in the dates and times lists. */
  lemma GridKeysListed(es: seq<Entry>, tz: TimeZoneName, localOf: LocalView, d: Date, t: TimeOfDay)
    requires d in GridOf(es, tz, localOf) && t in GridOf(es, tz, localOf)[d]
    ensures d in DatesOf(es, tz, localOf) && t as int in TimesOf(es, tz, localOf)
  {
    GridAt(es, tz, localOf, d, t);
    var i :| 0 <= i < |es| && localOf(tz, es[i].start) == (d, t);
  }

  /**
   * With no stored slot, every cell of the meeting's heatmap is zero in
   * level, available, total and percentage.
   */
  lemma FallbackCellsAreZero(t: seq<SuggestedSlot>, m: MeetingRequest, utcOf: Localizer, tz: TimeZoneName,
                             localOf: LocalView, d: Date, time: TimeOfDay)
    requires m.stepSizeMinutes > 0 && SlotsOf(t, m.id) == []
    requires d in GridOf(HeatmapEntries(t, m, utcOf), tz, localOf)
    requires time in GridOf(HeatmapEntries(t, m, utcOf), tz, localOf)[d]
    ensures var c := GridOf(HeatmapEntries(t, m, utcOf), tz, localOf)[d][time];
      c.level == 0 && c.available == 0 && c.total == 0 && c.percentage == 0.0
  {
    GridAt(HeatmapEntries(t, m, utcOf), tz, localOf, d, time);
  }

  /**
   * With stored slots, every cell is the cell of one of the meeting's
   * stored rows: its level is that row's heatmap level, of its percentage.
   */
  lemma StoredCellsComeFromRows(t: seq<SuggestedSlot>, m: MeetingRequest, utcOf: Localizer, tz: TimeZoneName,
                                localOf: LocalView, d: Date, time: TimeOfDay)
    requires m.stepSizeMinutes > 0 && SlotsOf(t, m.id) != []
    requires d in GridOf(HeatmapEntries(t, m, utcOf), tz, localOf)
    requires time in GridOf(HeatmapEntries(t, m, utcOf), tz, localOf)[d]
    ensures var c := GridOf(HeatmapEntries(t, m, utcOf), tz, localOf)[d][time];
      exists s :: s in t && s.meeting == m.id && c == CellOf(s) && c.level == HeatmapLevel(c.percentage)
  {
    var es := HeatmapEntries(t, m, utcOf);
    var sorted := Sort(SlotsOf(t, m.id));
    GridAt(es, tz, localOf, d, time);
    var i :| 0 <= i < |es| && localOf(tz, es[i].start) == (d, time) && GridOf(es, tz, localOf)[d][time] == es[i].cell;
    assert es[i].cell == CellOf(sorted[i]);
    assert sorted[i] in multiset(SlotsOf(t, m.id));
  }
}
