/**
 * From the sheet's rows to day buckets (the `rows.forEach` scan of `getAvailableSlots`):
 * the day label carried forward, the free-slot filter, and the grouping by day.
 */
module Grouping {
  import opened Options
  import opened JsText

  /** One row of the range A:C as the Sheets API returns it; trailing empty cells may be missing. */
  type Row = seq<string>

  /** Cell `i` of a row, trimmed; a missing or empty cell reads as the empty string. */
  function Cell(row: Row, i: nat): (r: string)
    ensures IsTrimmed(r)
  {
    if i < |row| then Trim(row[i]) else ""
  }

  /** Column A: the day label. */
  function DayCell(row: Row): string {
    Cell(row, 0)
  }

  /** Column B: the time label. */
  function TimeCell(row: Row): string {
    Cell(row, 1)
  }

  /** Column C: the client or status; the slot is free only when it is empty. */
  function StatusCell(row: Row): string {
    Cell(row, 2)
  }

  /** `currentDay` once the rows of `rows` have been scanned: the last non-empty day cell. */
  function CurrentDay(rows: seq<Row>): (r: Option<string>)
    ensures r.Some? ==> r.value != "" && IsTrimmed(r.value)
  {
    if rows == [] then None
    else if DayCell(rows[|rows| - 1]) != "" then Some(DayCell(rows[|rows| - 1]))
    else CurrentDay(rows[..|rows| - 1])
  }

  /** A free time of a day. */
  datatype Slot = Slot(day: string, time: string)

  /**
   * The slot a row adds, given `currentDay` after its own day cell has been read:
   * one exists when a day is known (`hasDay`), the time cell is non-empty (`hasTime`)
   * and the status cell is empty (`isFree`).
   */
  function RowSlot(current: Option<string>, row: Row): Option<Slot> {
    var hasDay := current.Some? && Trim(current.value) != "";
    var hasTime := TimeCell(row) != "";
    var isFree := StatusCell(row) == "";
    if hasDay && hasTime && isFree then Some(Slot(current.value, TimeCell(row))) else None
  }

  function OptionToSeq<T>(o: Option<T>): seq<T> {
    match o
    case None => []
    case Some(x) => [x]
  }

  /** The free slots of the rows, in row order. */
  function FreeSlots(rows: seq<Row>): seq<Slot> {
    if rows == [] then []
    else FreeSlots(rows[..|rows| - 1]) + OptionToSeq(RowSlot(CurrentDay(rows), rows[|rows| - 1]))
  }

  /** The entry `{ day, availableTimes }` of `orderedDaysData`. */
  datatype DayBucket = DayBucket(day: string, times: seq<string>)

  /** The position of the first bucket for day `d`, if any. */
  function FindDay(buckets: seq<DayBucket>, d: string): (r: Option<nat>)
    ensures r.Some? ==> r.value < |buckets| && buckets[r.value].day == d
    ensures r.None? ==> forall i :: 0 <= i < |buckets| ==> buckets[i].day != d
  {
    if buckets == [] then None
    else if buckets[0].day == d then Some(0)
    else match FindDay(buckets[1..], d)
      case None => None
      case Some(i) => Some(i + 1)
  }

  /**
   * One free slot into the buckets: appended to its day's bucket, or a new bucket at the
   * end when the day has none yet (`dayMap.has(currentDay)`).
   */
  function AddSlot(buckets: seq<DayBucket>, s: Slot): seq<DayBucket> {
    match FindDay(buckets, s.day)
    case Some(i) => buckets[i := buckets[i].(times := buckets[i].times + [s.time])]
    case None => buckets + [DayBucket(s.day, [s.time])]
  }

  /** The buckets built from the free slots, in order. */
  function GroupByDay(slots: seq<Slot>): seq<DayBucket> {
    if slots == [] then [] else AddSlot(GroupByDay(slots[..|slots| - 1]), slots[|slots| - 1])
  }

  /** The times of the slots of day `d`, in order. */
  function TimesOf(slots: seq<Slot>, d: string): seq<string> {
    if slots == [] then []
    else TimesOf(slots[..|slots| - 1], d) + (if slots[|slots| - 1].day == d then [slots[|slots| - 1].time] else [])
  }

  /** Every bucket day is distinct. */
  predicate DistinctDays(buckets: seq<DayBucket>) {
    forall i, j :: 0 <= i < j < |buckets| ==> buckets[i].day != buckets[j].day
  }

  /** Some slot belongs to day `d`. */
  predicate HasDay(slots: seq<Slot>, d: string) {
    exists k :: 0 <= k < |slots| && slots[k].day == d
  }

  /** `buckets` has distinct days, one per day of `slots`, each holding that day's times in order. */
  ghost predicate BucketsOf(slots: seq<Slot>, buckets: seq<DayBucket>) {
    DistinctDays(buckets)
    && (forall d :: FindDay(buckets, d).Some? <==> HasDay(slots, d))
    && (forall i :: 0 <= i < |buckets| ==> buckets[i].times == TimesOf(slots, buckets[i].day))
  }

  /**
   * The buckets: one per day that has a free slot and no other, each holding exactly
   * that day's free times in order, and all with distinct days.
   */
  lemma {:induction false} GroupByDaySpec(slots: seq<Slot>)
    ensures DistinctDays(GroupByDay(slots))
    ensures forall d :: FindDay(GroupByDay(slots), d).Some? <==> HasDay(slots, d)
    ensures forall i :: 0 <= i < |GroupByDay(slots)| ==>
      GroupByDay(slots)[i].times == TimesOf(slots, GroupByDay(slots)[i].day)
  {
    if slots != [] {
      var init, s := slots[..|slots| - 1], slots[|slots| - 1];
      GroupByDaySpec(init);
      assert init + [s] == slots;
      AddSlotSpec(init, s, GroupByDay(init));
    }
  }

  /** Adding a slot to the buckets of `init` gives the buckets of `init + [s]`. */
  lemma AddSlotSpec(init: seq<Slot>, s: Slot, g: seq<DayBucket>)
    requires BucketsOf(init, g)
    ensures BucketsOf(init + [s], AddSlot(g, s))
  {
    var slots := init + [s];
    assert slots[..|slots| - 1] == init;
    HasDayLast(slots);
    if FindDay(g, s.day).Some? {
      AddSlotToBucket(init, s, g);
    } else {
      AddSlotNewBucket(init, s, g);
    }
  }

  lemma AddSlotToBucket(init: seq<Slot>, s: Slot, g: seq<DayBucket>)
    requires BucketsOf(init, g) && FindDay(g, s.day).Some?
    requires forall d :: HasDay(init + [s], d) <==> HasDay(init, d) || s.day == d
    ensures BucketsOf(init + [s], AddSlot(g, s))
  {
    var slots := init + [s];
    assert slots[..|slots| - 1] == init;
    var g' := AddSlot(g, s);
    assert |g'| == |g|;
    forall i | 0 <= i < |g'|
      ensures g'[i].times == TimesOf(slots, g'[i].day)
    {
      assert g'[i].day == g[i].day;
    }
    forall d
      ensures FindDay(g', d).Some? <==> FindDay(g, d).Some?
    {
      if FindDay(g, d).Some? {
        assert g'[FindDay(g, d).value].day == d;
      }
      if FindDay(g', d).Some? {
        assert g[FindDay(g', d).value].day == d;
      }
    }
  }

  lemma AddSlotNewBucket(init: seq<Slot>, s: Slot, g: seq<DayBucket>)
    requires BucketsOf(init, g) && FindDay(g, s.day).None?
    requires forall d :: HasDay(init + [s], d) <==> HasDay(init, d) || s.day == d
    ensures BucketsOf(init + [s], AddSlot(g, s))
  {
    var slots := init + [s];
    assert slots[..|slots| - 1] == init;
    var g' := AddSlot(g, s);
    assert !HasDay(init, s.day);
    assert TimesOf(init, s.day) == [] by {
      NoDayNoTimes(init, s.day);
    }
    forall d
      ensures FindDay(g', d).Some? <==> FindDay(g, d).Some? || s.day == d
    {
      if FindDay(g, d).Some? {
        assert g'[FindDay(g, d).value].day == d;
      }
      if s.day == d {
        assert g'[|g|].day == d;
      }
      if FindDay(g', d).Some? && FindDay(g', d).value < |g| {
        assert g[FindDay(g', d).value].day == d;
      }
    }
  }

  /** The days of a non-empty list are those before its last slot and the last slot's own. */
  lemma HasDayLast(slots: seq<Slot>)
    requires slots != []
    ensures forall d :: HasDay(slots, d) <==> HasDay(slots[..|slots| - 1], d) || slots[|slots| - 1].day == d
  {
    var init := slots[..|slots| - 1];
    forall d
      ensures HasDay(slots, d) <==> HasDay(init, d) || slots[|slots| - 1].day == d
    {
      if HasDay(slots, d) && slots[|slots| - 1].day != d {
        var k :| 0 <= k < |slots| && slots[k].day == d;
        assert init[k].day == d;
      }
      if HasDay(init, d) {
        var k :| 0 <= k < |init| && init[k].day == d;
        assert slots[k].day == d;
      }
    }
  }

  lemma {:induction false} NoDayNoTimes(slots: seq<Slot>, d: string)
    requires !HasDay(slots, d)
    ensures TimesOf(slots, d) == []
  {
    if slots != [] {
      var init := slots[..|slots| - 1];
      assert slots[|slots| - 1].day != d;
      forall k | 0 <= k < |init|
        ensures init[k].day != d
      {
        assert init[k] == slots[k];
      }
      NoDayNoTimes(init, d);
    }
  }

  /** `x` is one of the times of day `d`. */
  lemma {:induction false} TimesOfMembers(slots: seq<Slot>, d: string, x: string)
    ensures x in TimesOf(slots, d) <==> exists k :: 0 <= k < |slots| && slots[k] == Slot(d, x)
  {
    if slots != [] {
      var init := slots[..|slots| - 1];
      TimesOfMembers(init, d, x);
      if exists k :: 0 <= k < |init| && init[k] == Slot(d, x) {
        var k :| 0 <= k < |init| && init[k] == Slot(d, x);
        assert slots[k] == Slot(d, x);
      }
      if exists k :: 0 <= k < |slots| && slots[k] == Slot(d, x) {
        var k :| 0 <= k < |slots| && slots[k] == Slot(d, x);
        if k < |init| {
          assert init[k] == Slot(d, x);
        }
      }
    }
  }

  /** A day that has a slot has at least one time. */
  lemma {:induction false} TimesOfHasDay(slots: seq<Slot>, d: string)
    requires HasDay(slots, d)
    ensures TimesOf(slots, d) != []
  {
    var k :| 0 <= k < |slots| && slots[k].day == d;
    TimesOfMembers(slots, d, slots[k].time);
    assert slots[k] == Slot(d, slots[k].time);
  }

  /** Every bucket has at least one time, and each time is a free time of its day. */
  lemma GroupByDayTimes(slots: seq<Slot>, i: nat, x: string)
    requires i < |GroupByDay(slots)|
    ensures GroupByDay(slots)[i].times != []
    ensures x in GroupByDay(slots)[i].times <==>
      exists k :: 0 <= k < |slots| && slots[k] == Slot(GroupByDay(slots)[i].day, x)
  {
    var g := GroupByDay(slots);
    GroupByDaySpec(slots);
    assert FindDay(g, g[i].day).Some?;
    TimesOfHasDay(slots, g[i].day);
    TimesOfMembers(slots, g[i].day, x);
  }

  /** A slot of day `a` comes before every slot of day `b`. */
  predicate FirstBefore(slots: seq<Slot>, a: string, b: string) {
    exists k :: 0 <= k < |slots| && slots[k].day == a && forall l :: 0 <= l <= k ==> slots[l].day != b
  }

  lemma FirstBeforeExtend(slots: seq<Slot>, s: Slot, a: string, b: string)
    requires FirstBefore(slots, a, b)
    ensures FirstBefore(slots + [s], a, b)
  {
    var k :| 0 <= k < |slots| && slots[k].day == a && forall l :: 0 <= l <= k ==> slots[l].day != b;
    var t := slots + [s];
    assert t[k].day == a;
    forall l | 0 <= l <= k
      ensures t[l].day != b
    {
      assert t[l] == slots[l];
    }
  }

  lemma FirstBeforeNewDay(slots: seq<Slot>, s: Slot, a: string)
    requires HasDay(slots, a) && !HasDay(slots, s.day)
    ensures FirstBefore(slots + [s], a, s.day)
  {
    var k :| 0 <= k < |slots| && slots[k].day == a;
    var t := slots + [s];
    assert t[k].day == a;
    forall l | 0 <= l <= k
      ensures t[l].day != s.day
    {
      assert t[l] == slots[l];
    }
  }

  /**
   * Buckets come in the order in which their days first have a free slot: the bucket at
   * `i` has a slot before any slot of the bucket at `j > i`.
   */
  lemma {:induction false} GroupByDayOrder(slots: seq<Slot>)
    ensures forall i, j :: 0 <= i < j < |GroupByDay(slots)| ==>
      FirstBefore(slots, GroupByDay(slots)[i].day, GroupByDay(slots)[j].day)
  {
    if slots != [] {
      var init, s := slots[..|slots| - 1], slots[|slots| - 1];
      assert slots == init + [s];
      GroupByDayOrder(init);
      GroupByDaySpec(init);
      var g := GroupByDay(init);
      var g' := GroupByDay(slots);
      forall i, j | 0 <= i < j < |g'|
        ensures FirstBefore(slots, g'[i].day, g'[j].day)
      {
        assert g'[i].day == g[i].day;
        if j < |g| {
          assert g'[j].day == g[j].day;
          FirstBeforeExtend(init, s, g[i].day, g[j].day);
        } else {
          assert FindDay(g, s.day).None?;
          assert g'[j].day == s.day;
          assert FindDay(g, g[i].day).Some?;
          FirstBeforeNewDay(init, s, g[i].day);
        }
      }
    }
  }

  /** Row `j` holds the day label `d` and no row after it holds one. */
  predicate LastLabel(rows: seq<Row>, j: int, d: string) {
    0 <= j < |rows| && DayCell(rows[j]) == d && d != "" &&
    forall l :: j < l < |rows| ==> DayCell(rows[l]) == ""
  }

  lemma LastLabelExtend(rows: seq<Row>, r: Row, j: int, d: string)
    requires DayCell(r) == ""
    ensures LastLabel(rows, j, d) <==> LastLabel(rows + [r], j, d)
  {
    var t := rows + [r];
    if LastLabel(rows, j, d) {
      assert t[j] == rows[j];
      forall l | j < l < |t|
        ensures DayCell(t[l]) == ""
      {
        if l < |rows| {
          assert t[l] == rows[l];
        }
      }
    }
    if LastLabel(t, j, d) && j < |rows| {
      assert t[j] == rows[j];
      forall l | j < l < |rows|
        ensures DayCell(rows[l]) == ""
      {
        assert t[l] == rows[l];
      }
    }
  }

  /** `currentDay` is the last non-empty day label so far. */
  lemma {:induction false} CurrentDaySome(rows: seq<Row>, d: string)
    ensures CurrentDay(rows) == Some(d) <==> exists j :: LastLabel(rows, j, d)
  {
    if rows != [] {
      var n := |rows| - 1;
      var init, r := rows[..n], rows[n];
      assert rows == init + [r];
      if DayCell(r) == "" {
        CurrentDaySome(init, d);
        forall j
          ensures LastLabel(init, j, d) <==> LastLabel(rows, j, d)
        {
          LastLabelExtend(init, r, j, d);
        }
        if exists j :: LastLabel(rows, j, d) {
          var j :| LastLabel(rows, j, d);
          assert j < n;
          assert LastLabel(init, j, d);
        }
      } else {
        if CurrentDay(rows) == Some(d) {
          assert LastLabel(rows, n, d);
        }
        if exists j :: LastLabel(rows, j, d) {
          var j :| LastLabel(rows, j, d);
          assert j == n;
        }
      }
    }
  }

  /** Before the first non-empty day label there is no `currentDay`. */
  lemma {:induction false} CurrentDayNone(rows: seq<Row>)
    ensures CurrentDay(rows) == None <==> forall j :: 0 <= j < |rows| ==> DayCell(rows[j]) == ""
  {
    if rows != [] {
      var n := |rows| - 1;
      var init := rows[..n];
      if DayCell(rows[n]) == "" {
        CurrentDayNone(init);
        assert CurrentDay(rows) == CurrentDay(init);
        assert forall j :: 0 <= j < n ==> rows[j] == init[j];
      } else {
        assert CurrentDay(rows).Some?;
      }
    }
  }

  /** Row `i` is free and holds time `s.time` of day `s.day`. */
  predicate IsFreeRow(rows: seq<Row>, i: int, s: Slot)
    requires 0 <= i < |rows|
  {
    CurrentDay(rows[..i + 1]) == Some(s.day) && TimeCell(rows[i]) == s.time && s.time != ""
      && StatusCell(rows[i]) == ""
  }

  /** The slot of the last row is the one `IsFreeRow` describes. */
  lemma RowSlotLast(rows: seq<Row>, s: Slot)
    requires rows != []
    ensures s in OptionToSeq(RowSlot(CurrentDay(rows), rows[|rows| - 1])) <==> IsFreeRow(rows, |rows| - 1, s)
  {
    assert rows[..|rows|] == rows;
  }

  lemma IsFreeRowPrefix(rows: seq<Row>, n: int, i: int, s: Slot)
    requires 0 <= i < n <= |rows|
    ensures IsFreeRow(rows, i, s) <==> IsFreeRow(rows[..n], i, s)
  {
    assert rows[..i + 1] == rows[..n][..i + 1];
  }

  /** Some row is free and holds time `s.time` of day `s.day`. */
  predicate HasFreeRow(rows: seq<Row>, s: Slot) {
    exists i :: 0 <= i < |rows| && IsFreeRow(rows, i, s)
  }

  lemma HasFreeRowLast(rows: seq<Row>, s: Slot)
    requires rows != []
    ensures HasFreeRow(rows, s) <==> HasFreeRow(rows[..|rows| - 1], s) || IsFreeRow(rows, |rows| - 1, s)
  {
    var n := |rows| - 1;
    var init := rows[..n];
    if HasFreeRow(init, s) {
      var i :| 0 <= i < n && IsFreeRow(init, i, s);
      IsFreeRowPrefix(rows, n, i, s);
      assert IsFreeRow(rows, i, s);
    }
    if IsFreeRow(rows, n, s) {
      assert 0 <= n < |rows| && IsFreeRow(rows, n, s);
    }
    if HasFreeRow(rows, s) {
      var i :| 0 <= i < |rows| && IsFreeRow(rows, i, s);
      if i < n {
        IsFreeRowPrefix(rows, n, i, s);
        assert IsFreeRow(init, i, s);
      } else {
        assert i == n;
      }
    }
  }

  /** A slot is free exactly when some row holds that time, with no client, under that day's label. */
  lemma {:induction false} FreeSlotsMembers(rows: seq<Row>, s: Slot)
    ensures s in FreeSlots(rows) <==> HasFreeRow(rows, s)
  {
    if rows != [] {
      var n := |rows| - 1;
      var init := rows[..n];
      var last := OptionToSeq(RowSlot(CurrentDay(rows), rows[n]));
      assert FreeSlots(rows) == FreeSlots(init) + last;
      FreeSlotsMembers(init, s);
      RowSlotLast(rows, s);
      HasFreeRowLast(rows, s);
    }
  }

  /** `dayMap` maps each bucket's day to that bucket's position in `ordered`. */
  ghost predicate IndexesDays(dayMap: map<string, nat>, ordered: seq<DayBucket>) {
    forall d :: (d in dayMap <==> FindDay(ordered, d).Some?) &&
      (d in dayMap ==> FindDay(ordered, d) == Some(dayMap[d]))
  }

  lemma FindDayUpdateTimes(buckets: seq<DayBucket>, i: nat, times: seq<string>, d: string)
    requires i < |buckets|
    ensures FindDay(buckets[i := buckets[i].(times := times)], d) == FindDay(buckets, d)
  {
    if buckets != [] && i > 0 {
      assert buckets[i := buckets[i].(times := times)][1..] == buckets[1..][i - 1 := buckets[i].(times := times)];
      FindDayUpdateTimes(buckets[1..], i - 1, times, d);
    }
  }

  lemma FindDayAppend(buckets: seq<DayBucket>, b: DayBucket, d: string)
    ensures FindDay(buckets + [b], d) ==
      if FindDay(buckets, d).Some? then FindDay(buckets, d)
      else if b.day == d then Some(|buckets|) else None
  {
    if buckets != [] {
      assert (buckets + [b])[1..] == buckets[1..] + [b];
      FindDayAppend(buckets[1..], b, d);
    }
  }

  lemma FreeSlotsStep(rows: seq<Row>, k: nat)
    requires k < |rows|
    ensures FreeSlots(rows[..k + 1]) ==
      FreeSlots(rows[..k]) + OptionToSeq(RowSlot(CurrentDay(rows[..k + 1]), rows[k]))
    ensures CurrentDay(rows[..k + 1]) ==
      if DayCell(rows[k]) != "" then Some(DayCell(rows[k])) else CurrentDay(rows[..k])
  {
    assert rows[..k + 1][..k] == rows[..k];
  }

  lemma GroupByDayStep(slots: seq<Slot>, extra: seq<Slot>)
    requires |extra| <= 1
    ensures GroupByDay(slots + extra) ==
      if extra == [] then GroupByDay(slots) else AddSlot(GroupByDay(slots), extra[0])
  {
    if extra == [] {
      assert slots + extra == slots;
    } else {
      assert (slots + extra)[..|slots|] == slots;
    }
  }

  /**
   * `dayMap.has(currentDay)` / `dayMap.set` / `push`: the free time goes to its day's bucket,
   * a new bucket being opened at the end of `ordered` for a day not yet in `dayMap`.
   */
  method AddToBucket(ordered: seq<DayBucket>, dayMap: map<string, nat>, day: string, time: string)
    returns (ordered': seq<DayBucket>, dayMap': map<string, nat>)
    requires IndexesDays(dayMap, ordered)
    ensures ordered' == AddSlot(ordered, Slot(day, time))
    ensures IndexesDays(dayMap', ordered')
  {
    ordered', dayMap' := ordered, dayMap;
    ghost var found := FindDay(ordered, day);
    if day !in dayMap' {
      assert found.None?;
      forall d
        ensures FindDay(ordered' + [DayBucket(day, [])], d) ==
          if d == day then Some(|ordered'|) else FindDay(ordered', d)
      {
        FindDayAppend(ordered', DayBucket(day, []), d);
      }
      dayMap' := dayMap'[day := |ordered'|];
      ordered' := ordered' + [DayBucket(day, [])];
    }
    var at := dayMap'[day];
    var grown := ordered'[at].times + [time];
    forall d
      ensures FindDay(ordered'[at := ordered'[at].(times := grown)], d) == FindDay(ordered', d)
    {
      FindDayUpdateTimes(ordered', at, grown, d);
    }
    ordered' := ordered'[at := ordered'[at].(times := grown)];
    if found.None? {
      assert [] + [time] == [time];
      assert ordered' == ordered + [DayBucket(day, [time])];
    } else {
      assert at == found.value;
    }
  }

  /** What the row scan knows after its first `k` rows. */
  ghost predicate ScannedUpTo(rows: seq<Row>, k: nat, currentDay: Option<string>, ordered: seq<DayBucket>,
                              dayMap: map<string, nat>)
    requires k <= |rows|
  {
    currentDay == CurrentDay(rows[..k])
    && ordered == GroupByDay(FreeSlots(rows[..k]))
    && IndexesDays(dayMap, ordered)
  }

  /**
   * One turn of the row scan: read the three cells of row `k`, carry the day label forward,
   * and file the time when the row is free.
   */
  method ScanRow(rows: seq<Row>, k: nat, currentDay: Option<string>, ordered: seq<DayBucket>,
                 dayMap: map<string, nat>)
    returns (currentDay': Option<string>, ordered': seq<DayBucket>, dayMap': map<string, nat>)
    requires k < |rows| && ScannedUpTo(rows, k, currentDay, ordered, dayMap)
    ensures ScannedUpTo(rows, k + 1, currentDay', ordered', dayMap')
  {
    var row := rows[k];
    var dayCell := DayCell(row);
    var timeCell := TimeCell(row);
    var status := StatusCell(row);
    FreeSlotsStep(rows, k);
    ghost var added := OptionToSeq(RowSlot(CurrentDay(rows[..k + 1]), rows[k]));
    GroupByDayStep(FreeSlots(rows[..k]), added);
    currentDay', ordered', dayMap' := currentDay, ordered, dayMap;
    if dayCell != "" {
      currentDay' := Some(dayCell);
    }
    assert currentDay' == CurrentDay(rows[..k + 1]);
    var hasDay := currentDay'.Some? && Trim(currentDay'.value) != "";
    var hasTime := timeCell != "";
    var isFree := status == "";
    if hasDay && hasTime && isFree {
      assert added == [Slot(currentDay'.value, timeCell)];
      ordered', dayMap' := AddToBucket(ordered, dayMap, currentDay'.value, timeCell);
    } else {
      assert added == [];
    }
  }

  /**
   * The row scan of `getAvailableSlots`: carries `currentDay` forward and files each free
   * time under its day, in the order the days first have a free slot.
   */
  method GroupRows(rows: seq<Row>) returns (ordered: seq<DayBucket>)
    ensures ordered == GroupByDay(FreeSlots(rows))
  {
    ordered := [];
    var dayMap: map<string, nat> := map[];
    var currentDay: Option<string> := None;
    var k := 0;
    while k < |rows|
      invariant k <= |rows|
      invariant ScannedUpTo(rows, k, currentDay, ordered, dayMap)
    {
      currentDay, ordered, dayMap := ScanRow(rows, k, currentDay, ordered, dayMap);
      k := k + 1;
    }
    assert rows[..k] == rows;
  }
}
