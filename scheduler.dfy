/**
 * `getAvailableSlots`: the rows of the sheet (already fetched) become up to three days,
 * each offering up to 4, 4 and 3 of its free times, cleaned, sorted and spread evenly.
 */
module Scheduler {
  import opened Options
  import opened JsText
  import opened TimeLabels
  import opened EvenSampling
  import opened Grouping

  /** No label occurs twice. */
  predicate NoDuplicates(s: seq<string>) {
    forall i, j :: 0 <= i < j < |s| ==> s[i] != s[j]
  }

  /**
   * The `cleaned` list of one day: each time normalised by `norm`, empty ones dropped,
   * first occurrence kept. `getAvailableSlots` uses `Trim` as `norm`.
   */
  function CleanBy(times: seq<string>, norm: string -> string): (c: seq<string>)
    ensures |c| <= |times|
  {
    if times == [] then []
    else
      var c := CleanBy(times[..|times| - 1], norm);
      var s := norm(times[|times| - 1]);
      if s == "" || s in c then c else c + [s]
  }

  function CleanTimes(times: seq<string>): seq<string> {
    CleanBy(times, Trim)
  }

  /** Some entry of `times` normalises to `x`. */
  predicate MapsTo(times: seq<string>, norm: string -> string, x: string) {
    exists k :: 0 <= k < |times| && norm(times[k]) == x
  }

  lemma MapsToLast(times: seq<string>, norm: string -> string, x: string)
    requires times != []
    ensures MapsTo(times, norm, x) <==> MapsTo(times[..|times| - 1], norm, x) || norm(times[|times| - 1]) == x
  {
    var n := |times| - 1;
    if MapsTo(times[..n], norm, x) {
      var k :| 0 <= k < n && norm(times[..n][k]) == x;
      assert times[..n][k] == times[k];
    }
    if MapsTo(times, norm, x) {
      var k :| 0 <= k < |times| && norm(times[k]) == x;
      if k < n {
        assert times[..n][k] == times[k];
      }
    }
  }

  /** The cleaned list holds each non-empty normalised time exactly once, and nothing else. */
  lemma {:induction false} CleanBySpec(times: seq<string>, norm: string -> string)
    ensures NoDuplicates(CleanBy(times, norm))
    ensures forall x :: x in CleanBy(times, norm) <==> x != "" && MapsTo(times, norm, x)
  {
    if times != [] {
      var init := times[..|times| - 1];
      CleanBySpec(init, norm);
      forall x
        ensures MapsTo(times, norm, x) <==> MapsTo(init, norm, x) || norm(times[|times| - 1]) == x
      {
        MapsToLast(times, norm, x);
      }
    }
  }

  /** A time normalising to `a` comes before any time normalising to `b`. */
  predicate MappedBefore(times: seq<string>, norm: string -> string, a: string, b: string) {
    exists k :: 0 <= k < |times| && norm(times[k]) == a && forall l :: 0 <= l <= k ==> norm(times[l]) != b
  }

  lemma MappedBeforeExtend(times: seq<string>, norm: string -> string, t: string, a: string, b: string)
    requires MappedBefore(times, norm, a, b)
    ensures MappedBefore(times + [t], norm, a, b)
  {
    var k :| 0 <= k < |times| && norm(times[k]) == a && forall l :: 0 <= l <= k ==> norm(times[l]) != b;
    var u := times + [t];
    assert u[k] == times[k];
    forall l | 0 <= l <= k
      ensures norm(u[l]) != b
    {
      assert u[l] == times[l];
    }
  }

  lemma MappedBeforeNew(times: seq<string>, norm: string -> string, t: string, a: string)
    requires MapsTo(times, norm, a) && !MapsTo(times, norm, norm(t))
    ensures MappedBefore(times + [t], norm, a, norm(t))
  {
    var k :| 0 <= k < |times| && norm(times[k]) == a;
    var u := times + [t];
    assert u[k] == times[k];
    forall l | 0 <= l <= k
      ensures norm(u[l]) != norm(t)
    {
      assert u[l] == times[l];
    }
  }

  /** Cleaning keeps the order in which the times first appear. */
  lemma {:induction false} CleanByOrder(times: seq<string>, norm: string -> string)
    ensures forall i, j :: 0 <= i < j < |CleanBy(times, norm)| ==>
      MappedBefore(times, norm, CleanBy(times, norm)[i], CleanBy(times, norm)[j])
  {
    if times != [] {
      var init, t := times[..|times| - 1], times[|times| - 1];
      assert times == init + [t];
      CleanByOrder(init, norm);
      CleanBySpec(init, norm);
      var c := CleanBy(init, norm);
      var c' := CleanBy(times, norm);
      forall i, j | 0 <= i < j < |c'|
        ensures MappedBefore(times, norm, c'[i], c'[j])
      {
        if j < |c| {
          MappedBeforeExtend(init, norm, t, c[i], c[j]);
        } else {
          assert c[i] in c;
          MappedBeforeNew(init, norm, t, c[i]);
        }
      }
    }
  }

  /** The loop of `getAvailableSlots` that builds `cleaned`, with its `seen` set. */
  method Clean(availableTimes: seq<string>) returns (cleaned: seq<string>)
    ensures cleaned == CleanBy(availableTimes, Trim)
  {
    var seen: set<string> := {};
    cleaned := [];
    for k := 0 to |availableTimes|
      invariant cleaned == CleanBy(availableTimes[..k], Trim)
      invariant forall x :: x in seen <==> x in cleaned
    {
      assert availableTimes[..k + 1][..k] == availableTimes[..k];
      var s := Trim(availableTimes[k]);
      if s != "" {
        if s !in seen {
          seen := seen + {s};
          cleaned := cleaned + [s];
        }
      }
    }
    assert availableTimes[..|availableTimes|] == availableTimes;
  }

  /** `perDayTargets`: how many times the first, second and third day offer. */
  const PerDayTargets: seq<nat> := [4, 4, 3]

  /** An entry `{ day, slots }` of the result. */
  datatype DaySlots = DaySlots(day: string, slots: seq<string>)

  /**
   * What the sheet read gave back: the `values` of the range, or the error it raised, given
   * by its `message` property (if any) and by its conversion to a string.
   */
  datatype SheetResponse = Values(values: Option<seq<Row>>) | Failure(message: Option<string>, asString: string)

  /** The resolved value of `getAvailableSlots`: the offered days, or `{ error, details }`. */
  datatype SchedulerResult = Available(days: seq<DaySlots>) | SchedulerError(error: string, details: string)

  lemma TargetAtLeastTwo(i: nat)
    requires i < |PerDayTargets|
    ensures PerDayTargets[i] >= 2
  {
  }

  const InternalError := "Error Interno del Scheduler"

  function Min(a: int, b: int): int {
    if a <= b then a else b
  }

  /** The times day bucket `b` offers when `target` of them are wanted. */
  function Offered(b: DayBucket, target: nat): seq<string>
    requires target >= 2
  {
    EvenSample(SortByTime(CleanTimes(b.times)), target)
  }

  /** What one pass of the selection loop adds for bucket `b`: nothing, or one entry. */
  function DayEntry(b: DayBucket, target: nat): seq<DaySlots>
    requires target >= 2
  {
    if b.times == [] || CleanTimes(b.times) == [] || Offered(b, target) == [] then []
    else [DaySlots(b.day, Offered(b, target))]
  }

  /** The entries the selection loop has produced after its first `count` passes. */
  function Entries(buckets: seq<DayBucket>, count: nat): (r: seq<DaySlots>)
    requires count <= |buckets| && count <= |PerDayTargets|
    ensures |r| <= count
  {
    if count == 0 then []
    else Entries(buckets, count - 1) + DayEntry(buckets[count - 1], PerDayTargets[count - 1])
  }

  /** The days and times offered for the rows of the sheet. */
  function Schedule(rows: seq<Row>): (r: seq<DaySlots>)
    ensures |r| <= 3
  {
    var buckets := GroupByDay(FreeSlots(rows));
    Entries(buckets, Min(3, |buckets|))
  }

  function RowsOf(values: Option<seq<Row>>): seq<Row> {
    match values
    case None => []
    case Some(rows) => rows
  }

  /**
   * One pass of the selection loop: clean the day's times, sort them by time of day and
   * pick `target` of them evenly; a day left with no time adds no entry.
   */
  method SelectDay(bucket: DayBucket, target: nat) returns (entry: seq<DaySlots>)
    requires target >= 2
    ensures entry == DayEntry(bucket, target)
  {
    entry := [];
    if bucket.times != [] {
      var cleaned := Clean(bucket.times);
      if cleaned != [] {
        var sorted := SortByTime(cleaned);
        var chosen := PickEvenly(sorted, target);
        if |chosen| > 0 {
          entry := [DaySlots(bucket.day, chosen)];
        }
      }
    }
  }

  /** The selection loop: up to three days, each cut down to its target by `SelectDay`. */
  method SelectDays(orderedDaysData: seq<DayBucket>) returns (result: seq<DaySlots>)
    ensures result == Entries(orderedDaysData, Min(3, |orderedDaysData|))
  {
    result := [];
    var i := 0;
    while i < Min(3, |orderedDaysData|)
      invariant i <= Min(3, |orderedDaysData|)
      invariant result == Entries(orderedDaysData, i)
    {
      var entry := SelectDay(orderedDaysData[i], PerDayTargets[i]);
      result := result + entry;
      i := i + 1;
    }
  }

  /**
   * `getAvailableSlots` once the sheet has been read: an error of the read becomes the
   * internal-error object, whose details are the error's message or, when that is missing or
   * empty, the error converted to a string; the rows become the offered days.
   */
  method GetAvailableSlots(response: SheetResponse) returns (r: SchedulerResult)
    ensures response.Failure? && response.message.Some? && response.message.value != "" ==>
      r == SchedulerError(InternalError, response.message.value)
    ensures response.Failure? && (response.message.None? || response.message.value == "") ==>
      r == SchedulerError(InternalError, response.asString)
    ensures response.Values? ==> r == Available(Schedule(RowsOf(response.values)))
  {
    if response.Failure? {
      var details := if response.message.Some? && response.message.value != "" then response.message.value
                     else response.asString;
      return SchedulerError(InternalError, details);
    }
    if response.values.None? || response.values.value == [] {
      assert Schedule([]) == [];
      return Available([]);
    }
    var rows := response.values.value;
    var orderedDaysData := GroupRows(rows);
    if |orderedDaysData| == 0 {
      return Available([]);
    }
    var result := SelectDays(orderedDaysData);
    return Available(result);
  }

  /** A duplicate-free sequence counts each of its elements once. */
  lemma {:induction false} NoDuplicatesCount(s: seq<string>)
    ensures NoDuplicates(s) <==> forall x :: x in s ==> multiset(s)[x] == 1
  {
    if s != [] {
      var init, y := s[..|s| - 1], s[|s| - 1];
      assert s == init + [y];
      NoDuplicatesCount(init);
      if NoDuplicates(s) {
        assert NoDuplicates(init);
        assert y !in init by {
          forall k | 0 <= k < |init|
            ensures init[k] != y
          {
            assert s[k] == init[k];
          }
        }
      }
      if forall x :: x in s ==> multiset(s)[x] == 1 {
        assert forall x :: x in init ==> multiset(init)[x] == 1 by {
          forall x | x in init
            ensures multiset(init)[x] == 1
          {
            assert x in s;
          }
        }
        assert y !in init by {
          assert multiset(s)[y] == multiset(init)[y] + 1;
        }
        forall i, j | 0 <= i < j < |s|
          ensures s[i] != s[j]
        {
          if j < |init| {
            assert s[i] == init[i] && s[j] == init[j];
          } else {
            assert s[i] in init;
          }
        }
      }
    }
  }

  lemma NoDuplicatesPermutation(a: seq<string>, b: seq<string>)
    requires NoDuplicates(a) && multiset(a) == multiset(b)
    ensures NoDuplicates(b)
  {
    NoDuplicatesCount(a);
    NoDuplicatesCount(b);
    forall x | x in b
      ensures x in a
    {
      assert x in multiset(b);
    }
  }

  /** An even sample of a sorted, duplicate-free sequence is sorted, duplicate-free and drawn from it. */
  lemma SampleOfSorted(arr: seq<string>, m: nat)
    requires m >= 2 && SortedBy(arr, ToDayMinutes12h) && NoDuplicates(arr)
    ensures SortedBy(EvenSample(arr, m), ToDayMinutes12h)
    ensures NoDuplicates(EvenSample(arr, m))
    ensures forall x :: x in EvenSample(arr, m) ==> x in arr
    ensures |EvenSample(arr, m)| == Min(m, |arr|)
  {
    if m < |arr| {
      EvenSampleSpec(arr, m);
      var e := EvenSample(arr, m);
      forall i, j | 0 <= i < j < |e|
        ensures KeyLe(ToDayMinutes12h(e[i]), ToDayMinutes12h(e[j])) && e[i] != e[j]
      {
        assert e[i] == arr[EvenIndex(|arr|, m, i)] && e[j] == arr[EvenIndex(|arr|, m, j)];
      }
      forall x | x in e
        ensures x in arr
      {
        var j :| 0 <= j < |e| && e[j] == x;
        assert e[j] == arr[EvenIndex(|arr|, m, j)];
      }
    }
  }

  /** The free times of a day are non-empty, already trimmed, and so cleaning only removes repeats. */
  lemma CleanOfTrimmed(times: seq<string>)
    requires forall x :: x in times ==> x != "" && IsTrimmed(x)
    ensures NoDuplicates(CleanTimes(times))
    ensures forall x :: x in CleanTimes(times) <==> x in times
  {
    CleanBySpec(times, Trim);
    forall x
      ensures MapsTo(times, Trim, x) <==> x in times
    {
      if x in times {
        var k :| 0 <= k < |times| && times[k] == x;
        assert Trim(times[k]) == x;
      }
    }
  }

  /**
   * What a bucket of trimmed, non-empty times offers: at most `target` of its distinct
   * times (all of them when there are no more), sorted by time of day, without repeats.
   */
  lemma OfferedSpec(b: DayBucket, target: nat)
    requires target >= 2
    requires forall x :: x in b.times ==> x != "" && IsTrimmed(x)
    ensures |Offered(b, target)| == Min(target, |CleanTimes(b.times)|)
    ensures SortedBy(Offered(b, target), ToDayMinutes12h) && NoDuplicates(Offered(b, target))
    ensures forall x :: x in Offered(b, target) ==> x in b.times
    ensures |CleanTimes(b.times)| <= target ==> forall x :: x in b.times ==> x in Offered(b, target)
  {
    var cleaned := CleanTimes(b.times);
    var sorted := SortByTime(cleaned);
    CleanOfTrimmed(b.times);
    SortByTimeSpec(cleaned, PosInfinity);
    NoDuplicatesPermutation(cleaned, sorted);
    SampleOfSorted(sorted, target);
    forall x | x in sorted
      ensures x in cleaned
    {
      assert x in multiset(sorted);
    }
    if |cleaned| <= target {
      forall x | x in b.times
        ensures x in Offered(b, target)
      {
        assert x in multiset(cleaned);
      }
    }
  }

  /** The ends of an even sample of a sorted sequence bound all of it. */
  lemma SampleEnds(arr: seq<string>, m: nat, key: string -> DayMinutes, k: nat)
    requires m >= 2 && SortedBy(arr, key) && k < |arr|
    ensures EvenSample(arr, m) != []
    ensures KeyLe(key(EvenSample(arr, m)[0]), key(arr[k]))
    ensures KeyLe(key(arr[k]), key(EvenSample(arr, m)[|EvenSample(arr, m)| - 1]))
  {
    var e := EvenSample(arr, m);
    if m < |arr| {
      EvenSampleSpec(arr, m);
    }
    assert e[0] == arr[0] && e[|e| - 1] == arr[|arr| - 1];
    assert k == 0 || KeyLe(key(arr[0]), key(arr[k]));
    assert k == |arr| - 1 || KeyLe(key(arr[k]), key(arr[|arr| - 1]));
  }

  /** The first time offered is the day's earliest free time, and the last one its latest. */
  lemma OfferedEnds(b: DayBucket, target: nat, x: string)
    requires target >= 2 && x in b.times
    requires forall y :: y in b.times ==> y != "" && IsTrimmed(y)
    ensures Offered(b, target) != []
    ensures KeyLe(ToDayMinutes12h(Offered(b, target)[0]), ToDayMinutes12h(x))
    ensures KeyLe(ToDayMinutes12h(x), ToDayMinutes12h(Offered(b, target)[|Offered(b, target)| - 1]))
  {
    var cleaned := CleanTimes(b.times);
    var sorted := SortByTime(cleaned);
    CleanOfTrimmed(b.times);
    SortByTimeSpec(cleaned, PosInfinity);
    assert x in multiset(sorted);
    var k :| 0 <= k < |sorted| && sorted[k] == x;
    SampleEnds(sorted, target, ToDayMinutes12h, k);
  }

  /** A bucket holding at least one time, each non-empty and trimmed. */
  predicate FreeTimesBucket(b: DayBucket) {
    b.times != [] && forall x :: x in b.times ==> x != "" && IsTrimmed(x)
  }

  /** A bucket's times are exactly the free times of its day, and they are trimmed and non-empty. */
  lemma BucketTimes(rows: seq<Row>, i: nat, x: string)
    requires i < |GroupByDay(FreeSlots(rows))|
    ensures x in GroupByDay(FreeSlots(rows))[i].times <==> HasFreeRow(rows, Slot(GroupByDay(FreeSlots(rows))[i].day, x))
    ensures x in GroupByDay(FreeSlots(rows))[i].times ==> x != "" && IsTrimmed(x)
    ensures GroupByDay(FreeSlots(rows))[i].times != []
  {
    var slots := FreeSlots(rows);
    var d := GroupByDay(slots)[i].day;
    GroupByDayTimes(slots, i, x);
    FreeSlotsMembers(rows, Slot(d, x));
    if HasFreeRow(rows, Slot(d, x)) {
      var r :| 0 <= r < |rows| && IsFreeRow(rows, r, Slot(d, x));
      assert TimeCell(rows[r]) == x;
    }
  }

  lemma BucketsOfRows(rows: seq<Row>)
    ensures forall i :: 0 <= i < |GroupByDay(FreeSlots(rows))| ==> FreeTimesBucket(GroupByDay(FreeSlots(rows))[i])
  {
    var g := GroupByDay(FreeSlots(rows));
    forall i | 0 <= i < |g|
      ensures FreeTimesBucket(g[i])
    {
      forall x | x in g[i].times
        ensures x != "" && IsTrimmed(x)
      {
        BucketTimes(rows, i, x);
      }
      BucketTimes(rows, i, "");
    }
  }

  /** Every such bucket yields an entry: no day among the first three is skipped. */
  lemma DayEntryOfFreeTimes(b: DayBucket, target: nat)
    requires target >= 2 && FreeTimesBucket(b)
    ensures DayEntry(b, target) == [DaySlots(b.day, Offered(b, target))]
  {
    CleanOfTrimmed(b.times);
    assert b.times[0] in CleanTimes(b.times);
    OfferedSpec(b, target);
  }

  lemma {:induction false} EntriesOfFreeTimes(buckets: seq<DayBucket>, count: nat)
    requires count <= |buckets| && count <= |PerDayTargets|
    requires forall i :: 0 <= i < count ==> FreeTimesBucket(buckets[i])
    ensures |Entries(buckets, count)| == count
    ensures forall i :: 0 <= i < count ==>
      Entries(buckets, count)[i] == DaySlots(buckets[i].day, Offered(buckets[i], PerDayTargets[i]))
  {
    if count > 0 {
      EntriesOfFreeTimes(buckets, count - 1);
      DayEntryOfFreeTimes(buckets[count - 1], PerDayTargets[count - 1]);
    }
  }

  /**
   * One entry for each of the first three days that have a free slot, in bucket order,
   * each offering what `Offered` selects for that day's target.
   */
  lemma ScheduleShape(rows: seq<Row>)
    ensures |Schedule(rows)| == Min(3, |GroupByDay(FreeSlots(rows))|)
    ensures forall i :: 0 <= i < |Schedule(rows)| ==>
      Schedule(rows)[i] == DaySlots(GroupByDay(FreeSlots(rows))[i].day,
        Offered(GroupByDay(FreeSlots(rows))[i], PerDayTargets[i]))
  {
    var g := GroupByDay(FreeSlots(rows));
    BucketsOfRows(rows);
    EntriesOfFreeTimes(g, Min(3, |g|));
  }

  /** There is nothing to offer exactly when no row is a free slot. */
  lemma ScheduleEmpty(rows: seq<Row>)
    ensures Schedule(rows) == [] <==> FreeSlots(rows) == []
  {
    var slots := FreeSlots(rows);
    ScheduleShape(rows);
    GroupByDaySpec(slots);
    if slots != [] {
      assert HasDay(slots, slots[0].day);
      assert FindDay(GroupByDay(slots), slots[0].day).Some?;
    }
  }

  /**
   * The offered days are distinct days that have a free slot, in the order in which they
   * first have one; a day with a free slot is left out only when three earlier days were offered.
   */
  lemma ScheduleDays(rows: seq<Row>, d: string)
    ensures forall i, j :: 0 <= i < j < |Schedule(rows)| ==>
      Schedule(rows)[i].day != Schedule(rows)[j].day &&
      FirstBefore(FreeSlots(rows), Schedule(rows)[i].day, Schedule(rows)[j].day)
    ensures forall i :: 0 <= i < |Schedule(rows)| ==> HasDay(FreeSlots(rows), Schedule(rows)[i].day)
    ensures HasDay(FreeSlots(rows), d) ==>
      (exists i :: 0 <= i < |Schedule(rows)| && Schedule(rows)[i].day == d) ||
      (|Schedule(rows)| == 3 && FirstBefore(FreeSlots(rows), Schedule(rows)[2].day, d))
  {
    var slots := FreeSlots(rows);
    var g := GroupByDay(slots);
    var sched := Schedule(rows);
    ScheduleShape(rows);
    GroupByDaySpec(slots);
    GroupByDayOrder(slots);
    forall i | 0 <= i < |sched|
      ensures HasDay(slots, sched[i].day)
    {
      assert sched[i].day == g[i].day;
      assert FindDay(g, g[i].day).Some?;
    }
    forall i, j | 0 <= i < j < |sched|
      ensures sched[i].day != sched[j].day && FirstBefore(slots, sched[i].day, sched[j].day)
    {
      assert sched[i].day == g[i].day && sched[j].day == g[j].day;
    }
    if HasDay(slots, d) {
      var p := FindDay(g, d).value;
      if p < |sched| {
        assert sched[p].day == d;
      } else {
        assert sched[2].day == g[2].day;
      }
    }
  }

  /** The entry at `i` is what bucket `i` offers, and that bucket holds free times. */
  lemma ScheduleEntry(rows: seq<Row>, i: nat)
    requires i < |Schedule(rows)|
    ensures i < |GroupByDay(FreeSlots(rows))| && FreeTimesBucket(GroupByDay(FreeSlots(rows))[i])
    ensures PerDayTargets[i] >= 2
    ensures Schedule(rows)[i] == DaySlots(GroupByDay(FreeSlots(rows))[i].day,
      Offered(GroupByDay(FreeSlots(rows))[i], PerDayTargets[i]))
  {
    ScheduleShape(rows);
    BucketsOfRows(rows);
    TargetAtLeastTwo(i);
  }

  /** `OfferedSpec` and `OfferedEnds` for one time `x` of a bucket of free times. */
  lemma OfferedFacts(b: DayBucket, t: nat, x: string)
    requires t >= 2 && FreeTimesBucket(b)
    ensures 1 <= |Offered(b, t)| <= t
    ensures SortedBy(Offered(b, t), ToDayMinutes12h) && NoDuplicates(Offered(b, t))
    ensures x in Offered(b, t) ==> x in b.times
    ensures x in b.times ==>
      KeyLe(ToDayMinutes12h(Offered(b, t)[0]), ToDayMinutes12h(x)) &&
      KeyLe(ToDayMinutes12h(x), ToDayMinutes12h(Offered(b, t)[|Offered(b, t)| - 1]))
    ensures |Offered(b, t)| < t && x in b.times ==> x in Offered(b, t)
  {
    OfferedSpec(b, t);
    CleanOfTrimmed(b.times);
    assert b.times[0] in CleanTimes(b.times);
    if x in b.times {
      OfferedEnds(b, t, x);
    }
  }

  /** A day offers at least one and at most its target of times, sorted by time of day, without repeats. */
  lemma ScheduleTimesSorted(rows: seq<Row>, i: nat)
    requires i < |Schedule(rows)|
    ensures 1 <= |Schedule(rows)[i].slots| <= PerDayTargets[i]
    ensures SortedBy(Schedule(rows)[i].slots, ToDayMinutes12h)
    ensures NoDuplicates(Schedule(rows)[i].slots)
  {
    ScheduleEntry(rows, i);
    var b := GroupByDay(FreeSlots(rows))[i];
    OfferedFacts(b, PerDayTargets[i], "");
  }

  /**
   * Every time offered for a day is a free time of that day, and when fewer times than
   * the target are offered, every free time of the day is.
   */
  lemma ScheduleTimesFree(rows: seq<Row>, i: nat, x: string)
    requires i < |Schedule(rows)|
    ensures x in Schedule(rows)[i].slots ==> HasFreeRow(rows, Slot(Schedule(rows)[i].day, x))
    ensures |Schedule(rows)[i].slots| < PerDayTargets[i] && HasFreeRow(rows, Slot(Schedule(rows)[i].day, x)) ==>
      x in Schedule(rows)[i].slots
  {
    ScheduleEntry(rows, i);
    var b := GroupByDay(FreeSlots(rows))[i];
    BucketTimes(rows, i, x);
    OfferedFacts(b, PerDayTargets[i], x);
  }

  /** The times offered for a day run from its earliest free time to its latest. */
  lemma ScheduleTimesEnds(rows: seq<Row>, i: nat, x: string)
    requires i < |Schedule(rows)| && HasFreeRow(rows, Slot(Schedule(rows)[i].day, x))
    ensures Schedule(rows)[i].slots != []
    ensures KeyLe(ToDayMinutes12h(Schedule(rows)[i].slots[0]), ToDayMinutes12h(x))
    ensures KeyLe(ToDayMinutes12h(x), ToDayMinutes12h(Schedule(rows)[i].slots[|Schedule(rows)[i].slots| - 1]))
  {
    ScheduleEntry(rows, i);
    var b := GroupByDay(FreeSlots(rows))[i];
    assert x in b.times by {
      BucketTimes(rows, i, x);
    }
    OfferedEnds(b, PerDayTargets[i], x);
  }

  /**
   * A day offers as many times as its target, or all of its distinct free times when it
   * has fewer; `CleanTimes` of its bucket lists those distinct free times.
   */
  lemma ScheduleCount(rows: seq<Row>, i: nat)
    requires i < |Schedule(rows)|
    ensures |Schedule(rows)[i].slots| == Min(PerDayTargets[i], |CleanTimes(GroupByDay(FreeSlots(rows))[i].times)|)
    ensures NoDuplicates(CleanTimes(GroupByDay(FreeSlots(rows))[i].times))
    ensures forall x :: x in CleanTimes(GroupByDay(FreeSlots(rows))[i].times) <==>
      HasFreeRow(rows, Slot(Schedule(rows)[i].day, x))
  {
    ScheduleEntry(rows, i);
    var b := GroupByDay(FreeSlots(rows))[i];
    OfferedSpec(b, PerDayTargets[i]);
    CleanOfTrimmed(b.times);
    forall x
      ensures x in CleanTimes(b.times) <==> HasFreeRow(rows, Slot(b.day, x))
    {
      BucketTimes(rows, i, x);
    }
  }
}
