/**
 * Time labels of the availability sheet ("H" or "H:MM", 12-hour notation without a
 * meridiem marker) and the order in which a day's free times are listed
 * (`toDayMinutes12h` and the `sort` call of `getAvailableSlots`).
 */
module TimeLabels {
  import opened Options
  import opened JsText

  /** A sort key: minutes since midnight, or `Number.POSITIVE_INFINITY`. */
  datatype DayMinutes = Finite(minutes: int) | PosInfinity

  /**
   * `a` may stay before `b` under the comparator `(a, b) => key(a) - key(b)`: the difference
   * is not positive. `Infinity - Infinity` is `NaN`, which the sort treats as "equal".
   */
  predicate KeyLe(a: DayMinutes, b: DayMinutes) {
    b.PosInfinity? || (a.Finite? && a.minutes <= b.minutes)
  }

  /** The first field of `s.split(':')`: the text before the first colon. */
  function BeforeColon(s: string): (r: string)
    ensures |r| <= |s| && r == s[..|r|] && ':' !in r
    ensures |r| < |s| ==> s[|r|] == ':'
  {
    if s == "" || s[0] == ':' then "" else [s[0]] + BeforeColon(s[1..])
  }

  /** The 12-hour rule: 1..8 are afternoon hours (13..20); every other value is kept as written. */
  function Hour24(h: int): int {
    if 1 <= h <= 8 then h + 12 else h
  }

  /** `if (Number.isNaN(x)) x = 0` after a `parseInt`. */
  function OrZero(n: Option<int>): int {
    match n
    case None => 0
    case Some(v) => v
  }

  /** The hour field: the first field of `label.split(':')`. */
  function HourField(s: string): string {
    BeforeColon(s)
  }

  /** The minute field: the second field of `label.split(':')`, or "0" when there is no colon. */
  function MinuteField(s: string): string {
    var h := BeforeColon(s);
    if |h| < |s| then BeforeColon(s[|h| + 1..]) else "0"
  }

  /** Minutes since midnight of a trimmed, non-empty label. */
  function LabelMinutes(s: string): int {
    Hour24(OrZero(ParseInt(HourField(s)))) * 60 + OrZero(ParseInt(MinuteField(s)))
  }

  /**
   * `toDayMinutes12h(t)`: `+Infinity` for the empty label; otherwise hour and minute are the
   * first two colon-separated fields of the trimmed label (the minute field defaults to "0"),
   * each read by `parseInt` with `NaN` taken as 0, and hours 1..8 move to the afternoon.
   */
  function ToDayMinutes12h(t: string): (r: DayMinutes)
    ensures r == PosInfinity <==> t == ""
  {
    if t == "" then PosInfinity else Finite(LabelMinutes(Trim(t)))
  }

  lemma BeforeColonNoColon(s: string)
    requires ':' !in s
    ensures BeforeColon(s) == s
  {
  }

  lemma DigitsHaveNoColon(ds: string)
    requires IsDigits(ds)
    ensures ':' !in ds
  {
    forall i | 0 <= i < |ds| ensures ds[i] != ':' {
      assert IsDigit(ds[i]);
    }
  }

  lemma FieldsOfHour(hs: string)
    requires hs != "" && IsDigits(hs)
    ensures HourField(hs) == hs && MinuteField(hs) == "0"
  {
    DigitsHaveNoColon(hs);
    BeforeColonNoColon(hs);
  }

  lemma FieldsOfHourMinute(hs: string, ms: string)
    requires IsDigits(hs) && IsDigits(ms)
    ensures HourField(hs + ":" + ms) == hs && MinuteField(hs + ":" + ms) == ms
  {
    DigitsHaveNoColon(hs);
    DigitsHaveNoColon(ms);
    var t := hs + ":" + ms;
    BeforeColonPrefix(hs, ":" + ms);
    assert t == hs + (":" + ms);
    assert t[|hs| + 1..] == ms;
    BeforeColonNoColon(ms);
  }

  lemma OrZeroParseIntOfDigits(ds: string)
    requires IsDigits(ds)
    ensures OrZero(ParseInt(ds)) == DecimalValue(ds)
  {
    if ds != "" {
      ParseIntOfDigits(ds);
    } else {
      ParseIntNoDigits(ds);
    }
  }

  lemma LabelMinutesOfHour(hs: string)
    requires hs != "" && IsDigits(hs)
    ensures LabelMinutes(hs) == Hour24(DecimalValue(hs)) * 60
  {
    FieldsOfHour(hs);
    OrZeroParseIntOfDigits(hs);
    ZeroMinuteField();
  }

  lemma ZeroMinuteField()
    ensures OrZero(ParseInt("0")) == 0
  {
    assert IsDigits("0");
    ParseIntOfDigits("0");
    assert DecimalValue("0") == 0;
  }

  lemma LabelMinutesOfHourMinute(hs: string, ms: string)
    requires hs != "" && IsDigits(hs) && IsDigits(ms)
    ensures LabelMinutes(hs + ":" + ms) == Hour24(DecimalValue(hs)) * 60 + DecimalValue(ms)
  {
    FieldsOfHourMinute(hs, ms);
    OrZeroParseIntOfDigits(hs);
    OrZeroParseIntOfDigits(ms);
  }

  /** A label that starts with a digit and does not end in white space is already trimmed. */
  lemma TrimOfLabel(t: string)
    requires t != "" && IsDigit(t[0]) && !IsJsSpace(t[|t| - 1])
    ensures Trim(t) == t
  {
  }

  /** A label "H" (digits only) stands for hour H under the 12-hour rule, minute 0. */
  lemma ToDayMinutesOfHour(hs: string)
    requires hs != "" && IsDigits(hs)
    ensures ToDayMinutes12h(hs) == Finite(Hour24(DecimalValue(hs)) * 60)
  {
    assert IsDigit(hs[|hs| - 1]);
    TrimOfLabel(hs);
    LabelMinutesOfHour(hs);
  }

  /** A label "H:MM" (digit fields, MM possibly empty) stands for hour H under the 12-hour rule and minute MM. */
  lemma ToDayMinutesOfHourMinute(hs: string, ms: string)
    requires hs != "" && IsDigits(hs) && IsDigits(ms)
    ensures ToDayMinutes12h(hs + ":" + ms) == Finite(Hour24(DecimalValue(hs)) * 60 + DecimalValue(ms))
  {
    var t := hs + ":" + ms;
    assert t[0] == hs[0];
    assert t[|t| - 1] == ':' || t[|t| - 1] == ms[|ms| - 1];
    TrimOfLabel(t);
    LabelMinutesOfHourMinute(hs, ms);
  }

  lemma {:induction false} BeforeColonPrefix(a: string, b: string)
    requires ':' !in a && b != "" && b[0] == ':'
    ensures BeforeColon(a + b) == a
  {
    if a != "" {
      assert (a + b)[1..] == a[1..] + b;
      BeforeColonPrefix(a[1..], b);
    } else {
      assert a + b == b;
    }
  }

  /** Non-decreasing by `key`. */
  predicate SortedBy(s: seq<string>, key: string -> DayMinutes) {
    forall i, j :: 0 <= i < j < |s| ==> KeyLe(key(s[i]), key(s[j]))
  }

  /** The labels of `s` whose key is `k`, in their order in `s`. */
  function WithKey(s: seq<string>, key: string -> DayMinutes, k: DayMinutes): seq<string> {
    if s == [] then []
    else WithKey(s[..|s| - 1], key, k) + (if key(s[|s| - 1]) == k then [s[|s| - 1]] else [])
  }

  /** Every label of `s` has a key not greater than `b`. */
  predicate AllKeysLe(s: seq<string>, key: string -> DayMinutes, b: DayMinutes) {
    forall i :: 0 <= i < |s| ==> KeyLe(key(s[i]), b)
  }

  /** Places `x` after every label of the sorted `s` whose key is not greater than its own. */
  function InsertBy(s: seq<string>, x: string, key: string -> DayMinutes): (r: seq<string>)
    requires SortedBy(s, key)
    ensures SortedBy(r, key)
    ensures forall b :: AllKeysLe(s, key, b) && KeyLe(key(x), b) ==> AllKeysLe(r, key, b)
  {
    if s == [] || KeyLe(key(s[|s| - 1]), key(x)) then
      s + [x]
    else
      var init, last := s[..|s| - 1], s[|s| - 1];
      assert AllKeysLe(init, key, key(last));
      InsertBy(init, x, key) + [last]
  }

  /** Stable insertion sort by `key`: the result is sorted. */
  function SortBy(s: seq<string>, key: string -> DayMinutes): (r: seq<string>)
    ensures SortedBy(r, key)
  {
    if s == [] then [] else InsertBy(SortBy(s[..|s| - 1], key), s[|s| - 1], key)
  }

  lemma {:induction false} InsertByPermutes(s: seq<string>, x: string, key: string -> DayMinutes)
    requires SortedBy(s, key)
    ensures multiset(InsertBy(s, x, key)) == multiset(s) + multiset{x}
  {
    if !(s == [] || KeyLe(key(s[|s| - 1]), key(x))) {
      var init, last := s[..|s| - 1], s[|s| - 1];
      assert s == init + [last];
      InsertByPermutes(init, x, key);
    }
  }

  /** The sort only reorders: the result is a permutation of its input. */
  lemma {:induction false} SortByPermutes(s: seq<string>, key: string -> DayMinutes)
    ensures multiset(SortBy(s, key)) == multiset(s)
  {
    if s != [] {
      var init, last := s[..|s| - 1], s[|s| - 1];
      assert s == init + [last];
      SortByPermutes(init, key);
      InsertByPermutes(SortBy(init, key), last, key);
    }
  }

  /**
   * A day's times sorted by their `toDayMinutes12h` keys. The comparator is consistent and
   * the JavaScript sort is stable, so the result is the stable sort by that key.
   */
  function SortByTime(labels: seq<string>): seq<string> {
    SortBy(labels, ToDayMinutes12h)
  }

  lemma {:induction false} WithKeyAppend(a: seq<string>, b: seq<string>, key: string -> DayMinutes, k: DayMinutes)
    ensures WithKey(a + b, key, k) == WithKey(a, key, k) + WithKey(b, key, k)
  {
    if b != [] {
      assert (a + b)[..|a + b| - 1] == a + b[..|b| - 1];
      WithKeyAppend(a, b[..|b| - 1], key, k);
    } else {
      assert a + b == a;
    }
  }

  lemma WithKeySingle(y: string, key: string -> DayMinutes, k: DayMinutes)
    ensures WithKey([y], key, k) == if key(y) == k then [y] else []
  {
    assert [y][..0] == [];
  }

  lemma {:induction false} InsertByStable(s: seq<string>, x: string, key: string -> DayMinutes, k: DayMinutes)
    requires SortedBy(s, key)
    ensures WithKey(InsertBy(s, x, key), key, k) == WithKey(s, key, k) + WithKey([x], key, k)
  {
    if s == [] || KeyLe(key(s[|s| - 1]), key(x)) {
      WithKeyAppend(s, [x], key, k);
    } else {
      var init, last := s[..|s| - 1], s[|s| - 1];
      var r' := InsertBy(init, x, key);
      var wx, wl := WithKey([x], key, k), WithKey([last], key, k);
      assert wx == [] || wl == [] by {
        WithKeySingle(x, key, k);
        WithKeySingle(last, key, k);
      }
      calc {
        WithKey(InsertBy(s, x, key), key, k);
        WithKey(r' + [last], key, k);
        { WithKeyAppend(r', [last], key, k); }
        WithKey(r', key, k) + wl;
        { InsertByStable(init, x, key, k); }
        WithKey(init, key, k) + wx + wl;
        WithKey(init, key, k) + wl + wx;
        WithKey(s, key, k) + wx;
      }
    }
  }

  /** The sort is stable: the labels sharing one key keep their relative order. */
  lemma {:induction false} SortByStable(s: seq<string>, key: string -> DayMinutes, k: DayMinutes)
    ensures WithKey(SortBy(s, key), key, k) == WithKey(s, key, k)
  {
    if s != [] {
      var init, last := s[..|s| - 1], s[|s| - 1];
      assert s == init + [last];
      SortByStable(init, key, k);
      InsertByStable(SortBy(init, key), last, key, k);
      WithKeyAppend(init, [last], key, k);
      assert [last][..0] == [];
    }
  }

  /**
   * What the scheduler relies on: each day's list comes out non-decreasing by
   * `toDayMinutes12h`, holds the same labels, and labels with equal keys keep their order.
   */
  lemma SortByTimeSpec(labels: seq<string>, k: DayMinutes)
    ensures SortedBy(SortByTime(labels), ToDayMinutes12h)
    ensures multiset(SortByTime(labels)) == multiset(labels)
    ensures WithKey(SortByTime(labels), ToDayMinutes12h, k) == WithKey(labels, ToDayMinutes12h, k)
  {
    SortByPermutes(labels, ToDayMinutes12h);
    SortByStable(labels, ToDayMinutes12h, k);
  }

  /** Minutes of a labelled hour and minute fall in the morning block (9:00 to 12:59). */
  predicate IsMorning(k: DayMinutes) {
    k.Finite? && 9 * 60 <= k.minutes < 13 * 60
  }

  /** Minutes fall in the afternoon block that hours 1..8 are moved to (13:00 onwards). */
  predicate IsAfternoon(k: DayMinutes) {
    k.Finite? && 13 * 60 <= k.minutes
  }

  /**
   * "H:MM" labels with H in 9..12 are morning and with H in 1..8 afternoon (minutes below 60),
   * so "9:00", "1:00", "12:30", "8:00" are listed 9:00, 12:30, 1:00, 8:00.
   */
  lemma ClockLabelBlocks(hs: string, ms: string)
    requires hs != "" && IsDigits(hs) && IsDigits(ms) && DecimalValue(ms) < 60
    ensures 9 <= DecimalValue(hs) <= 12 ==> IsMorning(ToDayMinutes12h(hs + ":" + ms))
    ensures 1 <= DecimalValue(hs) <= 8 ==> IsAfternoon(ToDayMinutes12h(hs + ":" + ms))
  {
    ToDayMinutesOfHourMinute(hs, ms);
  }

  /**
   * In a list sorted by a key (the scheduler uses `toDayMinutes12h`), every morning label
   * comes before every afternoon label.
   */
  lemma MorningBeforeAfternoon(s: seq<string>, key: string -> DayMinutes, i: nat, j: nat)
    requires SortedBy(s, key) && i < |s| && j < |s|
    requires IsMorning(key(s[i])) && IsAfternoon(key(s[j]))
    ensures i < j
  {
  }
}
