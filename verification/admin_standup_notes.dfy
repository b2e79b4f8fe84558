/** The admin's weekly standup view: Monday-to-Friday week arithmetic, the
    text truncation of note cells, the week navigation state and the admin
    gate. Days are day numbers (day 0 is Thursday 1 January 1970). */
module AdminStandupNotes {
  import opened JsCore

  const Sunday := 0
  const Monday := 1
  const Friday := 5

  /** `getDay()`: 0 for Sunday up to 6 for Saturday. */
  function Weekday(d: int): (w: int)
    ensures 0 <= w < 7
  {
    (d + 4) % 7
  }

  /** Weekdays repeat every seven days. */
  lemma WeekdayPeriodic(d: int, k: int)
    ensures Weekday(d + 7 * k) == Weekday(d)
  {
    assert (d + 7 * k + 4) == (d + 4) + 7 * k;
  }

  /** `getMonday`: step back to the Monday of the week; a Sunday belongs to
      the week that started six days earlier. */
  function GetMonday(d: int): (m: int)
    ensures Weekday(m) == Monday
    ensures m <= d && d - m <= 6
  {
    var w := Weekday(d);
    d - w + (if w == Sunday then -6 else 1)
  }

  /** `getFriday`: four days after the given Monday. */
  function GetFriday(monday: int): (f: int)
    ensures Weekday(monday) == Monday ==> Weekday(f) == Friday
    ensures f - monday == 4
  {
    monday + 4
  }

  /** `getWeekDates`: the five working days from the given Monday. */
  function GetWeekDates(monday: int): (days: seq<int>)
    ensures |days| == 5
    ensures forall i :: 0 <= i < 5 ==> days[i] == monday + i
  {
    seq(5, i => monday + i)
  }

  /** A Monday is its own Monday, so `getMonday` is idempotent. */
  lemma MondayIsFixed(m: int)
    requires Weekday(m) == Monday
    ensures GetMonday(m) == m
  {
  }

  lemma GetMondayIdempotent(d: int)
    ensures GetMonday(GetMonday(d)) == GetMonday(d)
  {
    MondayIsFixed(GetMonday(d));
  }

  /** Every day of the week Monday to Sunday maps to the same Monday. */
  lemma SameWeekSameMonday(d: int, k: int)
    requires Weekday(d) == Monday && 0 <= k < 7
    ensures GetMonday(d + k) == d
  {
    var q := (d + 4) / 7;
    assert d + 4 == 7 * q + 1;
    ModSeven(q, k + 1);
    assert Weekday(d + k) == (k + 1) % 7;
  }

  /** `(7q + r) % 7` for the remainders a week produces. */
  lemma ModSeven(q: int, r: int)
    requires 0 <= r <= 7
    ensures (7 * q + r) % 7 == r % 7
  {
    if r == 7 {
      assert 7 * q + r == 7 * (q + 1);
    }
  }

  /** The week's dates run from the Monday through the Friday. */
  lemma WeekDatesSpanMondayToFriday(d: int)
    ensures GetWeekDates(GetMonday(d))[0] == GetMonday(d)
    ensures GetWeekDates(GetMonday(d))[4] == GetFriday(GetMonday(d))
    ensures forall i :: 0 <= i < 5 ==> Weekday(GetWeekDates(GetMonday(d))[i]) == Monday + i
  {
    var m := GetMonday(d);
    forall i | 0 <= i < 5
      ensures Weekday(GetWeekDates(m)[i]) == Monday + i
    {
      assert (m + 4) % 7 == 1;
      assert (m + i + 4) % 7 == (1 + i) % 7;
    }
  }

  /** `truncateText(text, maxLength)`; `None` is null or undefined. */
  function TruncateText(text: Option<string>, maxLength: nat): (r: string)
    ensures text.None? || text.value == "" ==> r == ""
    ensures text.Some? && |text.value| <= maxLength ==> r == text.value
    ensures text.Some? && |text.value| > maxLength ==>
      |r| == maxLength + 3 && r[..maxLength] == text.value[..maxLength] && r[maxLength..] == "..."
  {
    if text.None? || text.value == "" then ""
    else if |text.value| > maxLength then text.value[..maxLength] + "..."
    else text.value
  }

  /** The default length the cells use. */
  const DefaultMaxLength: nat := 40

  /** A note cell: `truncateText` with its default length. */
  function CellText(text: Option<string>): (r: string)
    ensures |r| <= DefaultMaxLength + 3
    ensures text.Some? && |text.value| <= DefaultMaxLength ==> r == text.value
  {
    TruncateText(text, DefaultMaxLength)
  }

  /** A truncated cell is never longer than the limit plus the ellipsis, and
      truncating a short text again changes nothing. */
  lemma TruncateBounded(text: Option<string>, maxLength: nat)
    ensures |TruncateText(text, maxLength)| <= maxLength + 3
    ensures text.Some? && |text.value| <= maxLength ==>
      TruncateText(Some(TruncateText(text, maxLength)), maxLength) == TruncateText(text, maxLength)
  {
  }

  /** `userData && userData.role_id === 1`; `None` is no stored user. */
  predicate IsAdmin(roleId: Option<JsVal>)
  {
    roleId.Some? && roleId.value == Num(1)
  }

  /** The week shown, `weekStart` to `weekEnd`, and whether the viewer is an
      admin. */
  class WeekView {
    var weekStart: int
    var weekEnd: int
    const isAdmin: bool

    ghost predicate Valid()
      reads this
    {
      Weekday(weekStart) == Monday && weekEnd == weekStart + 4
    }

    /** The initial state, from today's date and the stored user. */
    constructor (today: int, roleId: Option<JsVal>)
      ensures Valid()
      ensures weekStart == GetMonday(today) && weekEnd == GetFriday(GetMonday(today))
      ensures isAdmin == IsAdmin(roleId)
    {
      weekStart := GetMonday(today);
      weekEnd := GetFriday(GetMonday(today));
      isAdmin := IsAdmin(roleId);
    }

    /** `handlePrevWeek`: exactly seven days back. */
    method PrevWeek()
      requires Valid()
      modifies this`weekStart, this`weekEnd
      ensures Valid()
      ensures weekStart == old(weekStart) - 7 && weekEnd == old(weekEnd) - 7
    {
      var prevMonday := weekStart - 7;
      MondayIsFixed(prevMonday);
      weekStart := GetMonday(prevMonday);
      weekEnd := GetFriday(GetMonday(prevMonday));
    }

    /** `handleNextWeek`: exactly seven days forward. */
    method NextWeek()
      requires Valid()
      modifies this`weekStart, this`weekEnd
      ensures Valid()
      ensures weekStart == old(weekStart) + 7 && weekEnd == old(weekEnd) + 7
    {
      var nextMonday := weekStart + 7;
      MondayIsFixed(nextMonday);
      weekStart := GetMonday(nextMonday);
      weekEnd := GetFriday(GetMonday(nextMonday));
    }

    /** The fetch the effect issues: none for a non-admin, who is shown
        "Access Denied". */
    method FetchRange() returns (range: Option<(int, int)>)
      requires Valid()
      ensures range.None? <==> !isAdmin
      ensures range.Some? ==> range.value == (weekStart, weekEnd)
      ensures range.Some? ==> Weekday(range.value.0) == Monday && Weekday(range.value.1) == Friday
    {
      if !isAdmin {
        return None;
      }
      range := Some((weekStart, weekEnd));
    }
  }
}
