/** The admin attendance session (the dashboard page): it resolves the day's
    effective schedule, lets the admin edit a custom period list, keeps the
    absentees marked per period position and builds the attendance submission. */
module AttendanceSession {
  import opened Common

  /** Weekday labels in `Date.getDay()` order, Sunday first. */
  const WeekdayLabels: seq<string> := ["Sunday", "Monday", "Tuesday", "Wednesday", "Thursday", "Friday", "Saturday"]

  /** Roll numbers offered as buttons for every period. */
  const RollCount := 60

  /** A period of the session's working list. */
  datatype SessionSlot = SessionSlot(period: int, subjectName: string, subjectId: string)

  /** Absent roll numbers, keyed by the POSITION of the period in the working list. */
  type Absentees = map<int, seq<int>>

  /** One period of the attendance submission. */
  datatype PeriodEntry = PeriodEntry(periodNum: int, subjectId: string, subjectName: string, absentRollNumbers: seq<int>)

  /** The body of `POST /attendance/mark`. */
  datatype AttendanceRequest = AttendanceRequest(classId: string, date: string, periods: seq<PeriodEntry>)

  /** The rolls marked absent at a position (`absentees[index] || []`). */
  function MarkedAt(absentees: Absentees, index: int): seq<int>
  {
    if index in absentees then absentees[index] else []
  }

  /** The weekday whose template is loaded: the override when one is set (a
      non-empty label, as JavaScript's `||` reads it), else today. */
  function DayToLoad(overrideDay: Option<string>, currentDay: string): string
  {
    if overrideDay.Some? && overrideDay.value != "" then overrideDay.value else currentDay
  }

  /** The stored periods of a weekday; a missing timetable or a missing weekday key gives no periods. */
  function StoredDay(timetable: Option<Template>, day: string): seq<PeriodSlot>
  {
    if timetable.Some? && day in timetable.value then timetable.value[day] else []
  }

  /** Each stored slot keeps its number and subject id and gets the catalog
      name of that id, or "Unknown" when the catalog has no such subject. */
  function FormatSchedule(subjects: seq<Subject>, slots: seq<PeriodSlot>): (r: seq<SessionSlot>)
    ensures |r| == |slots|
    ensures forall i :: 0 <= i < |slots| ==>
              r[i] == SessionSlot(slots[i].period, CatalogName(subjects, slots[i].subjectId, "Unknown"), slots[i].subjectId)
  {
    if |slots| == 0 then []
    else
      [SessionSlot(slots[0].period, CatalogName(subjects, slots[0].subjectId, "Unknown"), slots[0].subjectId)]
      + FormatSchedule(subjects, slots[1..])
  }

  /** The effective schedule: today's weekday template by default, the
      override weekday's template when one is chosen; nothing scheduled (not an
      error) when the timetable or that weekday is missing. */
  function ResolveSchedule(record: ClassRecord, overrideDay: Option<string>, weekday: int): (r: seq<SessionSlot>)
    requires 0 <= weekday < 7
    ensures overrideDay.None? ==> r == FormatSchedule(record.subjects, StoredDay(record.timetable, WeekdayLabels[weekday]))
    ensures overrideDay.Some? && overrideDay.value != "" ==>
              r == FormatSchedule(record.subjects, StoredDay(record.timetable, overrideDay.value))
    ensures record.timetable.None? ==> r == []
    ensures record.timetable.Some? && DayToLoad(overrideDay, WeekdayLabels[weekday]) !in record.timetable.value ==> r == []
  {
    FormatSchedule(record.subjects, StoredDay(record.timetable, DayToLoad(overrideDay, WeekdayLabels[weekday])))
  }

  /** The override chosen in the weekday selector: choosing today's own label clears it. */
  function SelectedOverride(value: string, todayName: string): (o: Option<string>)
    ensures o.None? <==> value == todayName
    ensures o.Some? ==> o.value == value
  {
    if value == todayName then None else Some(value)
  }

  /** No two slots of the working list share a period number. */
  predicate DistinctPeriods(t: seq<SessionSlot>)
  {
    forall i, j :: 0 <= i < j < |t| ==> t[i].period != t[j].period
  }

  /** Whether a slot does not carry period number `p`. */
  function NotNumbered(p: int): SessionSlot -> bool
  {
    (s: SessionSlot) => s.period != p
  }

  /** Whether a slot carries period number `p`. */
  function Numbered(p: int): SessionSlot -> bool
  {
    (s: SessionSlot) => s.period == p
  }

  /** Whether a roll number differs from `roll`. */
  function OtherThan(roll: int): int -> bool
  {
    (r: int) => r != roll
  }

  /** `addCustomPeriod`: one slot with no subject appended, numbered above every existing slot. */
  function WithExtraPeriod(t: seq<SessionSlot>): (r: seq<SessionSlot>)
    ensures |r| == |t| + 1 && r[..|t|] == t
    ensures r[|t|].subjectId == "" && r[|t|].subjectName == ""
    ensures t == [] ==> r[|t|].period == 1
    ensures forall i :: 0 <= i < |t| ==> t[i].period < r[|t|].period
    ensures t != [] ==> exists i :: 0 <= i < |t| && t[i].period == r[|t|].period - 1
    ensures DistinctPeriods(t) ==> DistinctPeriods(r)
  {
    var ps := Numbers(t, (x: SessionSlot) => x.period);
    var n := NextPeriodNumber(ps);
    assert forall i :: 0 <= i < |t| ==> ps[i] in ps;
    t + [SessionSlot(n, "", "")]
  }

  /** `removeCustomPeriod`, working list part: every slot numbered `p` goes, the others stay in order. */
  function WithoutPeriod(t: seq<SessionSlot>, p: int): (r: seq<SessionSlot>)
    ensures forall s :: s in r <==> s in t && s.period != p
    ensures (forall i :: 0 <= i < |t| ==> t[i].period != p) ==> r == t
    ensures |t| == 1 ==> r == (if t[0].period == p then [] else t)
    ensures DistinctPeriods(t) ==> DistinctPeriods(r)
  {
    var keep := NotNumbered(p);
    FilterMembersAll(t, keep);
    if forall i :: 0 <= i < |t| ==> t[i].period != p then
      FilterKeepsAll(t, keep);
      Filter(t, keep)
    else if DistinctPeriods(t) then
      FilterKeepsDistinct(t, keep, (s: SessionSlot) => s.period);
      Filter(t, keep)
    else
      Filter(t, keep)
  }

  /** Removing a number from a list split in two removes it from each part and
      keeps the parts in their order; with the one-slot case of
      `WithoutPeriod`, this fixes the order of the kept slots. */
  lemma WithoutPeriodKeepsOrder(a: seq<SessionSlot>, b: seq<SessionSlot>, p: int)
    ensures WithoutPeriod(a + b, p) == WithoutPeriod(a, p) + WithoutPeriod(b, p)
  {
    FilterConcat(a, b, NotNumbered(p));
  }

  /** `removeCustomPeriod`, absentee part: only the entry at the OLD position
      of the first slot numbered `p` is deleted (position -1 when there is
      none); the entries of later slots keep their old positions. */
  function AbsenteesAfterRemove(absentees: Absentees, t: seq<SessionSlot>, p: int): (m: Absentees)
    ensures forall k :: 0 <= k < |t| && t[k].period == p && (forall j :: 0 <= j < k ==> t[j].period != p) ==>
              m == absentees - {k}
    ensures (forall j :: 0 <= j < |t| ==> t[j].period != p) ==> m == absentees - {-1}
  {
    absentees - {FindIndex(t, Numbered(p))}
  }

  /** `updateCustomPeriod`: the slots numbered `p` get subject `id` and its
      catalog name ("" when the catalog has none); everything else is kept. */
  function Relabeled(t: seq<SessionSlot>, p: int, id: string, subjects: seq<Subject>): (r: seq<SessionSlot>)
    ensures |r| == |t|
    ensures forall i :: 0 <= i < |t| ==> r[i].period == t[i].period
    ensures forall i :: 0 <= i < |t| && t[i].period != p ==> r[i] == t[i]
    ensures forall i :: 0 <= i < |t| && t[i].period == p ==>
              r[i].subjectId == id && r[i].subjectName == CatalogName(subjects, id, "")
  {
    if |t| == 0 then []
    else
      var head := if t[0].period == p then t[0].(subjectId := id, subjectName := CatalogName(subjects, id, "")) else t[0];
      [head] + Relabeled(t[1..], p, id, subjects)
  }

  /** `toggleAbsent`: the list at `index` is rewritten (created when missing);
      every other position is untouched. */
  function Toggled(absentees: Absentees, index: int, roll: int): (m: Absentees)
    ensures m.Keys == absentees.Keys + {index}
    ensures forall k :: k in absentees && k != index ==> m[k] == absentees[k]
  {
    var current := MarkedAt(absentees, index);
    if roll in current then absentees[index := Filter(current, OtherThan(roll))]
    else absentees[index := current + [roll]]
  }

  /** Toggling flips whether `roll` is marked at `index` and leaves every other roll's mark alone. */
  lemma ToggleFlipsMembership(absentees: Absentees, index: int, roll: int)
    ensures roll in MarkedAt(Toggled(absentees, index, roll), index) <==> roll !in MarkedAt(absentees, index)
    ensures forall x :: x != roll ==>
              (x in MarkedAt(Toggled(absentees, index, roll), index) <==> x in MarkedAt(absentees, index))
  {
    FilterMembersAll(MarkedAt(absentees, index), OtherThan(roll));
  }

  /** Toggling keeps a duplicate-free list duplicate-free. */
  lemma ToggleKeepsDistinct(absentees: Absentees, index: int, roll: int)
    requires Distinct(MarkedAt(absentees, index))
    ensures Distinct(MarkedAt(Toggled(absentees, index, roll), index))
  {
    var current := MarkedAt(absentees, index);
    if roll in current {
      FilterKeepsDistinct(current, OtherThan(roll), (r: int) => r);
    }
  }

  /** Toggling the same roll twice restores whether it is marked. */
  lemma ToggleTwice(absentees: Absentees, index: int, roll: int)
    ensures var twice := Toggled(Toggled(absentees, index, roll), index, roll);
            roll in MarkedAt(twice, index) <==> roll in MarkedAt(absentees, index)
  {
    ToggleFlipsMembership(absentees, index, roll);
    ToggleFlipsMembership(Toggled(absentees, index, roll), index, roll);
  }

  /** Marking a roll that was not marked at an existing position and then
      unmarking it gives back the whole absentee map. */
  lemma MarkThenUnmarkRestores(absentees: Absentees, index: int, roll: int)
    requires index in absentees && roll !in absentees[index]
    ensures Toggled(Toggled(absentees, index, roll), index, roll) == absentees
  {
    var current := absentees[index];
    var keep := OtherThan(roll);
    var once := absentees[index := current + [roll]];
    assert Toggled(absentees, index, roll) == once;
    assert roll in MarkedAt(once, index);
    FilterConcat(current, [roll], keep);
    forall i | 0 <= i < |current| ensures keep(current[i]) {
      assert current[i] in current;
    }
    FilterKeepsAll(current, keep);
    assert Filter([roll], keep) == [];
    assert MarkedAt(once, index) == current + [roll];
    assert Filter(current + [roll], keep) == current;
    assert Toggled(once, index, roll) == once[index := current];
  }

  /** The roll buttons of a period, in order. */
  function OfferedRolls(): (rolls: seq<int>)
    ensures |rolls| == RollCount
  {
    seq(RollCount, i requires 0 <= i < RollCount => i + 1)
  }

  /** The rolls offered are exactly 1 to 60. */
  lemma OfferedRollsRange(r: int)
    ensures r in OfferedRolls() <==> 1 <= r <= RollCount
  {
    var rolls := OfferedRolls();
    if 1 <= r <= RollCount {
      assert rolls[r - 1] == r;
    }
  }

  /** `submitAttendance` payload: one entry per slot, in order, carrying the
      rolls marked at that slot's position (none when the position has no entry). */
  function FormatPeriods(t: seq<SessionSlot>, absentees: Absentees): (periods: seq<PeriodEntry>)
    ensures |periods| == |t|
    ensures forall i :: 0 <= i < |t| ==>
              periods[i] == PeriodEntry(t[i].period, t[i].subjectId, t[i].subjectName, MarkedAt(absentees, i))
  {
    if |t| == 0 then []
    else
      var last := |t| - 1;
      FormatPeriods(t[..last], absentees)
      + [PeriodEntry(t[last].period, t[last].subjectId, t[last].subjectName, MarkedAt(absentees, last))]
  }

  /** With distinct period numbers, removing the number at position `k` removes exactly that position. */
  lemma WithoutDistinctPeriod(t: seq<SessionSlot>, k: int)
    requires 0 <= k < |t|
    requires DistinctPeriods(t)
    ensures WithoutPeriod(t, t[k].period) == t[..k] + t[k + 1..]
  {
    var keep := NotNumbered(t[k].period);
    assert forall j :: 0 <= j < |t| && j != k ==> keep(t[j]) by {
      forall j | 0 <= j < |t| && j != k ensures keep(t[j]) {
        if j < k {
          assert t[j].period != t[k].period;
        } else {
          assert t[k].period != t[j].period;
        }
      }
    }
    FilterDropsOne(t, keep, k);
  }

  /** With distinct period numbers, removing the number at position `k` deletes the absentee entry `k`. */
  lemma AbsenteesAfterDistinctRemove(absentees: Absentees, t: seq<SessionSlot>, k: int)
    requires 0 <= k < |t|
    requires DistinctPeriods(t)
    ensures AbsenteesAfterRemove(absentees, t, t[k].period) == absentees - {k}
  {
    assert forall j :: 0 <= j < k ==> t[j].period != t[k].period;
  }

  /** Removing the period at position `k` does not shift the absentee map:
      the slot that moves into position `k` is submitted with no absentees,
      and the marks made for it are submitted against the slot after it. */
  lemma RemovalLeavesMarksUnshifted(t: seq<SessionSlot>, absentees: Absentees, k: int)
    requires 0 <= k < |t| - 1
    requires DistinctPeriods(t)
    ensures var t' := WithoutPeriod(t, t[k].period);
            var a' := AbsenteesAfterRemove(absentees, t, t[k].period);
            && t' == t[..k] + t[k + 1..]
            && FormatPeriods(t', a')[k] == PeriodEntry(t[k + 1].period, t[k + 1].subjectId, t[k + 1].subjectName, [])
            && (k + 2 < |t| ==>
                  FormatPeriods(t', a')[k + 1]
                  == PeriodEntry(t[k + 2].period, t[k + 2].subjectId, t[k + 2].subjectName, MarkedAt(absentees, k + 1)))
  {
    WithoutDistinctPeriod(t, k);
    AbsenteesAfterDistinctRemove(absentees, t, k);
    var t' := t[..k] + t[k + 1..];
    var a' := absentees - {k};
    assert t'[k] == t[k + 1];
    assert MarkedAt(a', k) == [];
    if k + 2 < |t| {
      assert t'[k + 1] == t[k + 2];
      assert MarkedAt(a', k + 1) == MarkedAt(absentees, k + 1);
    }
  }

  /** The dashboard's session state. */
  class Dashboard {
    var loading: bool
    var timetable: seq<SessionSlot>
    var classId: Option<string>
    var todayName: string
    var overrideDay: Option<string>
    var customMode: bool
    var subjects: seq<Subject>
    var absentees: Absentees

    /** Absentee positions are never negative and no roll is listed twice at one position. */
    ghost predicate Valid()
      reads this
    {
      forall k :: k in absentees ==> 0 <= k && Distinct(absentees[k])
    }

    constructor ()
      ensures Valid()
      ensures loading && timetable == [] && classId == None && todayName == ""
      ensures overrideDay == None && !customMode && subjects == [] && absentees == map[]
    {
      loading := true;
      timetable := [];
      classId := None;
      todayName := "";
      overrideDay := None;
      customMode := false;
      subjects := [];
      absentees := map[];
    }

    /** The page's load effect, re-run whenever the override changes. Without a
        stored class id nothing changes (the page redirects). Otherwise the
        effective schedule replaces the working list on success, and the page
        stops loading either way. The absentee map is not touched. */
    method Load(storedClassId: Option<string>, response: Option<ClassRecord>, weekday: int)
      requires Valid()
      requires 0 <= weekday < 7
      modifies this
      ensures Valid()
      ensures storedClassId.None? || storedClassId.value == "" ==> unchanged(this)
      ensures storedClassId.Some? && storedClassId.value != "" ==>
                && classId == storedClassId
                && !loading
                && absentees == old(absentees) && overrideDay == old(overrideDay) && customMode == old(customMode)
                && (response.None? ==>
                      timetable == old(timetable) && subjects == old(subjects) && todayName == old(todayName))
                && (response.Some? ==>
                      && subjects == response.value.subjects
                      && todayName == WeekdayLabels[weekday]
                      && timetable == ResolveSchedule(response.value, overrideDay, weekday))
    {
      if storedClassId.None? || storedClassId.value == "" {
        return;
      }
      classId := storedClassId;
      if response.Some? {
        subjects := response.value.subjects;
        todayName := WeekdayLabels[weekday];
        timetable := ResolveSchedule(response.value, overrideDay, weekday);
      }
      loading := false;
    }

    /** Choosing a weekday in the selector: today's own label clears the override. */
    method SelectScheduleDay(value: string)
      requires Valid()
      modifies this`overrideDay
      ensures Valid()
      ensures overrideDay == SelectedOverride(value, todayName)
    {
      overrideDay := SelectedOverride(value, todayName);
    }

    /** The Reset button. */
    method ResetOverride()
      requires Valid()
      modifies this`overrideDay
      ensures Valid() && overrideDay == None
    {
      overrideDay := None;
    }

    /** The Custom Schedule button. */
    method EnterCustomMode()
      requires Valid()
      modifies this`customMode
      ensures Valid() && customMode
    {
      customMode := true;
    }

    /** `addCustomPeriod`. */
    method AddCustomPeriod()
      requires Valid()
      modifies this`timetable
      ensures Valid()
      ensures timetable == WithExtraPeriod(old(timetable))
      ensures DistinctPeriods(old(timetable)) ==> DistinctPeriods(timetable)
    {
      timetable := WithExtraPeriod(timetable);
    }

    /** `removeCustomPeriod`: both updates read the list as it was before the call. */
    method RemoveCustomPeriod(p: int)
      requires Valid()
      modifies this`timetable, this`absentees
      ensures Valid()
      ensures timetable == WithoutPeriod(old(timetable), p)
      ensures absentees == AbsenteesAfterRemove(old(absentees), old(timetable), p)
      ensures (forall i :: 0 <= i < |old(timetable)| ==> old(timetable)[i].period != p) ==>
                timetable == old(timetable) && absentees == old(absentees)
    {
      absentees := AbsenteesAfterRemove(absentees, timetable, p);
      timetable := WithoutPeriod(timetable, p);
    }

    /** `updateCustomPeriod`. */
    method UpdateCustomPeriod(p: int, id: string)
      requires Valid()
      modifies this`timetable
      ensures Valid()
      ensures timetable == Relabeled(old(timetable), p, id, subjects)
      ensures DistinctPeriods(old(timetable)) ==> DistinctPeriods(timetable)
    {
      timetable := Relabeled(timetable, p, id, subjects);
    }

    /** `toggleAbsent`, called with the position of a rendered period. */
    method ToggleAbsent(index: int, roll: int)
      requires Valid()
      requires 0 <= index
      modifies this`absentees
      ensures Valid()
      ensures absentees == Toggled(old(absentees), index, roll)
      ensures roll in MarkedAt(absentees, index) <==> roll !in MarkedAt(old(absentees), index)
    {
      ToggleFlipsMembership(absentees, index, roll);
      ToggleKeepsDistinct(absentees, index, roll);
      absentees := Toggled(absentees, index, roll);
    }

    /** `submitAttendance`, given today's date and whether the post succeeded.
        Without a class id nothing is sent; otherwise the request is built from
        the working list and the absentees by position, and the absentees are
        cleared only after a successful post. */
    method SubmitAttendance(today: string, posted: bool) returns (request: Option<AttendanceRequest>)
      requires Valid()
      modifies this`absentees
      ensures Valid()
      ensures classId.None? || classId.value == "" ==> request.None? && absentees == old(absentees)
      ensures classId.Some? && classId.value != "" ==>
                && request == Some(AttendanceRequest(classId.value, today, FormatPeriods(timetable, old(absentees))))
                && absentees == (if posted then map[] else old(absentees))
    {
      if classId.None? || classId.value == "" {
        return None;
      }
      request := Some(AttendanceRequest(classId.value, today, FormatPeriods(timetable, absentees)));
      if posted {
        absentees := map[];
      }
    }
  }
}
