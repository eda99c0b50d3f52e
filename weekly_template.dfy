/** The weekly template editor (the timetable page): a weekday to period-list
    map edited one period at a time, the subject list it grows, and the
    whole-map save. */
module WeeklyTemplate {
  import opened Common

  /** A weekday's periods; a missing weekday reads as no periods (`timetable[day] || []`). */
  function DaySchedule(t: Template, day: string): seq<PeriodSlot>
  {
    if day in t then t[day] else []
  }

  /** No two periods of a day share a number. */
  predicate DistinctPeriods(s: seq<PeriodSlot>)
  {
    forall i, j :: 0 <= i < j < |s| ==> s[i].period != s[j].period
  }

  /** Ascending by period number. */
  predicate SortedByPeriod(s: seq<PeriodSlot>)
  {
    forall i, j :: 0 <= i < j < |s| ==> s[i].period <= s[j].period
  }

  /** Whether a slot does not carry period number `p`. */
  function NotNumbered(p: int): PeriodSlot -> bool
  {
    (s: PeriodSlot) => s.period != p
  }

  /** Whether a slot carries period number `q`. */
  function Numbered(q: int): PeriodSlot -> bool
  {
    (s: PeriodSlot) => s.period == q
  }

  /** `addPeriod(day)`: a period with no subject appended to that day,
      numbered one above the day's highest number (1 on an empty day); every
      other weekday is unchanged. */
  function AddedPeriod(t: Template, day: string): (r: Template)
    ensures r.Keys == t.Keys + {day}
    ensures forall d :: d in t && d != day ==> r[d] == t[d]
    ensures var old_ := DaySchedule(t, day);
            && |r[day]| == |old_| + 1 && r[day][..|old_|] == old_
            && r[day][|old_|].subjectId == ""
            && (old_ == [] ==> r[day][|old_|].period == 1)
            && (forall i :: 0 <= i < |old_| ==> old_[i].period < r[day][|old_|].period)
            && (old_ != [] ==> exists i :: 0 <= i < |old_| && old_[i].period == r[day][|old_|].period - 1)
            && (DistinctPeriods(old_) ==> DistinctPeriods(r[day]))
  {
    var s := DaySchedule(t, day);
    var ps := Numbers(s, (x: PeriodSlot) => x.period);
    assert forall i :: 0 <= i < |s| ==> ps[i] in ps;
    t[day := s + [PeriodSlot(NextPeriodNumber(ps), "")]]
  }

  /** `removePeriod(day, p)`: every period numbered `p` leaves that day and the
      others stay as they were, with their numbers (no renumbering); every
      other weekday is unchanged. */
  function RemovedPeriod(t: Template, day: string, p: int): (r: Template)
    ensures r.Keys == t.Keys + {day}
    ensures forall d :: d in t && d != day ==> r[d] == t[d]
    ensures forall s :: s in r[day] <==> s in DaySchedule(t, day) && s.period != p
    ensures multiset(r[day]) <= multiset(DaySchedule(t, day))
    ensures DistinctPeriods(DaySchedule(t, day)) ==> DistinctPeriods(r[day])
  {
    var s := DaySchedule(t, day);
    var keep := NotNumbered(p);
    FilterMembersAll(s, keep);
    FilterSubMultiset(s, keep);
    if DistinctPeriods(s) then
      FilterKeepsDistinct(s, keep, (x: PeriodSlot) => x.period);
      t[day := Filter(s, keep)]
    else
      t[day := Filter(s, keep)]
  }

  /** A day of one period loses it exactly when it has the number removed. */
  lemma RemovedPeriodSingle(t: Template, day: string, p: int, x: PeriodSlot)
    ensures RemovedPeriod(t[day := [x]], day, p)[day] == if x.period == p then [] else [x]
  {
    assert [x][1..] == [];
  }

  /** Removing a number from a day split in two removes it from each part and
      keeps the parts in their order; with `RemovedPeriodSingle`, this fixes
      the order of the kept periods. */
  lemma RemovedPeriodKeepsOrder(t: Template, day: string, p: int, a: seq<PeriodSlot>, b: seq<PeriodSlot>)
    ensures RemovedPeriod(t[day := a + b], day, p)[day]
            == RemovedPeriod(t[day := a], day, p)[day] + RemovedPeriod(t[day := b], day, p)[day]
  {
    FilterConcat(a, b, NotNumbered(p));
  }

  /** Removing the periods numbered `p` leaves the periods of any other
      number as they were, in their order. */
  lemma {:induction false} RemovedKeepsOtherNumbers(s: seq<PeriodSlot>, p: int, q: int)
    requires q != p
    ensures Filter(Filter(s, NotNumbered(p)), Numbered(q)) == Filter(s, Numbered(q))
  {
    if |s| > 0 {
      RemovedKeepsOtherNumbers(s[1..], p, q);
      var head := if s[0].period != p then [s[0]] else [];
      FilterConcat(head, Filter(s[1..], NotNumbered(p)), Numbered(q));
      assert Filter([s[0]], Numbered(q)) == (if s[0].period == q then [s[0]] else []) by {
        assert [s[0]][1..] == [];
      }
    }
  }

  /** A filter keeps at most the elements it was given. */
  lemma {:induction false} FilterSubMultiset(s: seq<PeriodSlot>, keep: PeriodSlot -> bool)
    ensures multiset(Filter(s, keep)) <= multiset(s)
  {
    if |s| > 0 {
      FilterSubMultiset(s[1..], keep);
      assert s == [s[0]] + s[1..];
    }
  }

  /** Inserts `x` before the first period numbered at least as high. */
  function InsertByPeriod(x: PeriodSlot, s: seq<PeriodSlot>): (r: seq<PeriodSlot>)
    ensures multiset(r) == multiset(s) + multiset{x}
  {
    if |s| == 0 then [x]
    else if x.period <= s[0].period then [x] + s
    else
      assert s == [s[0]] + s[1..];
      [s[0]] + InsertByPeriod(x, s[1..])
  }

  /** Every element of an insertion is the inserted slot or came from the list. */
  lemma InsertMember(x: PeriodSlot, s: seq<PeriodSlot>, y: PeriodSlot)
    requires y in InsertByPeriod(x, s)
    ensures y == x || y in s
  {
    assert y in multiset(InsertByPeriod(x, s));
  }

  /** The insertion goes before every period of its own number, so the periods
      numbered `q` keep their order, with `x` first among them when it is numbered `q`. */
  lemma {:induction false} InsertStable(x: PeriodSlot, s: seq<PeriodSlot>, q: int)
    ensures Filter(InsertByPeriod(x, s), Numbered(q)) == (if x.period == q then [x] else []) + Filter(s, Numbered(q))
  {
    assert Filter([x], Numbered(q)) == (if x.period == q then [x] else []) by {
      assert [x][1..] == [];
    }
    if |s| == 0 {
    } else if x.period <= s[0].period {
      FilterConcat([x], s, Numbered(q));
    } else {
      InsertStable(x, s[1..], q);
      assert [s[0]] + InsertByPeriod(x, s[1..]) == InsertByPeriod(x, s);
      FilterConcat([s[0]], InsertByPeriod(x, s[1..]), Numbered(q));
      assert Filter([s[0]], Numbered(q)) == (if s[0].period == q then [s[0]] else []) by {
        assert [s[0]][1..] == [];
      }
    }
  }

  /** Putting a period numbered no higher than the rest in front keeps a day sorted. */
  lemma ConsSorted(x: PeriodSlot, s: seq<PeriodSlot>)
    requires SortedByPeriod(s)
    requires forall k :: 0 <= k < |s| ==> x.period <= s[k].period
    ensures SortedByPeriod([x] + s)
  {
    var r := [x] + s;
    forall i, j | 0 <= i < j < |r| ensures r[i].period <= r[j].period {
      assert r[j] == s[j - 1];
      if i > 0 {
        assert r[i] == s[i - 1];
      }
    }
  }

  /** Insertion into a sorted day keeps it sorted. */
  lemma {:induction false} InsertSorted(x: PeriodSlot, s: seq<PeriodSlot>)
    requires SortedByPeriod(s)
    ensures SortedByPeriod(InsertByPeriod(x, s))
  {
    if |s| == 0 {
    } else if x.period <= s[0].period {
      ConsSorted(x, s);
    } else {
      var tail := s[1..];
      InsertSorted(x, tail);
      var rest := InsertByPeriod(x, tail);
      forall k | 0 <= k < |rest| ensures s[0].period <= rest[k].period {
        InsertMember(x, tail, rest[k]);
        if rest[k] != x {
          var m :| 0 <= m < |tail| && tail[m] == rest[k];
          assert s[m + 1] == rest[k];
        }
      }
      ConsSorted(s[0], rest);
    }
  }

  /** Putting a period with a new number in front keeps the numbers distinct. */
  lemma ConsDistinct(x: PeriodSlot, s: seq<PeriodSlot>)
    requires DistinctPeriods(s)
    requires forall k :: 0 <= k < |s| ==> s[k].period != x.period
    ensures DistinctPeriods([x] + s)
  {
    var r := [x] + s;
    forall i, j | 0 <= i < j < |r| ensures r[i].period != r[j].period {
      assert r[j] == s[j - 1];
      if i > 0 {
        assert r[i] == s[i - 1];
      }
    }
  }

  /** Inserting a slot whose number is new keeps the numbers distinct. */
  lemma {:induction false} InsertDistinct(x: PeriodSlot, s: seq<PeriodSlot>)
    requires DistinctPeriods(s)
    requires forall i :: 0 <= i < |s| ==> s[i].period != x.period
    ensures DistinctPeriods(InsertByPeriod(x, s))
  {
    if |s| == 0 {
    } else if x.period <= s[0].period {
      ConsDistinct(x, s);
    } else {
      var tail := s[1..];
      InsertDistinct(x, tail);
      var rest := InsertByPeriod(x, tail);
      forall k | 0 <= k < |rest| ensures rest[k].period != s[0].period {
        InsertMember(x, tail, rest[k]);
        if rest[k] != x {
          var m :| 0 <= m < |tail| && tail[m] == rest[k];
          assert s[m + 1] == rest[k];
        }
      }
      ConsDistinct(s[0], rest);
    }
  }

  /** The day sorted by period number (`.sort((a, b) => a.period - b.period)`),
      as an insertion sort; like JavaScript's sort it is stable
      (`SortByPeriodStable`). */
  function SortByPeriod(s: seq<PeriodSlot>): (r: seq<PeriodSlot>)
    ensures multiset(r) == multiset(s)
  {
    if |s| == 0 then []
    else
      assert s == [s[0]] + s[1..];
      InsertByPeriod(s[0], SortByPeriod(s[1..]))
  }

  /** The sorted day is sorted ascending, and distinct numbers stay distinct. */
  lemma {:induction false} SortByPeriodSpec(s: seq<PeriodSlot>)
    ensures SortedByPeriod(SortByPeriod(s))
    ensures DistinctPeriods(s) ==> DistinctPeriods(SortByPeriod(s))
  {
    if |s| > 0 {
      var tail := s[1..];
      SortByPeriodSpec(tail);
      var rest := SortByPeriod(tail);
      InsertSorted(s[0], rest);
      if DistinctPeriods(s) {
        assert DistinctPeriods(tail) by {
          forall i, j | 0 <= i < j < |tail| ensures tail[i].period != tail[j].period {
            assert tail[i] == s[i + 1] && tail[j] == s[j + 1];
          }
        }
        forall k | 0 <= k < |rest| ensures rest[k].period != s[0].period {
          assert rest[k] in multiset(tail);
          var m :| 0 <= m < |tail| && tail[m] == rest[k];
          assert s[m + 1] == rest[k];
        }
        InsertDistinct(s[0], rest);
      }
    }
  }

  /** The sort is stable: for every number, the periods carrying it come out
      in the order they went in. */
  lemma {:induction false} SortByPeriodStable(s: seq<PeriodSlot>, q: int)
    ensures Filter(SortByPeriod(s), Numbered(q)) == Filter(s, Numbered(q))
  {
    if |s| > 0 {
      SortByPeriodStable(s[1..], q);
      InsertStable(s[0], SortByPeriod(s[1..]), q);
    }
  }

  /** The day `updatePeriod` builds from the remaining periods and the new
      one: those periods and the new one, sorted ascending by number, with the
      periods of each number in the order of `[...filtered, newSlot]`. */
  function ReinsertedDay(filtered: seq<PeriodSlot>, p: int, id: string): (d: seq<PeriodSlot>)
    ensures SortedByPeriod(d)
    ensures multiset(d) == multiset(filtered) + multiset{PeriodSlot(p, id)}
    ensures forall q :: Filter(d, Numbered(q)) == Filter(filtered + [PeriodSlot(p, id)], Numbered(q))
  {
    var ext := filtered + [PeriodSlot(p, id)];
    SortByPeriodSpec(ext);
    assert forall q :: Filter(SortByPeriod(ext), Numbered(q)) == Filter(ext, Numbered(q)) by {
      forall q {
        SortByPeriodStable(ext, q);
      }
    }
    SortByPeriod(ext)
  }

  /** When no remaining period is numbered `p`, the rebuilt day holds exactly
      one period numbered `p`, the new one, and keeps distinct numbers distinct. */
  lemma ReinsertedDaySpec(filtered: seq<PeriodSlot>, p: int, id: string)
    requires forall s :: s in filtered ==> s.period != p
    ensures var d := ReinsertedDay(filtered, p, id);
            && multiset(d)[PeriodSlot(p, id)] == 1
            && (forall s :: s in d && s.period == p ==> s == PeriodSlot(p, id))
            && (DistinctPeriods(filtered) ==> DistinctPeriods(d))
  {
    var slot := PeriodSlot(p, id);
    var ext := filtered + [slot];
    SortByPeriodSpec(ext);
    var d := SortByPeriod(ext);
    assert multiset(ext) == multiset(filtered) + multiset{slot};
    assert slot !in filtered;
    assert multiset(filtered)[slot] == 0;
    forall s | s in d && s.period == p ensures s == slot {
      assert s in multiset(ext);
    }
    if DistinctPeriods(filtered) {
      forall i, j | 0 <= i < j < |ext| ensures ext[i].period != ext[j].period {
        if j == |filtered| {
          assert ext[i] in filtered;
        } else {
          assert ext[i] == filtered[i] && ext[j] == filtered[j];
        }
      }
    }
  }

  /** `updatePeriod(day, p, id)`: the periods numbered `p` leave the day; with a
      non-blank `id` one period numbered `p` carrying `id` is put back and the
      day is sorted. Every other weekday is unchanged. */
  function UpdatedPeriod(t: Template, day: string, p: int, id: string): (r: Template)
    ensures r.Keys == t.Keys + {day}
    ensures forall d :: d in t && d != day ==> r[d] == t[d]
    ensures id == "" ==> r == RemovedPeriod(t, day, p)
  {
    var removed := RemovedPeriod(t, day, p);
    if id == "" then removed
    else t[day := ReinsertedDay(removed[day], p, id)]
  }

  /** With a non-blank `id`, the updated day keeps its other periods, has
      exactly one period numbered `p`, carrying `id`, and is sorted ascending;
      the periods of every other number keep their order, and distinct
      numbers stay distinct. */
  lemma UpdatedPeriodSpec(t: Template, day: string, p: int, id: string)
    requires id != ""
    ensures var d := UpdatedPeriod(t, day, p, id)[day];
            && SortedByPeriod(d)
            && multiset(d) == multiset(RemovedPeriod(t, day, p)[day]) + multiset{PeriodSlot(p, id)}
            && multiset(d)[PeriodSlot(p, id)] == 1
            && (forall s :: s in d && s.period == p ==> s == PeriodSlot(p, id))
            && (forall q :: q != p ==> Filter(d, Numbered(q)) == Filter(DaySchedule(t, day), Numbered(q)))
            && (DistinctPeriods(DaySchedule(t, day)) ==> DistinctPeriods(d))
  {
    var removed := RemovedPeriod(t, day, p)[day];
    ReinsertedDaySpec(removed, p, id);
    forall q | q != p
      ensures Filter(UpdatedPeriod(t, day, p, id)[day], Numbered(q)) == Filter(DaySchedule(t, day), Numbered(q))
    {
      UpdatedKeepsOtherNumbers(t, day, p, id, q);
    }
  }

  /** The updated day lists the periods of a number other than `p` as the
      stored day did. */
  lemma UpdatedKeepsOtherNumbers(t: Template, day: string, p: int, id: string, q: int)
    requires id != "" && q != p
    ensures Filter(UpdatedPeriod(t, day, p, id)[day], Numbered(q)) == Filter(DaySchedule(t, day), Numbered(q))
  {
    var removed := RemovedPeriod(t, day, p)[day];
    var slot := PeriodSlot(p, id);
    FilterConcat(removed, [slot], Numbered(q));
    assert Filter([slot], Numbered(q)) == [] by {
      assert [slot][1..] == [];
    }
    RemovedKeepsOtherNumbers(DaySchedule(t, day), p, q);
  }

  /** JavaScript white space and line terminators, the characters `trim` strips. */
  predicate IsJsWhitespace(c: char)
  {
    var n := c as int;
    || 0x09 <= n <= 0x0D       // tab, line feed, vertical tab, form feed, carriage return
    || n == 0x20 || n == 0xA0  // space, no-break space
    || n == 0x1680
    || 0x2000 <= n <= 0x200A   // en quad .. hair space
    || n == 0x2028 || n == 0x2029  // line and paragraph separators
    || n == 0x202F || n == 0x205F || n == 0x3000
    || n == 0xFEFF             // byte order mark
  }

  /** Leading white space removed: what is left is a suffix that does not
      start with white space, and everything before it was white space. */
  function TrimStart(s: string): (r: string)
    ensures |r| <= |s| && r == s[|s| - |r|..]
    ensures forall i :: 0 <= i < |s| - |r| ==> IsJsWhitespace(s[i])
    ensures r != "" ==> !IsJsWhitespace(r[0])
  {
    if |s| > 0 && IsJsWhitespace(s[0]) then TrimStart(s[1..]) else s
  }

  /** Trailing white space removed: what is left is a prefix that does not
      end with white space, and everything after it was white space. */
  function TrimEnd(s: string): (r: string)
    ensures |r| <= |s| && r == s[..|r|]
    ensures forall i :: |r| <= i < |s| ==> IsJsWhitespace(s[i])
    ensures r != "" ==> !IsJsWhitespace(r[|r| - 1])
  {
    if |s| > 0 && IsJsWhitespace(s[|s| - 1]) then TrimEnd(s[..|s| - 1]) else s
  }

  /** `String.prototype.trim`: the piece of the string left once the white
      space at both ends is cut off; it has no white space at either end. */
  function Trim(s: string): (r: string)
    ensures |r| <= |s|
    ensures var a := |s| - |TrimStart(s)|;
            && a + |r| <= |s| && r == s[a..a + |r|]
            && (forall i :: 0 <= i < a ==> IsJsWhitespace(s[i]))
            && (forall i :: a + |r| <= i < |s| ==> IsJsWhitespace(s[i]))
    ensures r != "" ==> !IsJsWhitespace(r[0]) && !IsJsWhitespace(r[|r| - 1])
  {
    var front := TrimStart(s);
    var r := TrimEnd(front);
    TrimPiece(s, front, r, |s| - |front|);
    r
  }

  /** Cutting white space off the front of `s` and then off the back of what
      is left leaves a slice of `s` with only white space around it and none
      at its ends. */
  lemma TrimPiece(s: string, front: string, r: string, a: int)
    requires |front| <= |s| && a == |s| - |front| && front == s[a..]
    requires forall i :: 0 <= i < a ==> IsJsWhitespace(s[i])
    requires front != "" ==> !IsJsWhitespace(front[0])
    requires |r| <= |front| && r == front[..|r|]
    requires forall i :: |r| <= i < |front| ==> IsJsWhitespace(front[i])
    requires r != "" ==> !IsJsWhitespace(r[|r| - 1])
    ensures a + |r| <= |s| && r == s[a..a + |r|]
    ensures forall i :: 0 <= i < a ==> IsJsWhitespace(s[i])
    ensures forall i :: a + |r| <= i < |s| ==> IsJsWhitespace(s[i])
    ensures r != "" ==> !IsJsWhitespace(r[0]) && !IsJsWhitespace(r[|r| - 1])
  {
    forall i | a + |r| <= i < |s| ensures IsJsWhitespace(s[i]) {
      assert s[i] == front[i - a];
    }
    assert r != "" ==> r[0] == front[0];
  }

  /** A name is refused (`!name.trim()`) exactly when it is empty or all white space. */
  lemma TrimEmptyIffBlank(s: string)
    ensures Trim(s) == "" <==> forall i :: 0 <= i < |s| ==> IsJsWhitespace(s[i])
  {
    var front := TrimStart(s);
    var k := |s| - |front|;
    if Trim(s) == "" {
      assert front == "";
    } else if front != "" {
      assert !IsJsWhitespace(s[k]);
    }
  }

  /** The first `i` periods are in ascending order. */
  predicate SortedPrefix(s: seq<PeriodSlot>, i: int)
    requires 0 <= i <= |s|
  {
    forall m, n :: 0 <= m < n < i ==> s[m].period <= s[n].period
  }

  /** The first `i + 1` periods are in order, except that the one at `j` may
      still be out of place: the state while a period sinks to its position. */
  predicate SortedExcept(s: seq<PeriodSlot>, i: int, j: int)
    requires 0 <= j <= i < |s|
  {
    forall m, n :: 0 <= m < n <= i && n != j ==> s[m].period <= s[n].period
  }

  /** The day with the periods at `j - 1` and `j` exchanged. */
  function Swapped(s: seq<PeriodSlot>, j: int): (r: seq<PeriodSlot>)
    requires 0 < j < |s|
    ensures |r| == |s|
  {
    s[j - 1 := s[j]][j := s[j - 1]]
  }

  /** Exchanging two neighbours is a permutation. */
  lemma SwapPermutes(s: seq<PeriodSlot>, j: int)
    requires 0 < j < |s|
    ensures multiset(Swapped(s, j)) == multiset(s)
  {
    assert s == s[..j - 1] + [s[j - 1], s[j]] + s[j + 1..];
    assert Swapped(s, j) == s[..j - 1] + [s[j], s[j - 1]] + s[j + 1..];
  }

  /** Moving an out-of-order period one place down keeps the rest in order. */
  lemma SwapSinks(s: seq<PeriodSlot>, i: int, j: int)
    requires 0 < j <= i < |s|
    requires SortedExcept(s, i, j)
    requires s[j - 1].period > s[j].period
    ensures SortedExcept(Swapped(s, j), i, j - 1)
  {
    var r := Swapped(s, j);
    forall m, n | 0 <= m < n <= i && n != j - 1 ensures r[m].period <= r[n].period {
      if n == j {
        if m < j - 1 {
          assert r[m] == s[m] && r[n] == s[j - 1];
        }
      } else if m == j - 1 {
        assert r[m] == s[j] && r[n] == s[n];
        assert s[j].period <= s[n].period;
      } else if m == j {
        assert r[m] == s[j - 1] && r[n] == s[n];
        assert s[j - 1].period <= s[n].period;
      } else {
        assert r[m] == s[m] && r[n] == s[n];
      }
    }
  }

  /** Once the sinking period is in place, one more period is in order. */
  lemma SettledExtendsPrefix(s: seq<PeriodSlot>, i: int, j: int)
    requires 0 <= j <= i < |s|
    requires SortedExcept(s, i, j)
    requires j == 0 || s[j - 1].period <= s[j].period
    ensures SortedPrefix(s, i + 1)
  {
    forall m, n | 0 <= m < n <= i ensures s[m].period <= s[n].period {
      if n == j && m < j - 1 {
        assert s[m].period <= s[j - 1].period;
      }
    }
  }

  /** Exchanges the periods at `j - 1` and `j`. */
  method SwapDown(a: array<PeriodSlot>, j: int)
    requires 0 < j < a.Length
    modifies a
    ensures a[..] == Swapped(old(a[..]), j)
    ensures multiset(a[..]) == multiset(old(a[..]))
  {
    SwapPermutes(a[..], j);
    a[j - 1], a[j] := a[j], a[j - 1];
  }

  /** Sorts an array of periods in place, ascending by number (insertion sort). */
  method SortInPlace(a: array<PeriodSlot>)
    modifies a
    ensures SortedByPeriod(a[..])
    ensures multiset(a[..]) == multiset(old(a[..]))
  {
    if a.Length <= 1 {
      return;
    }
    var i := 1;
    while i < a.Length
      invariant 1 <= i <= a.Length
      invariant SortedPrefix(a[..], i)
      invariant multiset(a[..]) == multiset(old(a[..]))
    {
      var j := i;
      while j > 0 && a[j - 1].period > a[j].period
        invariant 0 <= j <= i
        invariant SortedExcept(a[..], i, j)
        invariant multiset(a[..]) == multiset(old(a[..]))
      {
        SwapSinks(a[..], i, j);
        SwapDown(a, j);
        j := j - 1;
      }
      SettledExtendsPrefix(a[..], i, j);
      i := i + 1;
    }
  }

  /** The body of `PUT /class/update-timetable`: the whole weekday map, a full replace. */
  datatype TimetableUpdate = TimetableUpdate(classId: Option<string>, timetable: Template)

  /** The timetable page's state. */
  class TimetableEditor {
    var loading: bool
    var classId: Option<string>
    var subjects: seq<Subject>
    var showAddSubject: bool
    var newSubjectName: string
    var timetable: Template

    constructor ()
      ensures loading && classId == None && subjects == [] && !showAddSubject && newSubjectName == ""
      ensures timetable == BlankWeek()
    {
      loading := true;
      classId := None;
      subjects := [];
      showAddSubject := false;
      newSubjectName := "";
      timetable := BlankWeek();
    }

    /** The load effect. Without a stored class id nothing changes (the page
        redirects). A loaded timetable replaces the local one only when it is
        present and has at least one weekday key. A failed load only alerts,
        so the page keeps loading. */
    method Load(storedClassId: Option<string>, response: Option<ClassRecord>)
      modifies this
      ensures storedClassId.None? || storedClassId.value == "" ==> unchanged(this)
      ensures storedClassId.Some? && storedClassId.value != "" ==>
                && classId == storedClassId
                && showAddSubject == old(showAddSubject) && newSubjectName == old(newSubjectName)
                && (response.None? ==> loading == old(loading) && subjects == old(subjects) && timetable == old(timetable))
                && (response.Some? ==>
                      && !loading
                      && subjects == response.value.subjects
                      && timetable == (if response.value.timetable.Some? && |response.value.timetable.value| > 0
                                       then response.value.timetable.value else old(timetable)))
    {
      if storedClassId.None? || storedClassId.value == "" {
        return;
      }
      classId := storedClassId;
      if response.Some? {
        subjects := response.value.subjects;
        if response.value.timetable.Some? && |response.value.timetable.value| > 0 {
          timetable := response.value.timetable.value;
        }
        loading := false;
      }
    }

    method AddPeriod(day: string)
      modifies this`timetable
      ensures timetable == AddedPeriod(old(timetable), day)
    {
      timetable := AddedPeriod(timetable, day);
    }

    method RemovePeriod(day: string, p: int)
      modifies this`timetable
      ensures timetable == RemovedPeriod(old(timetable), day, p)
    {
      timetable := RemovedPeriod(timetable, day, p);
    }

    method UpdatePeriod(day: string, p: int, id: string)
      modifies this`timetable
      ensures timetable == UpdatedPeriod(old(timetable), day, p, id)
    {
      timetable := UpdatedPeriod(timetable, day, p, id);
    }

    /** Typing in the new-subject field. */
    method SetNewSubjectName(name: string)
      modifies this`newSubjectName
      ensures newSubjectName == name
    {
      newSubjectName := name;
    }

    /** Opening or closing the add-subject panel. */
    method SetShowAddSubject(open: bool)
      modifies this`showAddSubject
      ensures showAddSubject == open
    {
      showAddSubject := open;
    }

    /** `addNewSubject`, given the created subject, or None when the post
        failed. A blank name sends nothing and changes nothing; on success the
        returned subject is appended and the form is cleared and closed. */
    method AddNewSubject(response: Option<Subject>) returns (postedName: Option<string>)
      modifies this`subjects, this`newSubjectName, this`showAddSubject
      ensures Trim(old(newSubjectName)) == "" ==> postedName.None? && unchanged(this)
      ensures Trim(old(newSubjectName)) != "" ==> postedName == Some(old(newSubjectName))
      ensures Trim(old(newSubjectName)) != "" && response.Some? ==>
                subjects == old(subjects) + [response.value] && newSubjectName == "" && !showAddSubject
      ensures Trim(old(newSubjectName)) != "" && response.None? ==> unchanged(this)
    {
      if Trim(newSubjectName) == "" {
        return None;
      }
      postedName := Some(newSubjectName);
      if response.Some? {
        subjects := subjects + [response.value];
        newSubjectName := "";
        showAddSubject := false;
      }
    }

    /** `saveTimetable`: sends the whole weekday map; the state is not changed. */
    method SaveTimetable() returns (request: TimetableUpdate)
      ensures request.classId == classId && request.timetable == timetable
    {
      request := TimetableUpdate(classId, timetable);
    }

    /** Rendering a day sorts that day's stored list in place; a missing day
        renders an empty list and stores nothing. */
    method RenderDay(day: string)
      modifies this`timetable
      ensures timetable.Keys == old(timetable).Keys
      ensures forall d :: d in timetable && d != day ==> timetable[d] == old(timetable)[d]
      ensures day in timetable ==>
                SortedByPeriod(timetable[day]) && multiset(timetable[day]) == multiset(old(timetable)[day])
    {
      if day !in timetable {
        return;
      }
      var s := timetable[day];
      var a := new PeriodSlot[|s|](i requires 0 <= i < |s| => s[i]);
      assert a[..] == s;
      SortInPlace(a);
      timetable := timetable[day := a[..]];
    }
  }
}
