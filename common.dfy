/** Values and list operations shared by the admin pages: the class record the
    server returns, period slots, and the JavaScript array methods
    (`findIndex`, `find`, `filter`, `Math.max`) the pages build on. */
module Common {

  datatype Option<+T> = None | Some(value: T)

  /** A subject of the class catalog: its `_id` and its `name`. */
  datatype Subject = Subject(id: string, name: string)

  /** One period of a weekday template: `{period, subjectId}`. */
  datatype PeriodSlot = PeriodSlot(period: int, subjectId: string)

  /** A weekly template: weekday label to that day's periods. */
  type Template = map<string, seq<PeriodSlot>>

  /** The class record returned by `GET /class/:id`; `timetable` may be absent. */
  datatype ClassRecord = ClassRecord(subjects: seq<Subject>, timetable: Option<Template>)

  /** The weekdays a weekly template is keyed by: Monday to Saturday, no Sunday. */
  const TemplateDays: seq<string> := ["Monday", "Tuesday", "Wednesday", "Thursday", "Friday", "Saturday"]

  /** The blank weekly template: one empty period list for each of the six weekdays. */
  function BlankWeek(): (w: Template)
    ensures w.Keys == set d | d in TemplateDays
    ensures forall d :: d in w ==> w[d] == []
    ensures "Sunday" !in w
  {
    map["Monday" := [], "Tuesday" := [], "Wednesday" := [], "Thursday" := [], "Friday" := [], "Saturday" := []]
  }

  /** `Array.prototype.findIndex`: the first index whose element satisfies `pred`, or -1. */
  function FindIndex<T>(s: seq<T>, pred: T -> bool): (k: int)
    ensures -1 <= k < |s|
    ensures 0 <= k ==> pred(s[k]) && forall j :: 0 <= j < k ==> !pred(s[j])
    ensures k == -1 <==> forall j :: 0 <= j < |s| ==> !pred(s[j])
  {
    if |s| == 0 then -1
    else if pred(s[0]) then 0
    else
      var k := FindIndex(s[1..], pred);
      if k == -1 then -1 else k + 1
  }

  /** `Array.prototype.filter`: the elements satisfying `keep`, in their original order. */
  function Filter<T>(s: seq<T>, keep: T -> bool): (r: seq<T>)
    ensures |r| <= |s|
  {
    if |s| == 0 then []
    else (if keep(s[0]) then [s[0]] else []) + Filter(s[1..], keep)
  }

  /** An element is in the filtered list exactly when it is in the list and satisfies `keep`. */
  lemma {:induction false} FilterMembers<T>(s: seq<T>, keep: T -> bool, x: T)
    ensures x in Filter(s, keep) <==> x in s && keep(x)
  {
    if |s| > 0 {
      FilterMembers(s[1..], keep, x);
      assert s == [s[0]] + s[1..];
    }
  }

  /** Filtering distributes over concatenation, so the kept elements stay in order. */
  lemma {:induction false} FilterConcat<T>(a: seq<T>, b: seq<T>, keep: T -> bool)
    ensures Filter(a + b, keep) == Filter(a, keep) + Filter(b, keep)
  {
    if |a| == 0 {
      assert a + b == b;
    } else {
      var head := if keep(a[0]) then [a[0]] else [];
      assert (a + b)[0] == a[0];
      assert (a + b)[1..] == a[1..] + b;
      FilterConcat(a[1..], b, keep);
      calc {
        Filter(a + b, keep);
        head + Filter(a[1..] + b, keep);
        head + (Filter(a[1..], keep) + Filter(b, keep));
        (head + Filter(a[1..], keep)) + Filter(b, keep);
        Filter(a, keep) + Filter(b, keep);
      }
    }
  }

  /** The membership fact of `FilterMembers`, for every element at once. */
  lemma FilterMembersAll<T>(s: seq<T>, keep: T -> bool)
    ensures forall x :: x in Filter(s, keep) <==> x in s && keep(x)
  {
    forall x {
      FilterMembers(s, keep, x);
    }
  }

  /** Filtering keeps distinct keys distinct, since it only drops elements. */
  lemma {:induction false} FilterKeepsDistinct<T>(s: seq<T>, keep: T -> bool, key: T -> int)
    requires forall i, j :: 0 <= i < j < |s| ==> key(s[i]) != key(s[j])
    ensures forall i, j :: 0 <= i < j < |Filter(s, keep)| ==> key(Filter(s, keep)[i]) != key(Filter(s, keep)[j])
  {
    if |s| > 0 {
      var tail := s[1..];
      FilterKeepsDistinct(tail, keep, key);
      var rest := Filter(tail, keep);
      assert forall i, j :: 0 <= i < j < |rest| ==> key(rest[i]) != key(rest[j]);
      if keep(s[0]) {
        forall j | 0 <= j < |rest| ensures key(s[0]) != key(rest[j]) {
          FilterMembers(tail, keep, rest[j]);
          var m :| 0 <= m < |tail| && tail[m] == rest[j];
          assert s[m + 1] == rest[j];
        }
        var r := [s[0]] + rest;
        assert Filter(s, keep) == r;
        forall i, j | 0 <= i < j < |r| ensures key(r[i]) != key(r[j]) {
          if i == 0 {
            assert r[j] == rest[j - 1];
            assert key(s[0]) != key(rest[j - 1]);
          } else {
            assert r[i] == rest[i - 1] && r[j] == rest[j - 1];
          }
        }
      } else {
        assert Filter(s, keep) == rest;
      }
    }
  }

  /** A filter that drops nothing returns the list unchanged. */
  lemma {:induction false} FilterKeepsAll<T>(s: seq<T>, keep: T -> bool)
    requires forall i :: 0 <= i < |s| ==> keep(s[i])
    ensures Filter(s, keep) == s
  {
    if |s| > 0 {
      FilterKeepsAll(s[1..], keep);
    }
  }

  /** A filter that drops nothing in the slice `s[lo..hi]` returns that slice. */
  lemma FilterKeepsSlice<T>(s: seq<T>, keep: T -> bool, lo: int, hi: int)
    requires 0 <= lo <= hi <= |s|
    requires forall j :: lo <= j < hi ==> keep(s[j])
    ensures Filter(s[lo..hi], keep) == s[lo..hi]
  {
    var slice := s[lo..hi];
    forall i | 0 <= i < |slice| ensures keep(slice[i]) {
      assert slice[i] == s[lo + i];
    }
    FilterKeepsAll(slice, keep);
  }

  /** A filter whose predicate rejects exactly one position removes that position. */
  lemma {:induction false} FilterDropsOne<T>(s: seq<T>, keep: T -> bool, k: int)
    requires 0 <= k < |s|
    requires !keep(s[k])
    requires forall j :: 0 <= j < |s| && j != k ==> keep(s[j])
    ensures Filter(s, keep) == s[..k] + s[k + 1..]
  {
    var tail := s[1..];
    if k == 0 {
      FilterKeepsSlice(s, keep, 1, |s|);
      assert s[1..|s|] == tail;
    } else {
      assert forall j :: 0 <= j < |tail| && j != k - 1 ==> keep(tail[j]) by {
        forall j | 0 <= j < |tail| && j != k - 1 ensures keep(tail[j]) {
          assert tail[j] == s[j + 1];
        }
      }
      FilterDropsOne(tail, keep, k - 1);
      assert tail[..k - 1] + tail[k..] == s[1..k] + s[k + 1..];
      assert [s[0]] + s[1..k] == s[..k];
    }
  }

  /** The largest element of a non-empty list (`Math.max(...xs)`). */
  function MaxOf(xs: seq<int>): (m: int)
    requires |xs| > 0
    ensures m in xs
    ensures forall x :: x in xs ==> x <= m
  {
    if |xs| == 1 then xs[0]
    else
      var rest := MaxOf(xs[1..]);
      assert xs == [xs[0]] + xs[1..];
      if xs[0] >= rest then xs[0] else rest
  }

  /** The number given to a newly added period: 1 on an empty day, else the
      largest existing number plus one. */
  function NextPeriodNumber(periods: seq<int>): (n: int)
    ensures periods == [] ==> n == 1
    ensures periods != [] ==> n - 1 in periods
    ensures forall p :: p in periods ==> p < n
  {
    if |periods| > 0 then MaxOf(periods) + 1 else 1
  }

  /** The period numbers of a list of slots, in order, read by `number`. */
  function Numbers<T>(s: seq<T>, number: T -> int): (ps: seq<int>)
    ensures |ps| == |s| && forall i :: 0 <= i < |s| ==> ps[i] == number(s[i])
  {
    seq(|s|, i requires 0 <= i < |s| => number(s[i]))
  }

  /** No value occurs twice. */
  predicate Distinct(xs: seq<int>)
  {
    forall i, j :: 0 <= i < j < |xs| ==> xs[i] != xs[j]
  }

  /** Appending the next period number to a list of distinct numbers keeps them distinct. */
  lemma NextPeriodKeepsDistinct(periods: seq<int>)
    requires Distinct(periods)
    ensures Distinct(periods + [NextPeriodNumber(periods)])
  {
    var n := NextPeriodNumber(periods);
    var ps := periods + [n];
    forall i, j | 0 <= i < j < |ps| ensures ps[i] != ps[j] {
      if j == |periods| {
        assert ps[i] in periods;
      }
    }
  }

  /** The catalog name for `id` (the first subject whose `_id` matches, as
      `subjects.find` picks it), or `fallback` when no subject has that id. */
  function CatalogName(subjects: seq<Subject>, id: string, fallback: string): (name: string)
    ensures (forall j :: 0 <= j < |subjects| ==> subjects[j].id != id) ==> name == fallback
    ensures forall k :: 0 <= k < |subjects| && subjects[k].id == id ==>
              (forall j :: 0 <= j < k ==> subjects[j].id != id) ==> name == subjects[k].name
  {
    var k := FindIndex(subjects, (s: Subject) => s.id == id);
    if k >= 0 then subjects[k].name else fallback
  }
}
