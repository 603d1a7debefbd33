/** The read-only aggregates the dashboard, the charts and the reminder sweep
    compute from the habit list and the caller's notion of today. */
module Stats {
  import opened Habits

  /** The habits whose done-today status is `done`, kept in list order as
      `filter` keeps them. */
  function Select(hs: seq<Habit>, today: Date, done: bool): (r: seq<Habit>)
    ensures forall h :: h in r <==> h in hs && DoneToday(h, today) == done
  {
    if hs == [] then []
    else
      var init, last := hs[..|hs| - 1], hs[|hs| - 1];
      assert forall h :: h in hs <==> h in init || h == last by {
        assert hs == init + [last];
      }
      Select(init, today, done) + (if DoneToday(last, today) == done then [last] else [])
  }

  /** The habits done today: the dashboard's filter. */
  function Completed(hs: seq<Habit>, today: Date): (r: seq<Habit>)
    ensures forall h :: h in r <==> h in hs && DoneToday(h, today)
  {
    Select(hs, today, true)
  }

  /** The habits not done today: the reminder sweep's filter. */
  function Pending(hs: seq<Habit>, today: Date): (r: seq<Habit>)
    ensures forall h :: h in r <==> h in hs && !DoneToday(h, today)
  {
    Select(hs, today, false)
  }

  /** A selection holds one element for each position of the list whose
      habit has the selected status, so repeated records are counted once
      per occurrence. */
  lemma {:induction false} SelectCount(hs: seq<Habit>, today: Date, done: bool)
    ensures |Select(hs, today, done)| == |set i | 0 <= i < |hs| && DoneToday(hs[i], today) == done|
  {
    if hs != [] {
      SelectCount(hs[..|hs| - 1], today, done);
      SelectSplit(hs, today, done);
    }
  }

  /** A selection keeps list order: it works piecewise on any split of the
      list. */
  lemma {:induction false} SelectConcat(a: seq<Habit>, b: seq<Habit>, today: Date, done: bool)
    ensures Select(a + b, today, done) == Select(a, today, done) + Select(b, today, done)
    decreases |b|
  {
    if b == [] {
      assert a + b == a;
    } else {
      var b', last := b[..|b| - 1], b[|b| - 1];
      var tail := if DoneToday(last, today) == done then [last] else [];
      SelectConcat(a, b', today, done);
      assert (a + b)[..|a + b| - 1] == a + b' && (a + b)[|a + b| - 1] == last;
      assert Select(a + b, today, done) == Select(a + b', today, done) + tail;
      assert Select(b, today, done) == Select(b', today, done) + tail;
    }
  }

  /** Every habit is either done today or pending, never both. */
  lemma {:induction false} CompletedPendingPartition(hs: seq<Habit>, today: Date)
    ensures |Completed(hs, today)| + |Pending(hs, today)| == |hs|
  {
    if hs != [] {
      CompletedPendingPartition(hs[..|hs| - 1], today);
    }
  }

  /** The dashboard's "done today" number. */
  function TodayCount(hs: seq<Habit>, today: Date): (c: nat)
    ensures c <= |hs|
    ensures c == |set i | 0 <= i < |hs| && DoneToday(hs[i], today)|
    ensures c == |hs| - |Pending(hs, today)|
  {
    CompletedPendingPartition(hs, today);
    SelectCount(hs, today, true);
    assert (set i | 0 <= i < |hs| && DoneToday(hs[i], today) == true)
      == (set i | 0 <= i < |hs| && DoneToday(hs[i], today));
    |Completed(hs, today)|
  }

  /** The count is zero exactly when no habit is done today. */
  lemma TodayCountZero(hs: seq<Habit>, today: Date)
    ensures TodayCount(hs, today) == 0 <==> forall i :: 0 <= i < |hs| ==> !DoneToday(hs[i], today)
  {
    var done := Completed(hs, today);
    if done != [] {
      assert done[0] in done;
      var i :| 0 <= i < |hs| && hs[i] == done[0];
    } else {
      forall i | 0 <= i < |hs| ensures !DoneToday(hs[i], today) {
        assert hs[i] in hs;
      }
    }
  }

  /** The dashboard's best streak: 0 for an empty list, otherwise the
      largest streak of any habit. */
  function BestStreak(hs: seq<Habit>): (b: nat)
    ensures hs == [] ==> b == 0
    ensures forall i :: 0 <= i < |hs| ==> hs[i].streak <= b
    ensures hs != [] ==> exists i :: 0 <= i < |hs| && hs[i].streak == b
  {
    if hs == [] then 0
    else
      var rest := BestStreak(hs[1..]);
      if hs[0].streak >= rest then hs[0].streak else rest
  }

  /** The three dashboard numbers. */
  datatype Dashboard = Dashboard(todayCount: nat, total: nat, bestStreak: nat)

  function DashboardOf(hs: seq<Habit>, today: Date): (d: Dashboard)
    ensures d.total == |hs| && d.todayCount <= d.total
    ensures d.todayCount + |Pending(hs, today)| == d.total
    ensures d.todayCount == TodayCount(hs, today) && d.bestStreak == BestStreak(hs)
    ensures d.total == 0 ==> d.bestStreak == 0
    ensures forall i :: 0 <= i < |hs| ==> hs[i].streak <= d.bestStreak
    ensures hs != [] ==> exists i :: 0 <= i < |hs| && hs[i].streak == d.bestStreak
  {
    Dashboard(TodayCount(hs, today), |hs|, BestStreak(hs))
  }

  /** The completion pie chart's two slices: done today, and the rest of the
      list by subtraction. The second slice is exactly the pending habits. */
  function CompletionSplit(hs: seq<Habit>, today: Date): (r: (nat, nat))
    ensures r.0 + r.1 == |hs|
    ensures r.0 == |Completed(hs, today)| && r.1 == |Pending(hs, today)|
  {
    CompletedPendingPartition(hs, today);
    var completed := TodayCount(hs, today);
    (completed, |hs| - completed)
  }

  /** One reminder sweep: when notifications are permitted, one reminder for
      each habit not done today, in list order; otherwise none. */
  function Reminders(hs: seq<Habit>, today: Date, granted: bool): (r: seq<Habit>)
    ensures |r| == if granted then |hs| - TodayCount(hs, today) else 0
    ensures forall h :: h in r <==> granted && h in hs && !DoneToday(h, today)
    ensures r == if granted then Pending(hs, today) else []
  {
    var pending := Pending(hs, today);
    if |pending| > 0 && granted then pending else []
  }

  // ---------------------------------------------------------------------------
  // Weekly chart

  /** The habit has some completion whose weekday (as `dayOf` reads it:
      0 for Sunday to 6 for Saturday, anything else for a date that does not
      parse) is `day`. */
  predicate OnDay(h: Habit, dayOf: Date -> int, day: int)
  {
    exists d :: d in Dates(h) && dayOf(d) == day
  }

  /** The number of habits with a completion on weekday `day`, accumulated
      over the list from the front, as the chart's reduce does: one for each
      position of the list whose habit has such a completion. */
  function CountOnDay(hs: seq<Habit>, dayOf: Date -> int, day: int): (n: nat)
    ensures n <= |hs|
  {
    if hs == [] then 0
    else
      CountOnDay(hs[..|hs| - 1], dayOf, day)
        + (if OnDay(hs[|hs| - 1], dayOf, day) then 1 else 0)
  }

  /** A weekday's count is the number of positions of the list whose habit
      has a completion on that weekday. */
  lemma {:induction false} CountOnDayValue(hs: seq<Habit>, dayOf: Date -> int, day: int)
    ensures CountOnDay(hs, dayOf, day) == |set j | 0 <= j < |hs| && OnDay(hs[j], dayOf, day)|
  {
    if hs != [] {
      var n := |hs| - 1;
      var before := set j | 0 <= j < n && OnDay(hs[..n][j], dayOf, day);
      CountOnDayValue(hs[..n], dayOf, day);
      OnDaySplit(hs, dayOf, day);
      assert n !in before;
    }
  }

  /** The weekly bar chart: seven counts, Sunday first; entry `i` is the
      number of habits with some completion falling on weekday `i`. */
  function Histogram(hs: seq<Habit>, dayOf: Date -> int): (r: seq<nat>)
    ensures |r| == 7
    ensures forall i :: 0 <= i < 7 ==> r[i] == |set j | 0 <= j < |hs| && OnDay(hs[j], dayOf, i)|
    ensures forall i :: 0 <= i < 7 ==> r[i] <= |hs|
  {
    var r := seq(7, i => CountOnDay(hs, dayOf, i));
    assert forall i :: 0 <= i < 7 ==> r[i] == |set j | 0 <= j < |hs| && OnDay(hs[j], dayOf, i)| by {
      forall i | 0 <= i < 7 {
        CountOnDayValue(hs, dayOf, i);
      }
    }
    r
  }

  /** A habit with a missing or empty history adds to no weekday, wherever it
      sits in the list. */
  lemma {:induction false} CountSkipsNoHistory(a: seq<Habit>, h: Habit, b: seq<Habit>, dayOf: Date -> int, day: int)
    requires Dates(h) == []
    ensures CountOnDay(a + [h] + b, dayOf, day) == CountOnDay(a + b, dayOf, day)
    decreases |b|
  {
    if b == [] {
      assert a + [h] + b == a + [h];
      assert (a + [h])[..|a|] == a;
      assert a + b == a;
    } else {
      var b' := b[..|b| - 1];
      CountSkipsNoHistory(a, h, b', dayOf, day);
      assert (a + [h] + b)[..|a + [h] + b| - 1] == a + [h] + b';
      assert (a + b)[..|a + b| - 1] == a + b';
    }
  }

  lemma HistogramSkipsNoHistory(a: seq<Habit>, h: Habit, b: seq<Habit>, dayOf: Date -> int)
    requires Dates(h) == []
    ensures Histogram(a + [h] + b, dayOf) == Histogram(a + b, dayOf)
  {
    forall day | 0 <= day < 7 {
      CountSkipsNoHistory(a, h, b, dayOf, day);
    }
  }

  // ---------------------------------------------------------------------------
  // How a completion moves the statistics

  /** Completing a habit not yet done today raises the "done today" count by
      exactly one. */
  lemma MarkDoneRaisesTodayCount(hs: seq<Habit>, k: nat, today: Date)
    requires k < |hs| && !DoneToday(hs[k], today)
    ensures TodayCount(hs[k := MarkDone(hs[k], today)], today) == TodayCount(hs, today) + 1
  {
    MarkDoneGrowsCompleted(hs, k, today);
  }

  lemma {:induction false} MarkDoneGrowsCompleted(hs: seq<Habit>, k: nat, today: Date)
    requires k < |hs| && !DoneToday(hs[k], today)
    ensures |Select(hs[k := MarkDone(hs[k], today)], today, true)| == |Select(hs, today, true)| + 1
  {
    var hs' := hs[k := MarkDone(hs[k], today)];
    var n := |hs| - 1;
    if k == n {
      assert hs'[..n] == hs[..n];
    } else {
      assert hs'[..n] == hs[..n][k := MarkDone(hs[k], today)];
      MarkDoneGrowsCompleted(hs[..n], k, today);
    }
  }

  /** Completing a habit never lowers the best streak. */
  lemma CompleteKeepsBestStreak(hs: seq<Habit>, k: nat, today: Date)
    requires k < |hs|
    ensures BestStreak(hs[k := Complete(hs[k], today)]) >= BestStreak(hs)
  {
    var hs' := hs[k := Complete(hs[k], today)];
    if hs != [] {
      var i :| 0 <= i < |hs| && hs[i].streak == BestStreak(hs);
      assert hs[i].streak <= hs'[i].streak;
    }
  }

  // The positions of a non-empty list that satisfy a condition are those of
  // the list without its last element plus, possibly, the last position.

  lemma SelectSplit(hs: seq<Habit>, today: Date, done: bool)
    requires hs != []
    ensures var n := |hs| - 1;
      (set i | 0 <= i < |hs| && DoneToday(hs[i], today) == done)
        == (set i | 0 <= i < n && DoneToday(hs[..n][i], today) == done)
           + (if DoneToday(hs[n], today) == done then {n} else {})
  {
    var n := |hs| - 1;
    forall i | 0 <= i < n ensures hs[..n][i] == hs[i] { }
  }

  lemma OnDaySplit(hs: seq<Habit>, dayOf: Date -> int, day: int)
    requires hs != []
    ensures var n := |hs| - 1;
      (set j | 0 <= j < |hs| && OnDay(hs[j], dayOf, day))
        == (set j | 0 <= j < n && OnDay(hs[..n][j], dayOf, day))
           + (if OnDay(hs[n], dayOf, day) then {n} else {})
  {
    var n := |hs| - 1;
    forall j | 0 <= j < n ensures hs[..n][j] == hs[j] { }
  }
}
