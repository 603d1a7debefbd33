/** Habit records and the transitions the tracker applies to a single record:
    name validation on creation and the once-per-day completion rule. */
module Habits {

  /** A calendar day as the tracker stores it. Only equality of days matters
      to the lifecycle, so the model treats a day as an opaque string. */
  type Date = string

  datatype Option<+T> = None | Some(value: T)

  /** One tracked habit as it sits in the persisted list. `history` is `None`
      for a record read back from storage without that field. */
  datatype Habit = Habit(
    id: int,
    name: string,
    category: string,
    color: string,
    streak: nat,
    lastDate: Option<Date>,
    history: Option<seq<Date>>)

  /** The completion days of a habit; a missing history reads as empty. */
  function Dates(h: Habit): seq<Date>
  {
    if h.history.Some? then h.history.value else []
  }

  /** The set of elements of a sequence. */
  function Elements<T>(s: seq<T>): set<T>
  {
    set x | x in s
  }

  predicate NoDups<T(==)>(s: seq<T>)
  {
    forall i, j :: 0 <= i < j < |s| ==> s[i] != s[j]
  }

  /** A habit is done today when its last completion is today. */
  predicate DoneToday(h: Habit, today: Date)
  {
    h.lastDate == Some(today)
  }

  /** The record invariant every habit built by the tracker keeps: its history
      is a set of days, the streak is the number of those days, and the last
      completion day is one of them. */
  predicate Consistent(h: Habit)
  {
    && NoDups(Dates(h))
    && h.streak == |Dates(h)|
    && (h.lastDate.Some? ==> h.lastDate.value in Dates(h))
  }

  // ---------------------------------------------------------------------------
  // Name validation: JavaScript's String.prototype.trim

  /** The characters `trim` removes: ECMAScript WhiteSpace (tab, vertical tab,
      form feed, space, no-break space, the byte order mark and every space
      separator) and LineTerminator (line feed, carriage return, line and
      paragraph separators). */
  predicate IsSpace(c: char)
  {
    || c == '\t' || c == '\n' || c == '\U{B}' || c == '\U{C}' || c == '\r'
    || c == ' ' || c == '\U{A0}' || c == '\U{1680}'
    || ('\U{2000}' <= c <= '\U{200A}')
    || c == '\U{2028}' || c == '\U{2029}' || c == '\U{202F}' || c == '\U{205F}'
    || c == '\U{3000}' || c == '\U{FEFF}'
  }

  /** `s` without its leading white space. */
  function TrimStart(s: string): (r: string)
    ensures |r| <= |s| && r == s[|s| - |r|..]
    ensures forall i :: 0 <= i < |s| - |r| ==> IsSpace(s[i])
    ensures r == [] || !IsSpace(r[0])
  {
    if s != [] && IsSpace(s[0]) then TrimStart(s[1..]) else s
  }

  /** `s` without its trailing white space. */
  function TrimEnd(s: string): (r: string)
    ensures |r| <= |s| && r == s[..|r|]
    ensures forall i :: |r| <= i < |s| ==> IsSpace(s[i])
    ensures r == [] || !IsSpace(r[|r| - 1])
  {
    if s != [] && IsSpace(s[|s| - 1]) then TrimEnd(s[..|s| - 1]) else s
  }

  /** `s` without surrounding white space: a slice of `s` that neither starts
      nor ends with white space, everything cut away being white space; it is
      empty exactly when `s` is blank. */
  function Trim(s: string): (r: string)
    ensures r == [] <==> forall i :: 0 <= i < |s| ==> IsSpace(s[i])
    ensures r != [] ==> !IsSpace(r[0]) && !IsSpace(r[|r| - 1])
    ensures exists a :: TrimmedAt(s, r, a)
  {
    var t := TrimStart(s);
    var r := TrimEnd(t);
    var a := |s| - |t|;
    assert TrimmedAt(s, r, a);
    r
  }

  /** `r` is the slice of `s` starting at `a`, and what lies outside it is
      white space. */
  predicate TrimmedAt(s: string, r: string, a: int)
  {
    && 0 <= a <= |s| - |r|
    && r == s[a..a + |r|]
    && (forall i :: 0 <= i < a ==> IsSpace(s[i]))
    && (forall i :: a + |r| <= i < |s| ==> IsSpace(s[i]))
  }

  /** Trimming a trimmed name changes nothing. */
  lemma TrimIdempotent(s: string)
    ensures Trim(Trim(s)) == Trim(s)
  {
  }

  // ---------------------------------------------------------------------------
  // Creation and completion of one habit

  /** The record the create handler appends: no completions yet. */
  function NewHabit(id: int, name: string, category: string, color: string): (h: Habit)
    ensures Consistent(h)
    ensures h.id == id && h.name == name && h.category == category && h.color == color
    ensures h.streak == 0 && h.lastDate == None && h.history == Some([])
  {
    Habit(id, name, category, color, 0, None, Some([]))
  }

  /** The update a completion applies once the same-day guard has passed:
      the last completion becomes today, a missing history becomes an empty
      one, and a day not yet in the history is appended at its end and counted
      in the streak. Identity and display fields are kept. */
  function MarkDone(h: Habit, today: Date): (r: Habit)
    ensures r.id == h.id && r.name == h.name && r.category == h.category && r.color == h.color
    ensures r.lastDate == Some(today) && r.history.Some?
    ensures today in Dates(h) ==> Dates(r) == Dates(h) && r.streak == h.streak
    ensures today !in Dates(h) ==> Dates(r) == Dates(h) + [today] && r.streak == h.streak + 1
  {
    var past := Dates(h);
    if today in past then
      h.(lastDate := Some(today), history := Some(past))
    else
      h.(lastDate := Some(today), history := Some(past + [today]), streak := h.streak + 1)
  }

  /** A completion request for one habit: refused when it is already done
      today, otherwise `MarkDone`. The streak and the history grow together,
      by at most one day, and the old history stays a prefix of the new one;
      the only day ever appended is today, and only when it is not there yet. */
  function Complete(h: Habit, today: Date): (r: Habit)
    ensures DoneToday(h, today) ==> r == h
    ensures DoneToday(r, today)
    ensures r.id == h.id && r.name == h.name && r.category == h.category && r.color == h.color
    ensures Dates(h) <= Dates(r) && |Dates(r)| <= |Dates(h)| + 1
    ensures h.streak <= r.streak && r.streak - h.streak == |Dates(r)| - |Dates(h)|
    ensures today in Dates(h) ==> Dates(r) == Dates(h) && r.streak == h.streak
    ensures !DoneToday(h, today) && today !in Dates(h) ==>
      Dates(r) == Dates(h) + [today] && r.streak == h.streak + 1
    ensures !DoneToday(h, today) ==> r == MarkDone(h, today)
  {
    if DoneToday(h, today) then h else MarkDone(h, today)
  }

  /** A completion keeps the record invariant and adds exactly today to the
      set of completion days. */
  lemma CompleteConsistent(h: Habit, today: Date)
    requires Consistent(h)
    ensures Consistent(Complete(h, today))
    ensures Elements(Dates(Complete(h, today))) == Elements(Dates(h)) + {today}
  {
  }

  /** The habit after one completion request per day of `days`, in order. */
  function Replay(h: Habit, days: seq<Date>): (r: Habit)
    decreases |days|
  {
    if days == [] then h else Replay(Complete(h, days[0]), days[1..])
  }

  /** Over any sequence of completion requests the streak never decreases and
      grows by at most one per request, the history only grows at its end, the
      two grow together, and the identity fields never change. */
  lemma {:induction false} ReplayMonotone(h: Habit, days: seq<Date>)
    ensures var r := Replay(h, days);
      && h.streak <= r.streak <= h.streak + |days|
      && Dates(h) <= Dates(r)
      && r.streak - h.streak == |Dates(r)| - |Dates(h)|
      && r.id == h.id && r.name == h.name && r.category == h.category && r.color == h.color
      && (days != [] ==> DoneToday(r, days[|days| - 1]))
    decreases |days|
  {
    if days != [] {
      var h' := Complete(h, days[0]);
      ReplayMonotone(h', days[1..]);
      if |days| > 1 {
        assert days[1..][|days[1..]| - 1] == days[|days| - 1];
      }
    }
  }

  /** Over any sequence of completion requests the record invariant holds
      (no duplicate days, streak equal to the number of days) and the set of
      completion days is the old set plus every requested day. */
  lemma {:induction false} ReplayConsistent(h: Habit, days: seq<Date>)
    requires Consistent(h)
    ensures Consistent(Replay(h, days))
    ensures Elements(Dates(Replay(h, days))) == Elements(Dates(h)) + Elements(days)
    decreases |days|
  {
    if days != [] {
      var h' := Complete(h, days[0]);
      CompleteConsistent(h, days[0]);
      ReplayConsistent(h', days[1..]);
      assert Elements(days) == {days[0]} + Elements(days[1..]) by {
        assert days == [days[0]] + days[1..];
      }
    }
  }

  /** Requests on days that are pairwise distinct and new to the habit append
      exactly those days, in order, and add one to the streak for each. */
  lemma {:induction false} ReplayDistinctDays(h: Habit, days: seq<Date>)
    requires Consistent(h)
    requires NoDups(days)
    requires forall i :: 0 <= i < |days| ==> days[i] !in Dates(h)
    ensures Dates(Replay(h, days)) == Dates(h) + days
    ensures Replay(h, days).streak == h.streak + |days|
    decreases |days|
  {
    if days != [] {
      var d, rest := days[0], days[1..];
      var h' := Complete(h, d);
      CompleteConsistent(h, d);
      assert d !in Dates(h);
      assert Dates(h') == Dates(h) + [d];
      forall i | 0 <= i < |rest|
        ensures rest[i] !in Dates(h')
      {
        assert rest[i] == days[i + 1] && days[i + 1] != d;
      }
      assert NoDups(rest) by {
        forall i, j | 0 <= i < j < |rest| ensures rest[i] != rest[j] {
          assert rest[i] == days[i + 1] && rest[j] == days[j + 1];
        }
      }
      ReplayDistinctDays(h', rest);
      assert Dates(h) + [d] + rest == Dates(h) + days;
    }
  }

  /** A sequence without duplicates has as many elements as its set. */
  lemma {:induction false} NoDupsCardinality<T>(s: seq<T>)
    requires NoDups(s)
    ensures |Elements(s)| == |s|
    decreases |s|
  {
    if s != [] {
      var init := s[..|s| - 1];
      assert NoDups(init);
      NoDupsCardinality(init);
      assert Elements(s) == Elements(init) + {s[|s| - 1]} by {
        assert s == init + [s[|s| - 1]];
      }
      assert s[|s| - 1] !in Elements(init);
    }
  }

  /** Starting from a freshly created habit, completion requests on any days
      leave a streak equal to the number of distinct days requested, which is
      also the length of the history; when the days are pairwise distinct the
      history is exactly those days in order. Missed days never reset it. */
  lemma FreshHabitCountsDistinctDays(id: int, name: string, category: string, color: string, days: seq<Date>)
    ensures var r := Replay(NewHabit(id, name, category, color), days);
      && r.streak == |Dates(r)| == |Elements(days)|
      && (NoDups(days) ==> Dates(r) == days && r.streak == |days|)
  {
    var h := NewHabit(id, name, category, color);
    var r := Replay(h, days);
    ReplayConsistent(h, days);
    assert Elements(Dates(h)) == {};
    NoDupsCardinality(Dates(r));
    if NoDups(days) {
      ReplayDistinctDays(h, days);
    }
  }

  // ---------------------------------------------------------------------------
  // Lookups and removal in the habit list

  /** Whether the list holds a habit with this id. */
  predicate HasId(hs: seq<Habit>, id: int)
  {
    exists i :: 0 <= i < |hs| && hs[i].id == id
  }

  predicate UniqueIds(hs: seq<Habit>)
  {
    forall i, j :: 0 <= i < j < |hs| ==> hs[i].id != hs[j].id
  }

  predicate AllConsistent(hs: seq<Habit>)
  {
    forall i :: 0 <= i < |hs| ==> Consistent(hs[i])
  }

  /** The position `find` stops at: the first habit with this id, if any. */
  function FirstIndex(hs: seq<Habit>, id: int): (r: Option<nat>)
    ensures r.None? <==> !HasId(hs, id)
    ensures r.Some? ==>
      && r.value < |hs| && hs[r.value].id == id
      && forall j :: 0 <= j < r.value ==> hs[j].id != id
  {
    if hs == [] then None
    else if hs[0].id == id then Some(0)
    else
      match FirstIndex(hs[1..], id)
      case None => None
      case Some(k) => Some(k + 1)
  }

  /** The list with every habit of this id filtered out. */
  function Without(hs: seq<Habit>, id: int): (r: seq<Habit>)
    ensures forall h :: h in r <==> h in hs && h.id != id
    ensures !HasId(r, id)
    ensures |r| <= |hs|
    ensures !HasId(hs, id) ==> r == hs
  {
    if hs == [] then []
    else if hs[0].id == id then Without(hs[1..], id)
    else [hs[0]] + Without(hs[1..], id)
  }

  /** Removal keeps the remaining habits in their original order: it works
      piecewise on any split of the list. */
  lemma {:induction false} WithoutConcat(a: seq<Habit>, b: seq<Habit>, id: int)
    ensures Without(a + b, id) == Without(a, id) + Without(b, id)
    decreases |a|
  {
    if a != [] {
      assert (a + b)[1..] == a[1..] + b;
      WithoutConcat(a[1..], b, id);
    } else {
      assert a + b == b;
    }
  }

  /** Removal keeps the record invariant of every remaining habit. */
  lemma WithoutKeepsConsistent(hs: seq<Habit>, id: int)
    requires AllConsistent(hs)
    ensures AllConsistent(Without(hs, id))
  {
    var r := Without(hs, id);
    forall j | 0 <= j < |r| ensures Consistent(r[j]) {
      assert r[j] in hs;
    }
  }

  /** Removal keeps ids unique. */
  lemma {:induction false} WithoutKeepsUniqueIds(hs: seq<Habit>, id: int)
    requires UniqueIds(hs)
    ensures UniqueIds(Without(hs, id))
  {
    if hs != [] {
      var r := Without(hs, id);
      WithoutKeepsUniqueIds(hs[1..], id);
      if hs[0].id != id {
        var tail := Without(hs[1..], id);
        forall j | 0 <= j < |tail| ensures hs[0].id != tail[j].id {
          LaterIdDiffers(hs, tail[j]);
        }
      }
    }
  }

  /** In a list with unique ids, no later habit shares the first one's id. */
  lemma LaterIdDiffers(hs: seq<Habit>, h: Habit)
    requires UniqueIds(hs) && hs != [] && h in hs[1..]
    ensures h.id != hs[0].id
  {
    var m :| 0 <= m < |hs| - 1 && hs[1..][m] == h;
    assert hs[m + 1] == h;
  }

  /** Appending a consistent habit keeps every record consistent, and
      appending one whose id is unused keeps ids unique. */
  lemma AppendKeepsInvariants(hs: seq<Habit>, h: Habit)
    requires Consistent(h)
    ensures AllConsistent(hs) ==> AllConsistent(hs + [h])
    ensures UniqueIds(hs) && !HasId(hs, h.id) ==> UniqueIds(hs + [h])
  {
    var r := hs + [h];
    assert forall i :: 0 <= i < |hs| ==> r[i] == hs[i];
  }

  /** Removing the same id twice is removing it once. */
  lemma WithoutIdempotent(hs: seq<Habit>, id: int)
    ensures Without(Without(hs, id), id) == Without(hs, id)
  {
  }
}
