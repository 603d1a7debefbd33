/** The tracker's one piece of mutable state: the habit list, changed in place
    by the create, toggle and delete handlers, each successful change being
    written back to storage as a whole. */
module Tracker {
  import opened Habits

  datatype CreateOutcome = Added | EmptyName
  datatype ToggleOutcome = Marked | AlreadyCompleted | NotFound

  class HabitList {
    /** The habits in display order. */
    var habits: seq<Habit>
    /** Every full-list write to storage since start-up, oldest first. */
    ghost var saves: seq<seq<Habit>>

    /** Start-up: the stored list, or an empty one when the key is absent. */
    constructor (stored: Option<seq<Habit>>)
      ensures habits == (if stored.Some? then stored.value else [])
      ensures saves == []
    {
      habits := if stored.Some? then stored.value else [];
      saves := [];
    }

    /** The save-habit handler. A name that is blank after trimming is refused
        and nothing changes; otherwise one fresh record with the trimmed name
        and the given id is appended after the existing habits and the list is
        saved. The record invariant and unique ids (for an id not yet in use)
        are kept. */
    method Create(rawName: string, category: string, color: string, id: int)
      returns (outcome: CreateOutcome)
      modifies this
      ensures Trim(rawName) == [] ==>
        outcome == EmptyName && habits == old(habits) && saves == old(saves)
      ensures Trim(rawName) != [] ==>
        && outcome == Added
        && |habits| == |old(habits)| + 1
        && habits[..|old(habits)|] == old(habits)
        && habits[|old(habits)|] == NewHabit(id, Trim(rawName), category, color)
        && saves == old(saves) + [habits]
      ensures old(AllConsistent(habits)) ==> AllConsistent(habits)
      ensures old(UniqueIds(habits)) && !old(HasId(habits, id)) ==> UniqueIds(habits)
    {
      var name := Trim(rawName);
      if name == [] {
        outcome := EmptyName;
        return;
      }
      var added := NewHabit(id, name, category, color);
      AppendKeepsInvariants(habits, added);
      habits := habits + [added];
      saves := saves + [habits];
      outcome := Added;
    }

    /** The toggle handler. The first habit with this id is completed for
        `today`: an unknown id changes nothing, a habit already done today is
        refused and nothing changes or is saved, and otherwise only that habit
        is replaced by its `MarkDone` update and the list is saved. The record
        invariant and unique ids are kept. */
    method Toggle(id: int, today: Date) returns (outcome: ToggleOutcome)
      modifies this
      ensures outcome == NotFound <==> !old(HasId(habits, id))
      ensures outcome != Marked ==> habits == old(habits) && saves == old(saves)
      ensures match FirstIndex(old(habits), id)
        case None => true
        case Some(k) =>
          && (outcome == AlreadyCompleted <==> DoneToday(old(habits)[k], today))
          && (outcome == Marked ==>
                habits == old(habits)[k := MarkDone(old(habits)[k], today)]
                && saves == old(saves) + [habits])
      ensures old(AllConsistent(habits)) ==> AllConsistent(habits)
      ensures old(UniqueIds(habits)) ==> UniqueIds(habits)
    {
      var found := FirstIndex(habits, id);
      if found.None? {
        outcome := NotFound;
        return;
      }
      var k := found.value;
      var h := habits[k];
      if DoneToday(h, today) {
        outcome := AlreadyCompleted;
        return;
      }
      if AllConsistent(habits) { CompleteConsistent(h, today); }
      habits := habits[k := MarkDone(h, today)];
      saves := saves + [habits];
      outcome := Marked;
    }

    /** The delete handler. Once the user confirms, every habit with this id
        is removed, the rest keep their order, and the list is saved (also when
        the id was absent, which leaves the list as it was). Without
        confirmation nothing changes. */
    method Delete(id: int, confirmed: bool)
      modifies this
      ensures !confirmed ==> habits == old(habits) && saves == old(saves)
      ensures confirmed ==>
        && habits == Without(old(habits), id)
        && saves == old(saves) + [habits]
      ensures confirmed && !old(HasId(habits, id)) ==> habits == old(habits)
      ensures old(AllConsistent(habits)) ==> AllConsistent(habits)
      ensures old(UniqueIds(habits)) ==> UniqueIds(habits)
    {
      if confirmed {
        if AllConsistent(habits) { WithoutKeepsConsistent(habits, id); }
        if UniqueIds(habits) { WithoutKeepsUniqueIds(habits, id); }
        habits := Without(habits, id);
        saves := saves + [habits];
      }
    }
  }
}
