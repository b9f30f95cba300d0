/**
 * The habit store of the tracker page: the ordered list of habit texts,
 * the per-day record of which habit indices were checked, the selected
 * day, and the operations that change them (adding, deleting and toggling
 * a habit), together with the month grid the calendar paints from them
 * and the figures of the progress circle.
 *
 * A day is keyed by its calendar date, as the page keys it by
 * `toDateString()`. Habits are identified by their position only; deleting
 * a habit leaves the per-day record as it is.
 */
module Tracker {
  import opened Calendar
  import opened Status
  import opened JsBuiltins

  /** The per-day completion record: for each day, the habit indices that
      were checked on it, in the order they were checked. */
  type Completions = map<Date, seq<int>>

  /** `completions[dateKey] ? completions[dateKey].length : 0`: the length
      of the day's list, whatever indices it holds. */
  function CompletedCount(completions: Completions, key: Date): nat {
    if key in completions then |completions[key]| else 0
  }

  /** A day's list in which no habit index occurs twice. */
  predicate NoDuplicates(s: seq<int>) {
    forall i, j :: 0 <= i < j < |s| ==> s[i] != s[j]
  }

  /** The list `toggleHabit(index)` leaves behind: the first occurrence of
      index taken out when there is one, index appended otherwise. */
  function Toggled(list: seq<int>, index: int): (r: seq<int>)
    ensures index in list ==> RemovedAt(list, r, IndexOf(list, index))
    ensures index !in list ==> r == list + [index]
  {
    var at := IndexOf(list, index);
    if at > -1 then SpliceOne(list, at) else list + [index]
  }

  /** The day's list, an absent day counting as the empty list that
      `toggleHabit` creates for it. */
  function DayList(completions: Completions, key: Date): seq<int> {
    if key in completions then completions[key] else []
  }

  /** The completion record after `toggleHabit(index)` on day `key`: that
      day's list toggled (created empty first), every other day untouched. */
  function ToggleCompletions(completions: Completions, key: Date, index: int): (r: Completions)
    ensures r.Keys == completions.Keys + {key}
    ensures forall k :: k in completions && k != key ==> r[k] == completions[k]
    ensures r[key] == Toggled(DayList(completions, key), index)
  {
    completions[key := Toggled(DayList(completions, key), index)]
  }

  /** Toggling index changes the membership of index and of nothing else;
      on a list without duplicates it flips it. */
  lemma ToggledMembership(list: seq<int>, index: int)
    ensures forall j :: j != index ==> (j in Toggled(list, index) <==> j in list)
    ensures NoDuplicates(list) ==> (index in Toggled(list, index) <==> index !in list)
  {
    var r := Toggled(list, index);
    if index in list {
      var at := IndexOf(list, index);
      RemovedAtMultiset(list, r, at);
      assert forall j :: j in r <==> j in multiset(r);
      assert forall j :: j in list <==> j in multiset(list);
      if NoDuplicates(list) {
        forall p | 0 <= p < |r|
          ensures r[p] != index
        {
          if p < at {
            assert list[p] in list[..at];
          } else {
            assert r[p] == list[p + 1] && list[at] == index;
          }
        }
      }
    }
  }

  /** A list without duplicates keeps none after a toggle. */
  lemma ToggledKeepsNoDuplicates(list: seq<int>, index: int)
    requires NoDuplicates(list)
    ensures NoDuplicates(Toggled(list, index))
  {
    var r := Toggled(list, index);
    if index in list {
      var at := IndexOf(list, index);
      forall i, j | 0 <= i < j < |r|
        ensures r[i] != r[j]
      {
        var i' := if i < at then i else i + 1;
        var j' := if j < at then j else j + 1;
        assert r[i] == list[i'] && r[j] == list[j'] && i' < j';
      }
    }
  }

  /** Toggling an index that is not on the list twice gives the list back. */
  lemma ToggleTwiceAbsent(list: seq<int>, index: int)
    requires index !in list
    ensures Toggled(Toggled(list, index), index) == list
  {
    var once := list + [index];
    assert IndexOf(once, index) == |list| by {
      assert once[..|list|] == list;
    }
    assert once[..|list|] == list;
  }

  /** On a list without duplicates, toggling twice restores the list as a
      collection; an index that was checked moves to the end. */
  lemma ToggleTwiceSameElements(list: seq<int>, index: int)
    requires NoDuplicates(list)
    ensures multiset(Toggled(Toggled(list, index), index)) == multiset(list)
    ensures index in list ==> Toggled(Toggled(list, index), index) == Toggled(list, index) + [index]
  {
    if index !in list {
      ToggleTwiceAbsent(list, index);
    } else {
      var at := IndexOf(list, index);
      var once := Toggled(list, index);
      RemovedAtMultiset(list, once, at);
      ToggledMembership(list, index);
      assert Toggled(once, index) == once + [index];
    }
  }

  /** Duplicates defeat the round trip: [i, i] toggled twice is empty. */
  lemma ToggleTwiceWithDuplicate(index: int)
    ensures Toggled(Toggled([index, index], index), index) == []
  {
    assert Toggled([index, index], index) == [index];
  }

  /** Toggling the same index twice on the same day: an absent day ends as
      an empty list, a day without duplicates ends with the same indices,
      and every other day is untouched. */
  lemma ToggleCompletionsTwice(completions: Completions, key: Date, index: int)
    ensures var twice := ToggleCompletions(ToggleCompletions(completions, key, index), key, index);
      && twice.Keys == completions.Keys + {key}
      && (forall k :: k in completions && k != key ==> twice[k] == completions[k])
      && (key !in completions ==> twice[key] == [])
      && (key in completions && NoDuplicates(completions[key]) ==>
            multiset(twice[key]) == multiset(completions[key]))
  {
    var list := DayList(completions, key);
    if key !in completions {
      ToggleTwiceAbsent([], index);
    } else if NoDuplicates(list) {
      ToggleTwiceSameElements(list, index);
    }
  }

  /** One cell of the month grid: a blank before the first of the month,
      or a numbered day with its band and whether it is the selected day. */
  datatype Cell = Blank | Day(day: int, band: Option<Band>, selected: bool)

  class HabitStore {
    var habits: seq<string>
    var completions: Completions
    var selectedDate: Date

    /** The page's starting state: the saved habits and completions (empty
        when nothing was saved) and today as the selected day. */
    constructor (savedHabits: seq<string>, savedCompletions: Completions, today: Date)
      ensures habits == savedHabits && completions == savedCompletions
      ensures selectedDate == today
    {
      habits := savedHabits;
      completions := savedCompletions;
      selectedDate := today;
    }

    /** Clicking a calendar day selects it. */
    method SelectDate(date: Date)
      modifies this
      ensures selectedDate == date
      ensures habits == old(habits) && completions == old(completions)
    {
      selectedDate := date;
    }

    /** Whether habit `index` is shown checked for the selected day. */
    function IsChecked(index: int): bool
      reads this
    {
      selectedDate in completions && index in completions[selectedDate]
    }

    predicate SelectedListHasNoDuplicates()
      reads this
    {
      NoDuplicates(DayList(completions, selectedDate))
    }

    /** `addHabit`: the trimmed input is appended when it is not empty;
        blank input changes nothing. */
    method AddHabit(input: string)
      modifies this
      ensures AllWhitespace(input) ==> habits == old(habits)
      ensures !AllWhitespace(input) ==> habits == old(habits) + [Trim(input)]
      ensures completions == old(completions) && selectedDate == old(selectedDate)
    {
      var text := Trim(input);
      if text != [] {
        habits := habits + [text];
      }
    }

    /** `deleteHabit(index)` once confirmed: `habits.splice(index, 1)`. The
        completion record keeps its indices as they were. */
    method DeleteHabit(index: int)
      modifies this
      ensures habits == SpliceOne(old(habits), index)
      ensures 0 <= index < |old(habits)| ==> RemovedAt(old(habits), habits, index)
      ensures completions == old(completions) && selectedDate == old(selectedDate)
    {
      habits := SpliceOne(habits, index);
    }

    /** `toggleHabit(index)` on the selected day: create the day's list when
        absent, then remove the first occurrence of index or append it. */
    method ToggleHabit(index: int)
      modifies this
      ensures completions == ToggleCompletions(old(completions), old(selectedDate), index)
      ensures habits == old(habits) && selectedDate == old(selectedDate)
      ensures forall j :: j != index ==> (IsChecked(j) <==> old(IsChecked(j)))
      ensures old(SelectedListHasNoDuplicates()) ==>
        SelectedListHasNoDuplicates() && (IsChecked(index) <==> !old(IsChecked(index)))
    {
      var dateKey := selectedDate;
      if dateKey !in completions {
        completions := completions[dateKey := []];
      }
      var list := completions[dateKey];
      var habitIndex := IndexOf(list, index);
      if habitIndex > -1 {
        completions := completions[dateKey := SpliceOne(list, habitIndex)];
      } else {
        completions := completions[dateKey := list + [index]];
      }
      ToggledMembership(list, index);
      if NoDuplicates(list) {
        ToggledKeepsNoDuplicates(list, index);
      }
    }

    /** The cell `renderCalendar` paints for day `day` of the viewed month. */
    function DayCell(year: int, month: Month, day: int, today: Date): Cell
      reads this
    {
      var thisDate := Date(year, month, day);
      Day(day,
          DayBand(CompletedCount(completions, thisDate), |habits|, OnOrBefore(thisDate, today)),
          thisDate == selectedDate)
    }

    /** `renderCalendar`: blanks up to the weekday of the first of the month,
        then one cell per day of the month. */
    method RenderCalendar(year: int, month: Month, today: Date) returns (grid: seq<Cell>)
      ensures |grid| == Weekday(Date(year, month, 1)) + DaysInMonth(year, month)
      ensures forall k :: 0 <= k < Weekday(Date(year, month, 1)) ==> grid[k] == Blank
      ensures forall k :: Weekday(Date(year, month, 1)) <= k < |grid| ==>
        grid[k] == DayCell(year, month, k - Weekday(Date(year, month, 1)) + 1, today)
      ensures forall k :: Weekday(Date(year, month, 1)) <= k < |grid| ==>
        var date := Date(year, month, k - Weekday(Date(year, month, 1)) + 1);
        && grid[k].Day? && grid[k].day == date.day
        && (grid[k].selected <==> selectedDate == date)
        && (grid[k].band == None <==> habits == [] || !OnOrBefore(date, today))
    {
      var firstDayIndex := Weekday(Date(year, month, 1));
      var daysInMonth := DaysInMonth(year, month);
      grid := [];
      for i := 0 to firstDayIndex
        invariant |grid| == i
        invariant forall k :: 0 <= k < i ==> grid[k] == Blank
      {
        grid := grid + [Blank];
      }
      for i := 1 to daysInMonth + 1
        invariant |grid| == firstDayIndex + i - 1
        invariant forall k :: 0 <= k < firstDayIndex ==> grid[k] == Blank
        invariant forall k :: firstDayIndex <= k < |grid| ==>
          grid[k] == DayCell(year, month, k - firstDayIndex + 1, today)
      {
        var thisDate := Date(year, month, i);
        var completedCount := CompletedCount(completions, thisDate);
        var totalHabits := |habits|;
        var band := DayBand(completedCount, totalHabits, OnOrBefore(thisDate, today));
        var isSelected := i == selectedDate.day && month == selectedDate.month
                          && year == selectedDate.year;
        grid := grid + [Day(i, band, isSelected)];
      }
    }

    /** `updateHabitProgress`: the progress circle for the selected day. */
    function SelectedDayProgress(): (p: Progress)
      reads this
      ensures habits == [] ==> p == Progress(0, 0, 0)
      ensures habits != [] ==> p.completed == CompletedCount(completions, selectedDate)
                               && p.total == |habits|
      ensures habits != [] ==>
        200 * p.completed - p.total < 2 * p.total * p.percent <= 200 * p.completed + p.total
    {
      HabitProgress(CompletedCount(completions, selectedDate), |habits|)
    }
  }

  /** Two habits, checked one by one and then deleted from the front: the
      bands and the circle follow, and the stale list outlives the delete. */
  method StaleCompletionsAfterDelete(today: Date)
  {
    var store := new HabitStore(["Read", "Run"], map[], today);
    assert OnOrBefore(today, today);
    store.ToggleHabit(0);
    assert store.completions[today] == [0];
    assert DayBand(CompletedCount(store.completions, today), |store.habits|, true) == Some(Fail(false));
    assert store.SelectedDayProgress() == Progress(50, 1, 2);
    store.ToggleHabit(1);
    assert store.completions[today] == [0, 1];
    assert DayBand(CompletedCount(store.completions, today), |store.habits|, true) == Some(Perfect);
    store.DeleteHabit(0);
    assert store.habits == ["Run"] && store.completions[today] == [0, 1];
    assert DayBand(CompletedCount(store.completions, today), |store.habits|, true) == Some(Success);
    assert store.SelectedDayProgress() == Progress(200, 2, 1);
    store.DeleteHabit(0);
    assert store.habits == [];
    assert DayBand(CompletedCount(store.completions, today), |store.habits|, true) == None;
    assert store.SelectedDayProgress() == Progress(0, 0, 0);
  }
}
