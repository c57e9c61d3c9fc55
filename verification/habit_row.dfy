/**
 The state of one habit row: the persisted habit record it observes and the
 row's own copy of the weekly record and of the streak, together with the
 transitions the row performs on them (creation, appearing on screen,
 reloading, a tap on a day, saving back to the record).
 */
module HabitRow {
  import opened Wrappers
  import DayCodec
  import Streak

  /** The row shows one circle per day of the week, indices 0 through 6. */
  const DaysPerWeek: nat := 7

  /** The 16-bit signed integer the record stores the streak in. */
  const Int16Min: int := -0x8000
  const Int16Max: int := 0x7FFF
  newtype Int16 = x: int | Int16Min <= x <= Int16Max

  /** The attributes of the persisted habit record that the row reads and writes. */
  datatype Item = Item(daysSelected: Option<string>, currentStreak: Int16)

  /** The row: its record plus the two pieces of view state it keeps. */
  datatype Row = Row(item: Item, daysSelected: seq<bool>, currentStreak: int)

  /** The weekly record used when the habit has none stored: seven unmarked days. */
  function DefaultDays(): (days: seq<bool>)
    ensures |days| == DaysPerWeek
    ensures forall k :: 0 <= k < |days| ==> !days[k]
  {
    seq(DaysPerWeek, _ => false)
  }

  /** The weekly record a stored text denotes, or the default when none is stored. */
  function StoredDays(stored: Option<string>): (days: seq<bool>)
    ensures stored.None? ==> days == DefaultDays()
    ensures stored.Some? ==> DayCodec.Denotes(stored.value, days)
  {
    match stored
    case Some(s) => DayCodec.Decode(s)
    case None => DefaultDays()
  }

  /** Creating a row for a record: days from the stored text (or seven unmarked), streak from the record. */
  function Init(item: Item): (r: Row)
    ensures r.item == item
    ensures r.currentStreak == item.currentStreak as int
    ensures item.daysSelected.None? ==> |r.daysSelected| == DaysPerWeek && forall k :: 0 <= k < DaysPerWeek ==> !r.daysSelected[k]
    ensures item.daysSelected.Some? ==> DayCodec.Denotes(item.daysSelected.value, r.daysSelected)
  {
    Row(item, StoredDays(item.daysSelected), item.currentStreak as int)
  }

  /** When the row appears: reread the days if a text is stored, always reread the streak. */
  function OnAppear(row: Row): (r: Row)
    ensures r.item == row.item
    ensures r.currentStreak == row.item.currentStreak as int
    ensures row.item.daysSelected.None? ==> r.daysSelected == row.daysSelected
    ensures row.item.daysSelected.Some? ==> DayCodec.Denotes(row.item.daysSelected.value, r.daysSelected)
  {
    var days := if row.item.daysSelected.Some? then DayCodec.Decode(row.item.daysSelected.value) else row.daysSelected;
    row.(daysSelected := days, currentStreak := row.item.currentStreak as int)
  }

  /** Rereads the days from the record when a text is stored; otherwise nothing changes. */
  function LoadDaysSelected(row: Row): (r: Row)
    ensures r.item == row.item && r.currentStreak == row.currentStreak
    ensures row.item.daysSelected.None? ==> r == row
    ensures row.item.daysSelected.Some? ==> DayCodec.Denotes(row.item.daysSelected.value, r.daysSelected)
  {
    match row.item.daysSelected
    case Some(s) => row.(daysSelected := DayCodec.Decode(s))
    case None => row
  }

  /**
   Writes the row's days and streak back into the record. Converting the
   streak to 16 bits traps when it does not fit, so the caller must keep it
   in range.
   */
  function UpdateDaysSelectedInCoreData(row: Row): (r: Row)
    requires Int16Min <= row.currentStreak <= Int16Max
    ensures r.daysSelected == row.daysSelected && r.currentStreak == row.currentStreak
    ensures r.item.daysSelected.Some?
    ensures DayCodec.Decode(r.item.daysSelected.value) == row.daysSelected
    ensures DayCodec.IsDayText(r.item.daysSelected.value)
    ensures r.item.currentStreak as int == row.currentStreak
  {
    DayCodec.DecodeEncode(row.daysSelected);
    row.(item := Item(Some(DayCodec.Encode(row.daysSelected)), row.currentStreak as Int16))
  }

  /** Recomputes the streak at a pivot; the row keeps its days and remembers the new streak. */
  function CalculateStreak(row: Row, index: nat): (r: (Row, nat))
    requires index <= |row.daysSelected|
    ensures r.0.item == row.item && r.0.daysSelected == row.daysSelected
    ensures r.0.currentStreak == r.1
    ensures r.1 <= |row.daysSelected|
    ensures index < |row.daysSelected| && row.daysSelected[index] ==>
      forall lo: nat, hi: nat :: Streak.MaximalRun(row.daysSelected, lo, hi) && lo <= index < hi ==> r.1 == hi - lo
    ensures (index == |row.daysSelected| || !row.daysSelected[index]) ==>
      forall lo: nat :: Streak.MaximalRun(row.daysSelected, lo, index) ==> r.1 == index - lo
  {
    var streak := Streak.StreakAt(row.daysSelected, index);
    Streak.StreakIsRunLength(row.daysSelected, index);
    (row.(currentStreak := streak), streak)
  }

  /** Flips the mark of one day. */
  function Toggle(days: seq<bool>, index: nat): (r: seq<bool>)
    requires index < |days|
    ensures |r| == |days|
    ensures r[index] == !days[index]
    ensures forall k :: 0 <= k < |days| && k != index ==> r[k] == days[k]
  {
    days[index := !days[index]]
  }

  /**
   A tap on a day: flip it, recompute the streak at that day, and save the
   days and the streak into the record.
   */
  function Tap(row: Row, index: nat): (r: Row)
    requires |row.daysSelected| == DaysPerWeek && index < DaysPerWeek
    ensures |r.daysSelected| == DaysPerWeek
    ensures r.daysSelected[index] == !row.daysSelected[index]
    ensures forall k :: 0 <= k < DaysPerWeek && k != index ==> r.daysSelected[k] == row.daysSelected[k]
    ensures r.currentStreak == Streak.StreakAt(r.daysSelected, index)
    ensures r.item.daysSelected == Some(DayCodec.Encode(r.daysSelected))
    ensures r.item.currentStreak as int == r.currentStreak
  {
    var flipped := row.(daysSelected := Toggle(row.daysSelected, index));
    var (computed, streak) := CalculateStreak(flipped, index);
    UpdateDaysSelectedInCoreData(computed.(currentStreak := streak))
  }

  /** Flipping the same day twice restores the record. */
  lemma ToggleTwice(days: seq<bool>, index: nat)
    requires index < |days|
    ensures Toggle(Toggle(days, index), index) == days
  {
  }

  /**
   Two taps on the same day restore the weekly record; the record then holds
   its text and the streak at that day.
   */
  lemma TapTwice(row: Row, index: nat)
    requires |row.daysSelected| == DaysPerWeek && index < DaysPerWeek
    ensures Tap(Tap(row, index), index).daysSelected == row.daysSelected
    ensures Tap(Tap(row, index), index).item.daysSelected == Some(DayCodec.Encode(row.daysSelected))
    ensures Tap(Tap(row, index), index).currentStreak == Streak.StreakAt(row.daysSelected, index)
  {
    var twice := Tap(Tap(row, index), index).daysSelected;
    assert forall k :: 0 <= k < DaysPerWeek ==> twice[k] == row.daysSelected[k];
    assert twice == row.daysSelected;
  }

  /** A row created from what a save wrote sees the same days and streak as the saved row. */
  lemma SaveThenInit(row: Row)
    requires Int16Min <= row.currentStreak <= Int16Max
    ensures Init(UpdateDaysSelectedInCoreData(row).item).daysSelected == row.daysSelected
    ensures Init(UpdateDaysSelectedInCoreData(row).item).currentStreak == row.currentStreak
  {
  }

  /** Appearing again right after creation changes nothing. */
  lemma OnAppearAfterInit(item: Item)
    ensures OnAppear(Init(item)) == Init(item)
  {
  }

  /** After a tap, reloading from the record changes nothing: what was saved is what is shown. */
  lemma LoadAfterTap(row: Row, index: nat)
    requires |row.daysSelected| == DaysPerWeek && index < DaysPerWeek
    ensures LoadDaysSelected(Tap(row, index)) == Tap(row, index)
    ensures OnAppear(Tap(row, index)) == Tap(row, index)
  {
    DayCodec.DecodeEncode(Tap(row, index).daysSelected);
  }

  /** A first tap on a fresh habit, on any day, gives a streak of one. */
  lemma FirstTapScenario(index: nat)
    requires index < DaysPerWeek
    ensures Tap(Init(Item(None, 0)), index).currentStreak == 1
  {
    var first := Tap(Init(Item(None, 0)), index).daysSelected;
    Streak.ForwardRunIsUnique(first, index, index + 1);
    Streak.BackwardRunIsUnique(first, index, index);
  }

  /** A tap that marks Wednesday after Thursday through Saturday were marked counts four. */
  lemma MarkScenario(row: Row)
    requires row.daysSelected == [false, false, false, false, true, true, true]
    ensures Tap(row, 3).currentStreak == 4
  {
    var days := Tap(row, 3).daysSelected;
    assert days[2] == row.daysSelected[2];
    assert days[4] == row.daysSelected[4] && days[5] == row.daysSelected[5] && days[6] == row.daysSelected[6];
    Streak.ForwardRunIsUnique(days, 3, 7);
    Streak.BackwardRunIsUnique(days, 3, 3);
  }

  /** A tap that unmarks Tuesday keeps the run of Sunday and Monday before it. */
  lemma UnmarkScenario(row: Row)
    requires row.daysSelected == [true, true, true, false, false, false, false]
    ensures Tap(row, 2).currentStreak == 2
  {
    var days := Tap(row, 2).daysSelected;
    assert days[0] == row.daysSelected[0] && days[1] == row.daysSelected[1];
    Streak.BackwardRunIsUnique(days, 2, 0);
  }
}
