/**
 * The per-person rows of `renderTableBody` (app.js:393-497) with the DOM taken away:
 * each time cell becomes a record of what it shows and which highlights it gets.
 */
module Grid {
  import opened Wrappers
  import opened Timezone
  import opened Roster

  /**
   * One time cell: its base-timezone hour, the instant it displays, the wall clock of that
   * instant in the person's zone (what the formatter turns into text), and its three
   * highlights: `current-time`, `reference-time` and `day-change`.
   */
  datatype Cell = Cell(hour: int, displayInstant: int, shown: WallClock,
                       isCurrent: bool, isReference: bool, isDayChange: bool)

  /**
   * What one render reads: the timezone database, the base timezone, `now`, the
   * browser-local midnight of `now`, the clock reading the search falls back to, and
   * the reference hour.
   */
  datatype Frame = Frame(db: TzDb, baseTimezone: string, now: int, midnight: int, fallback: int,
                         referenceHour: Option<int>)

  /** `currentHourInBase` (app.js:414-418). */
  function CurrentHourInBase(f: Frame): int {
    f.db(f.baseTimezone, f.now).hour
  }

  /** `baseDay` (app.js:421-428). */
  function BaseDay(f: Frame): int {
    f.db(f.baseTimezone, f.now).day
  }

  /** `dateAtHourInBase` (app.js:436). */
  function TopOfHour(f: Frame, hour: int): (t: int)
    ensures t == f.fallback || Matches(f.db, f.baseTimezone, hour, BaseDay(f), t)
  {
    DateAtHour(f.db, f.baseTimezone, f.now, f.midnight, hour, f.fallback)
  }

  /** The cell for base hour `hour` in the row of a person in zone `tz` (app.js:432-474). */
  function CellAt(f: Frame, tz: string, hour: int): (c: Cell)
    ensures c.hour == hour
    ensures c.isCurrent <==> hour == CurrentHourInBase(f)
    ensures c.displayInstant == if c.isCurrent then f.now else TopOfHour(f, hour)
    ensures c.shown == f.db(tz, c.displayInstant)
    ensures c.isReference <==> f.referenceHour == Some(hour)
    ensures c.isDayChange <==> f.db(tz, TopOfHour(f, hour)).day != BaseDay(f)
  {
    var top := TopOfHour(f, hour);
    var isCurrent := hour == CurrentHourInBase(f);
    var display := if isCurrent then f.now else top;
    Cell(hour, display, f.db(tz, display), isCurrent, f.referenceHour == Some(hour),
         f.db(tz, top).day != BaseDay(f))
  }

  /** The 24 time cells of a person in zone `tz`. */
  function Row(f: Frame, tz: string): (r: seq<Cell>)
    ensures |r| == 24
    ensures forall h :: 0 <= h < 24 ==> r[h] == CellAt(f, tz, h)
  {
    seq(24, h => CellAt(f, tz, h))
  }

  /** The time cells of every row, in roster order. */
  function Rows(f: Frame, people: seq<Person>): (r: seq<seq<Cell>>)
    ensures |r| == |people|
    ensures forall i :: 0 <= i < |people| ==> r[i] == Row(f, people[i].timezone)
  {
    seq(|people|, i requires 0 <= i < |people| => Row(f, people[i].timezone))
  }

  /** The loops of `renderTableBody`: one row per person, 24 cells per row. */
  method RenderTableBody(f: Frame, people: seq<Person>) returns (rows: seq<seq<Cell>>)
    ensures rows == Rows(f, people)
  {
    rows := [];
    for i := 0 to |people|
      invariant |rows| == i
      invariant forall k :: 0 <= k < i ==> rows[k] == Row(f, people[k].timezone)
    {
      var person := people[i];
      var currentHourInBase := f.db(f.baseTimezone, f.now).hour;
      var baseDay := f.db(f.baseTimezone, f.now).day;
      var row := [];
      for hour := 0 to 24
        invariant |row| == hour
        invariant forall h :: 0 <= h < hour ==> row[h] == CellAt(f, person.timezone, h)
      {
        var dateAtHourInBase := CreateDateAtHourInTimezone(f.db, f.now, hour, f.baseTimezone, f.midnight, f.fallback);
        var isCurrentHour := hour == currentHourInBase;
        var dateToDisplay := if isCurrentHour then f.now else dateAtHourInBase;
        var timeInPersonTz := f.db(person.timezone, dateToDisplay);
        var dayInPersonTz := f.db(person.timezone, dateAtHourInBase).day;
        var isReference := f.referenceHour.Some? && hour == f.referenceHour.value;
        row := row + [Cell(hour, dateToDisplay, timeInPersonTz, isCurrentHour, isReference,
                           dayInPersonTz != baseDay)];
      }
      rows := rows + [row];
    }
  }

  /** Every row has 24 cells whose hours are 0..23 in order. */
  lemma RowHours(f: Frame, tz: string)
    ensures |Row(f, tz)| == 24
    ensures forall h :: 0 <= h < 24 ==> Row(f, tz)[h].hour == h
    ensures forall h, k :: 0 <= h < k < 24 ==> Row(f, tz)[h].hour < Row(f, tz)[k].hour
  {
  }

  /**
   * The cell of the current base hour, and only it, is marked current and shows `now`;
   * every other cell shows the instant the search found for its hour.
   */
  lemma CurrentCellShowsNow(f: Frame, tz: string, h: int)
    requires 0 <= h < 24
    ensures Row(f, tz)[h].isCurrent <==> h == CurrentHourInBase(f)
    ensures Row(f, tz)[h].isCurrent ==> Row(f, tz)[h].displayInstant == f.now && Row(f, tz)[h].shown == f.db(tz, f.now)
    ensures !Row(f, tz)[h].isCurrent ==> Row(f, tz)[h].displayInstant == TopOfHour(f, h)
    ensures !Row(f, tz)[h].isCurrent ==> Row(f, tz)[h].shown == f.db(tz, TopOfHour(f, h))
  {
  }

  /** The hours of a row's current cells. */
  function CurrentHours(row: seq<Cell>): set<int> {
    set h | 0 <= h < |row| && row[h].isCurrent
  }

  /**
   * A row has exactly one current cell when the base zone's hour is in 0..23, and none
   * otherwise (a formatter that writes midnight as "24" leaves the row without one).
   */
  lemma ExactlyOneCurrentCell(f: Frame, tz: string)
    ensures CurrentHours(Row(f, tz)) == if 0 <= CurrentHourInBase(f) < 24 then {CurrentHourInBase(f)} else {}
    ensures |CurrentHours(Row(f, tz))| == if 0 <= CurrentHourInBase(f) < 24 then 1 else 0
  {
    var row := Row(f, tz);
    var c := CurrentHourInBase(f);
    if 0 <= c < 24 {
      assert row[c].isCurrent;
      assert CurrentHours(row) == {c};
    } else {
      assert CurrentHours(row) == {};
    }
  }

  /**
   * The day-change highlight is decided on the instant the search found, even in the
   * current column, and compares the day of the month alone.
   */
  lemma DayChangeFromTopOfHour(f: Frame, tz: string, h: int)
    requires 0 <= h < 24
    ensures Row(f, tz)[h].isDayChange <==> f.db(tz, TopOfHour(f, h)).day != BaseDay(f)
    ensures Row(f, tz)[h].isDayChange ==>
      IsDifferentDay(f.db(f.baseTimezone, f.now), f.db(tz, TopOfHour(f, h)))
  {
  }

  /**
   * Equal days of the month raise no day-change highlight, even when month or year
   * differ, although `isDifferentDay` would call the two days different.
   */
  lemma DayChangeIgnoresMonthAndYear(f: Frame, tz: string, h: int)
    requires 0 <= h < 24
    requires f.db(tz, TopOfHour(f, h)).day == BaseDay(f)
    requires f.db(tz, TopOfHour(f, h)).month != f.db(f.baseTimezone, f.now).month
    ensures !Row(f, tz)[h].isDayChange
    ensures IsDifferentDay(f.db(f.baseTimezone, f.now), f.db(tz, TopOfHour(f, h)))
  {
  }

  /** The reference highlight is on the reference hour's cell and nowhere else. */
  lemma ReferenceCell(f: Frame, tz: string, h: int)
    requires 0 <= h < 24
    ensures Row(f, tz)[h].isReference <==> f.referenceHour == Some(h)
  {
  }

  /** A row depends on nothing of its person but the timezone. */
  lemma {:induction false} RowsDependOnZonesOnly(f: Frame, p: seq<Person>, q: seq<Person>)
    requires |p| == |q|
    requires forall i :: 0 <= i < |p| ==> p[i].timezone == q[i].timezone
    ensures Rows(f, p) == Rows(f, q)
  {
    assert forall i :: 0 <= i < |p| ==> Rows(f, p)[i] == Rows(f, q)[i];
  }

  /** Renaming a person leaves every cell of the grid as it was. */
  lemma RenameKeepsGrid(f: Frame, people: seq<Person>, id: int, name: string)
    ensures Rows(f, RenameFirst(people, id, name)) == Rows(f, people)
  {
    RowsDependOnZonesOnly(f, RenameFirst(people, id, name), people);
  }

  /** Adding a person adds one row at the bottom and changes no other. */
  lemma AddAppendsRow(f: Frame, people: seq<Person>, p: Person)
    ensures Rows(f, people + [p]) == Rows(f, people) + [Row(f, p.timezone)]
  {
    assert forall i :: 0 <= i < |people| ==> (people + [p])[i] == people[i];
  }
}
