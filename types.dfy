/** The domain of the timetable: days, periods, teachers, slots and the
    fixed day-major order in which the week is enumerated. */
module Types {

  /** `null` in the source (an unassigned slot), or an absent field. */
  datatype Option<T> = None | Some(value: T)

  /** The five school days, 월 (Monday) to 금 (Friday). */
  datatype Day = Mon | Tue | Wed | Thu | Fri

  /** The day names as the source writes them; a key embeds them verbatim. */
  function DayName(d: Day): (r: string)
    ensures |r| == 1 && r[0] != '-'
  {
    match d
    case Mon => "월"
    case Tue => "화"
    case Wed => "수"
    case Thu => "목"
    case Fri => "금"
  }

  const DAYS: seq<Day> := [Mon, Tue, Wed, Thu, Fri]
  const PERIODS: seq<nat> := [1, 2, 3, 4, 5, 6, 7]

  /** A specialist teacher. `weeklyHours` is the field the user interface
      edits and sums; `totalWeeklyHours` and `targetGrades` are the fields
      the assignment engine reads (its quota and its eligible grades). */
  datatype Teacher = Teacher(
    id: string,
    name: string,
    subject: string,
    weeklyHours: int,
    totalWeeklyHours: int,
    targetGrades: seq<nat>)

  /** One cell of a class timetable. `grade` and `classNumber` are absent
      (`undefined` in the source) in the single-class grid. */
  datatype Slot = Slot(
    grade: Option<nat>,
    classNumber: Option<nat>,
    day: Day,
    period: nat,
    isAvailable: bool,
    assignedTeacherId: Option<string>)

  /** Everything the application persists: the teachers and the slots. */
  datatype ScheduleState = ScheduleState(teachers: seq<Teacher>, slots: seq<Slot>)

  /** A (day, period) pair: the unit of the no-double-booking rule. */
  type Time = (Day, nat)

  function TimeOf(s: Slot): Time
  {
    (s.day, s.period)
  }

  predicate Distinct<T(==)>(s: seq<T>)
  {
    forall i, j :: 0 <= i < j < |s| ==> s[i] != s[j]
  }

  /** The periods of one day, in `PERIODS` order. */
  function PeriodsOf(d: Day, ps: seq<nat>): (r: seq<Time>)
    ensures |r| == |ps|
    ensures forall i :: 0 <= i < |ps| ==> r[i] == (d, ps[i])
  {
    if ps == [] then [] else PeriodsOf(d, ps[..|ps| - 1]) + [(d, ps[|ps| - 1])]
  }

  /** The times of the given days, day-major: all periods of the first day,
      then all periods of the second, and so on. */
  function DayMajor(ds: seq<Day>): (r: seq<Time>)
    ensures |r| == |ds| * |PERIODS|
    ensures forall x :: x in r <==> x.0 in ds && x.1 in PERIODS
  {
    if ds == [] then [] else DayMajor(ds[..|ds| - 1]) + PeriodsOf(ds[|ds| - 1], PERIODS)
  }

  /** The whole week in the order the source walks it. */
  function Week(): seq<Time>
  {
    DayMajor(DAYS)
  }

  /** `DAYS` lists every day exactly once, in the order 월, 화, 수, 목, 금. */
  lemma DaysEnumerateDay()
    ensures |DAYS| == 5 && Distinct(DAYS)
    ensures forall d: Day :: d in DAYS
    ensures DAYS[0] == Mon && DAYS[4] == Fri
  {
    forall d: Day ensures d in DAYS {
      match d
      case Mon => assert DAYS[0] == d;
      case Tue => assert DAYS[1] == d;
      case Wed => assert DAYS[2] == d;
      case Thu => assert DAYS[3] == d;
      case Fri => assert DAYS[4] == d;
    }
  }

  /** `PERIODS` is 1..7, strictly increasing. */
  lemma PeriodsAscending()
    ensures |PERIODS| == 7
    ensures forall i :: 0 <= i < |PERIODS| ==> PERIODS[i] == i + 1
    ensures forall i, j :: 0 <= i < j < |PERIODS| ==> PERIODS[i] < PERIODS[j]
  {
  }

  lemma DistinctConcat<T>(a: seq<T>, b: seq<T>)
    requires Distinct(a) && Distinct(b)
    requires forall x :: x in a ==> x !in b
    ensures Distinct(a + b)
  {
    forall i, j | 0 <= i < j < |a + b| ensures (a + b)[i] != (a + b)[j] {
      if i < |a| && j >= |a| {
        assert (a + b)[i] == a[i] && a[i] in a;
        assert (a + b)[j] == b[j - |a|] && b[j - |a|] in b;
      }
    }
  }

  lemma {:induction false} DayMajorDistinct(ds: seq<Day>)
    requires Distinct(ds)
    ensures Distinct(DayMajor(ds))
  {
    if ds != [] {
      var init, last := ds[..|ds| - 1], ds[|ds| - 1];
      DayMajorDistinct(init);
      var a, b := DayMajor(init), PeriodsOf(last, PERIODS);
      forall x | x in a ensures x !in b {
        assert x.0 in init;
      }
      DistinctConcat(a, b);
    }
  }

  /** One more period of the current day extends the walked times by
      exactly that (day, period). */
  lemma NextTime(done: seq<Time>, d: Day, pi: nat)
    requires pi < |PERIODS|
    ensures done + PeriodsOf(d, PERIODS[..pi + 1]) == done + PeriodsOf(d, PERIODS[..pi]) + [(d, PERIODS[pi])]
  {
    assert PERIODS[..pi + 1][..pi] == PERIODS[..pi];
  }

  /** `DayMajor` lists the days in the given order and, within a day, the
      periods in `PERIODS` order: position i holds day i / 7, period
      number i % 7. */
  lemma {:induction false} DayMajorOrder(ds: seq<Day>)
    ensures forall i :: 0 <= i < |DayMajor(ds)| ==>
      DayMajor(ds)[i] == (ds[i / |PERIODS|], PERIODS[i % |PERIODS|])
  {
    if ds != [] {
      var init, last := ds[..|ds| - 1], ds[|ds| - 1];
      DayMajorOrder(init);
      var a, b := DayMajor(init), PeriodsOf(last, PERIODS);
      forall i | 0 <= i < |a + b| ensures (a + b)[i] == (ds[i / 7], PERIODS[i % 7]) {
        if i < |a| {
          assert i / 7 < |init|;
          assert (a + b)[i] == a[i];
        } else {
          var k := i - |a|;
          assert i == |init| * 7 + k && 0 <= k < 7;
          assert i / 7 == |init| && i % 7 == k;
          assert (a + b)[i] == b[k];
        }
      }
    }
  }

  /** The week has 35 times, each (day, period) of `DAYS` x `PERIODS`
      exactly once. */
  lemma WeekEnumeratesTimes()
    ensures |Week()| == |DAYS| * |PERIODS| == 35
    ensures Distinct(Week())
    ensures forall x :: x in Week() <==> x.0 in DAYS && x.1 in PERIODS
  {
    DaysEnumerateDay();
    DayMajorDistinct(DAYS);
  }
}
