/** The timetable screen of App.tsx: the initial grid, the handlers that
    toggle a cell, add and remove teachers and clear assignments, and the
    auto-assign handler with its feasibility pre-check and the merge of an
    assignment map into the slots. Each handler is a function from the old
    state to the new one, as the `setState` updaters are. */
module App {
  import opened Types
  import opened Keys
  import opened Engine

  // ---------------------------------------------------------------------
  // The state the screen keeps consistent
  // ---------------------------------------------------------------------

  /** A timetable in which ids and slot keys are unique, only available
      slots hold a teacher, every held id belongs to a listed teacher, and
      no teacher holds two slots of the same (day, period). */
  predicate WellFormed(st: ScheduleState)
  {
    && UniqueIds(st.teachers)
    && UniqueSlotKeys(st.slots)
    && (forall s :: s in st.slots && s.assignedTeacherId.Some? ==>
          s.isAvailable && s.assignedTeacherId.value in Ids(st.teachers))
    && (forall i, j ::
          (0 <= i < j < |st.slots| && TimeOf(st.slots[i]) == TimeOf(st.slots[j]) && st.slots[i].assignedTeacherId.Some?) ==>
          st.slots[i].assignedTeacherId != st.slots[j].assignedTeacherId)
  }

  /** Two slot lists that agree, index by index, on everything a slot key
      and a time are made of. */
  predicate SameCells(a: seq<Slot>, b: seq<Slot>)
  {
    |a| == |b| &&
    forall i :: 0 <= i < |a| ==>
      a[i].grade == b[i].grade && a[i].classNumber == b[i].classNumber &&
      a[i].day == b[i].day && a[i].period == b[i].period
  }

  lemma SameCellsKeepKeys(a: seq<Slot>, b: seq<Slot>)
    requires SameCells(a, b) && UniqueSlotKeys(a)
    ensures UniqueSlotKeys(b)
    ensures forall i :: 0 <= i < |a| ==> SlotKey(a[i]) == SlotKey(b[i]) && TimeOf(a[i]) == TimeOf(b[i])
  {
    forall i | 0 <= i < |a| ensures SlotKey(a[i]) == SlotKey(b[i]) {
      SlotKeyInjective(a[i], b[i]);
    }
  }

  // ---------------------------------------------------------------------
  // The initial grid
  // ---------------------------------------------------------------------

  /** An unassigned, unavailable cell of the single-class grid. */
  function Blank(t: Time): Slot
  {
    Slot(None, None, t.0, t.1, false, None)
  }

  /** The blank cells of the given times, in order. */
  function Blanks(ts: seq<Time>): (r: seq<Slot>)
    ensures |r| == |ts|
    ensures forall i :: 0 <= i < |ts| ==> r[i] == Blank(ts[i])
  {
    if ts == [] then [] else Blanks(ts[..|ts| - 1]) + [Blank(ts[|ts| - 1])]
  }

  lemma BlanksStep(ts: seq<Time>, t: Time)
    ensures Blanks(ts + [t]) == Blanks(ts) + [Blank(t)]
  {
    assert (ts + [t])[..|ts|] == ts;
  }

  /** The `useState` initialiser: nested `forEach` over `DAYS` and
      `PERIODS`, pushing one blank cell per (day, period). */
  method InitialSlots() returns (slots: seq<Slot>)
    ensures slots == Blanks(Week())
  {
    slots := [];
    for di := 0 to |DAYS|
      invariant slots == Blanks(DayMajor(DAYS[..di]))
    {
      var day := DAYS[di];
      ghost var doneDays := DayMajor(DAYS[..di]);
      assert slots == Blanks(doneDays + PeriodsOf(day, PERIODS[..0])) by {
        assert doneDays + PeriodsOf(day, PERIODS[..0]) == doneDays;
      }
      for pi := 0 to |PERIODS|
        invariant slots == Blanks(doneDays + PeriodsOf(day, PERIODS[..pi]))
      {
        var period := PERIODS[pi];
        slots := slots + [Slot(None, None, day, period, false, None)];
        assert slots == Blanks(doneDays + PeriodsOf(day, PERIODS[..pi + 1])) by {
          NextTime(doneDays, day, pi);
          BlanksStep(doneDays + PeriodsOf(day, PERIODS[..pi]), (day, period));
        }
      }
      assert slots == Blanks(DayMajor(DAYS[..di + 1])) by {
        NextDay(di);
      }
    }
    assert slots == Blanks(Week()) by {
      assert DAYS[..|DAYS|] == DAYS;
    }
  }

  /** The blank week lists each (day, period) exactly once, in day-major
      order, every cell unavailable and unassigned. */
  lemma InitialGridCoversWeek()
    ensures |Blanks(Week())| == 35
    ensures forall i :: 0 <= i < |Week()| ==>
      TimeOf(Blanks(Week())[i]) == Week()[i] && !Blanks(Week())[i].isAvailable && Blanks(Week())[i].assignedTeacherId == None
    ensures forall i, j :: 0 <= i < j < |Week()| ==> TimeOf(Blanks(Week())[i]) != TimeOf(Blanks(Week())[j])
    ensures forall d: Day, p :: p in PERIODS ==> exists i :: 0 <= i < |Week()| && TimeOf(Blanks(Week())[i]) == (d, p)
  {
    WeekEnumeratesTimes();
    DaysEnumerateDay();
    var g := Blanks(Week());
    forall d: Day, p | p in PERIODS ensures exists i :: 0 <= i < |Week()| && TimeOf(g[i]) == (d, p) {
      assert (d, p) in Week();
      var i :| 0 <= i < |Week()| && Week()[i] == (d, p);
      assert TimeOf(g[i]) == (d, p);
    }
  }

  /** The blank week is a well-formed timetable for an empty teacher list. */
  lemma InitialGridWellFormed()
    ensures WellFormed(ScheduleState([], Blanks(Week())))
  {
    var g := Blanks(Week());
    assert Distinct(Week()) by {
      WeekEnumeratesTimes();
    }
    forall i, j | 0 <= i < j < |g| ensures SlotKey(g[i]) != SlotKey(g[j]) {
      SlotKeyInjective(g[i], g[j]);
    }
  }

  // ---------------------------------------------------------------------
  // toggleSlotAvailability
  // ---------------------------------------------------------------------

  /** Flip availability, and drop the assignment, of the cells at (d, p). */
  function ToggleSlotAvailability(slots: seq<Slot>, d: Day, p: nat): (r: seq<Slot>)
    ensures SameCells(slots, r)
    ensures forall i :: 0 <= i < |slots| && TimeOf(slots[i]) == (d, p) ==>
      r[i].isAvailable == !slots[i].isAvailable && r[i].assignedTeacherId == None
    ensures forall i :: 0 <= i < |slots| && TimeOf(slots[i]) != (d, p) ==> r[i] == slots[i]
  {
    seq(|slots|, i requires 0 <= i < |slots| =>
      if slots[i].day == d && slots[i].period == p
      then slots[i].(isAvailable := !slots[i].isAvailable, assignedTeacherId := None)
      else slots[i])
  }

  /** Toggling a cell twice restores its availability; the only trace left
      is that the cells at (d, p) are unassigned. */
  lemma ToggleTwice(slots: seq<Slot>, d: Day, p: nat)
    ensures ToggleSlotAvailability(ToggleSlotAvailability(slots, d, p), d, p) ==
      seq(|slots|, i requires 0 <= i < |slots| =>
        if TimeOf(slots[i]) == (d, p) then slots[i].(assignedTeacherId := None) else slots[i])
    ensures (forall s :: s in slots && TimeOf(s) == (d, p) ==> s.assignedTeacherId == None) ==>
      ToggleSlotAvailability(ToggleSlotAvailability(slots, d, p), d, p) == slots
  {
    var once := ToggleSlotAvailability(slots, d, p);
    var twice := ToggleSlotAvailability(once, d, p);
    forall i | 0 <= i < |slots| && TimeOf(slots[i]) == (d, p) ensures twice[i] == slots[i].(assignedTeacherId := None) {
      assert TimeOf(once[i]) == (d, p);
    }
    forall i | 0 <= i < |slots| && TimeOf(slots[i]) != (d, p) ensures twice[i] == slots[i] {
      assert TimeOf(once[i]) != (d, p);
    }
  }

  lemma ToggleKeepsWellFormed(st: ScheduleState, d: Day, p: nat)
    requires WellFormed(st)
    ensures WellFormed(ScheduleState(st.teachers, ToggleSlotAvailability(st.slots, d, p)))
  {
    var r := ToggleSlotAvailability(st.slots, d, p);
    SameCellsKeepKeys(st.slots, r);
  }

  // ---------------------------------------------------------------------
  // addTeacher and removeTeacher
  // ---------------------------------------------------------------------

  /** The add-teacher form: name, subject and weekly hours. */
  datatype TeacherForm = TeacherForm(name: string, subject: string, hours: int)

  /** The form after a successful add: empty fields and one hour. */
  const EmptyForm := TeacherForm("", "", 1)

  /** A new teacher is appended when both name and subject are filled in,
      and then the form is cleared; otherwise nothing changes. The fresh id
      is supplied by the caller, and so are the two fields the engine
      reads. */
  function AddTeacher(teachers: seq<Teacher>, form: TeacherForm, freshId: string,
                      targetGrades: seq<nat>, totalWeeklyHours: int): (r: (seq<Teacher>, TeacherForm))
    ensures form.name == "" || form.subject == "" ==> r == (teachers, form)
    ensures form.name != "" && form.subject != "" ==>
      && |r.0| == |teachers| + 1
      && r.0[..|teachers|] == teachers
      && r.0[|teachers|].id == freshId
      && r.0[|teachers|].name == form.name
      && r.0[|teachers|].subject == form.subject
      && r.0[|teachers|].weeklyHours == form.hours
      && r.1 == EmptyForm
  {
    if form.name == "" || form.subject == "" then (teachers, form)
    else (teachers + [Teacher(freshId, form.name, form.subject, form.hours, totalWeeklyHours, targetGrades)], EmptyForm)
  }

  /** Adding a teacher under an unused id keeps the timetable well formed,
      and raises the required hours by exactly the form's hours. */
  lemma AddTeacherKeepsWellFormed(st: ScheduleState, form: TeacherForm, freshId: string,
                                  targetGrades: seq<nat>, totalWeeklyHours: int)
    requires WellFormed(st) && freshId !in Ids(st.teachers)
    ensures WellFormed(ScheduleState(AddTeacher(st.teachers, form, freshId, targetGrades, totalWeeklyHours).0, st.slots))
    ensures TotalRequiredHours(AddTeacher(st.teachers, form, freshId, targetGrades, totalWeeklyHours).0) ==
      TotalRequiredHours(st.teachers) + (if form.name == "" || form.subject == "" then 0 else form.hours)
  {
    var r := AddTeacher(st.teachers, form, freshId, targetGrades, totalWeeklyHours).0;
    if form.name != "" && form.subject != "" {
      assert r[..|r| - 1] == st.teachers;
      assert Ids(st.teachers) <= Ids(r) by {
        forall id | id in Ids(st.teachers) ensures id in Ids(r) {
          var t :| t in st.teachers && t.id == id;
          assert t in r;
        }
      }
      forall i, j | 0 <= i < j < |r| ensures r[i].id != r[j].id {
        if j == |st.teachers| {
          assert r[i] in st.teachers;
        }
      }
    }
  }

  /** `prev.filter(t => t.id !== id)`. */
  function WithoutTeacher(teachers: seq<Teacher>, id: string): (r: seq<Teacher>)
    ensures |r| <= |teachers|
    ensures forall t :: t in r <==> t in teachers && t.id != id
  {
    if teachers == [] then []
    else
      var last := teachers[|teachers| - 1];
      WithoutTeacher(teachers[..|teachers| - 1], id) + (if last.id != id then [last] else [])
  }

  /** The filter keeps the survivors in their order: filtering a
      concatenation concatenates the filtered parts. */
  lemma {:induction false} WithoutTeacherKeepsOrder(a: seq<Teacher>, b: seq<Teacher>, id: string)
    ensures WithoutTeacher(a + b, id) == WithoutTeacher(a, id) + WithoutTeacher(b, id)
  {
    if b == [] {
      assert a + b == a;
    } else {
      var init, last := b[..|b| - 1], b[|b| - 1];
      assert (a + b)[..|a + b| - 1] == a + init;
      WithoutTeacherKeepsOrder(a, init, id);
    }
  }

  /** Removing an id nobody has leaves the list as it was. */
  lemma {:induction false} WithoutAbsentTeacher(teachers: seq<Teacher>, id: string)
    requires forall i :: 0 <= i < |teachers| ==> teachers[i].id != id
    ensures WithoutTeacher(teachers, id) == teachers
  {
    if teachers != [] {
      var init, last := teachers[..|teachers| - 1], teachers[|teachers| - 1];
      assert WithoutTeacher(init, id) == init by {
        WithoutAbsentTeacher(init, id);
      }
      assert last.id != id;
      assert WithoutTeacher(teachers, id) == init + [last];
      assert teachers == init + [last];
    }
  }

  /** Drop the teacher from the list and from every slot that held it. */
  function RemoveTeacher(st: ScheduleState, id: string): (r: ScheduleState)
    ensures forall t :: t in r.teachers <==> t in st.teachers && t.id != id
    ensures id !in Ids(r.teachers)
    ensures SameCells(st.slots, r.slots)
    ensures forall i :: 0 <= i < |st.slots| && st.slots[i].assignedTeacherId == Some(id) ==>
      r.slots[i] == st.slots[i].(assignedTeacherId := None)
    ensures forall i :: 0 <= i < |st.slots| && st.slots[i].assignedTeacherId != Some(id) ==>
      r.slots[i] == st.slots[i]
  {
    ScheduleState(
      WithoutTeacher(st.teachers, id),
      seq(|st.slots|, i requires 0 <= i < |st.slots| =>
        if st.slots[i].assignedTeacherId == Some(id) then st.slots[i].(assignedTeacherId := None) else st.slots[i]))
  }

  lemma {:induction false} WithoutTeacherKeepsUniqueIds(teachers: seq<Teacher>, id: string)
    requires UniqueIds(teachers)
    ensures UniqueIds(WithoutTeacher(teachers, id))
  {
    if teachers != [] {
      var init, last := teachers[..|teachers| - 1], teachers[|teachers| - 1];
      WithoutTeacherKeepsUniqueIds(init, id);
      var w := WithoutTeacher(init, id);
      if last.id != id {
        forall i | 0 <= i < |w| ensures w[i].id != last.id {
          assert w[i] in init;
          var k :| 0 <= k < |init| && init[k] == w[i];
        }
      }
    }
  }

  lemma RemoveTeacherKeepsWellFormed(st: ScheduleState, id: string)
    requires WellFormed(st)
    ensures WellFormed(RemoveTeacher(st, id))
  {
    var r := RemoveTeacher(st, id);
    WithoutTeacherKeepsUniqueIds(st.teachers, id);
    SameCellsKeepKeys(st.slots, r.slots);
    forall s | s in r.slots && s.assignedTeacherId.Some?
      ensures s.isAvailable && s.assignedTeacherId.value in Ids(r.teachers)
    {
      var i :| 0 <= i < |r.slots| && r.slots[i] == s;
      assert s == st.slots[i];
      var t :| t in st.teachers && t.id == s.assignedTeacherId.value;
      assert t in r.teachers;
    }
  }

  // ---------------------------------------------------------------------
  // resetAssignments
  // ---------------------------------------------------------------------

  function ResetAssignments(slots: seq<Slot>): (r: seq<Slot>)
    ensures SameCells(slots, r)
    ensures forall i :: 0 <= i < |slots| ==>
      r[i].assignedTeacherId == None && r[i].isAvailable == slots[i].isAvailable
  {
    seq(|slots|, i requires 0 <= i < |slots| => slots[i].(assignedTeacherId := None))
  }

  /** Clearing twice is clearing once, the available-slot count is kept,
      and a well-formed timetable stays well formed. */
  lemma ResetIsIdempotent(st: ScheduleState)
    ensures ResetAssignments(ResetAssignments(st.slots)) == ResetAssignments(st.slots)
    ensures AvailableSlotCount(ResetAssignments(st.slots)) == AvailableSlotCount(st.slots)
    ensures WellFormed(st) ==> WellFormed(ScheduleState(st.teachers, ResetAssignments(st.slots)))
  {
    var r := ResetAssignments(st.slots);
    SameAvailabilitySameCount(st.slots, r);
    if WellFormed(st) {
      SameCellsKeepKeys(st.slots, r);
    }
  }

  // ---------------------------------------------------------------------
  // handleAutoAssign
  // ---------------------------------------------------------------------

  /** `teachers.reduce((sum, t) => sum + t.weeklyHours, 0)`. */
  function TotalRequiredHours(teachers: seq<Teacher>): (r: int)
    ensures (forall i :: 0 <= i < |teachers| ==> teachers[i].weeklyHours >= 0) ==> r >= 0
    ensures (forall i :: 0 <= i < |teachers| ==> teachers[i].weeklyHours <= 0) ==> r <= 0
  {
    if teachers == [] then 0
    else TotalRequiredHours(teachers[..|teachers| - 1]) + teachers[|teachers| - 1].weeklyHours
  }

  /** `slots.filter(s => s.isAvailable).length`. */
  function AvailableSlotCount(slots: seq<Slot>): (r: nat)
    ensures r <= |slots|
    ensures r == 0 <==> forall i :: 0 <= i < |slots| ==> !slots[i].isAvailable
  {
    if slots == [] then 0
    else AvailableSlotCount(slots[..|slots| - 1]) + (if slots[|slots| - 1].isAvailable then 1 else 0)
  }

  /** The pre-check counts exactly the slots whose keys the engine offers. */
  lemma {:induction false} AvailableSlotCountIsKeyCount(slots: seq<Slot>)
    ensures AvailableSlotCount(slots) == |AvailableSlotKeys(slots)|
  {
    if slots != [] {
      AvailableSlotCountIsKeyCount(slots[..|slots| - 1]);
    }
  }

  lemma {:induction false} SameAvailabilitySameCount(a: seq<Slot>, b: seq<Slot>)
    requires |a| == |b| && forall i :: 0 <= i < |a| ==> a[i].isAvailable == b[i].isAvailable
    ensures AvailableSlotCount(a) == AvailableSlotCount(b)
  {
    if a != [] {
      SameAvailabilitySameCount(a[..|a| - 1], b[..|b| - 1]);
    }
  }

  /** `assignment[key] || null`: a missing key and an empty id both give
      null. */
  function Lookup(assignment: map<string, string>, key: string): (r: Option<string>)
    ensures r.Some? <==> key in assignment && assignment[key] != ""
    ensures r.Some? ==> r.value == assignment[key]
  {
    if key in assignment && assignment[key] != "" then Some(assignment[key]) else None
  }

  /** The merge as written: each slot is looked up under `${day}-${period}`
      and takes what it finds, or null; no other field changes. */
  function MergeByCellKey(slots: seq<Slot>, assignment: map<string, string>): (r: seq<Slot>)
    ensures SameCells(slots, r)
    ensures forall i :: 0 <= i < |slots| ==>
      r[i].isAvailable == slots[i].isAvailable &&
      r[i].assignedTeacherId == Lookup(assignment, CellKey(slots[i].day, slots[i].period))
  {
    seq(|slots|, i requires 0 <= i < |slots| =>
      slots[i].(assignedTeacherId := Lookup(assignment, CellKey(slots[i].day, slots[i].period))))
  }

  /** The merge under the engine's own key, `grade-classNumber-day-period`. */
  function MergeBySlotKey(slots: seq<Slot>, assignment: map<string, string>): (r: seq<Slot>)
    ensures SameCells(slots, r)
    ensures forall i :: 0 <= i < |slots| ==>
      r[i].isAvailable == slots[i].isAvailable &&
      r[i].assignedTeacherId == Lookup(assignment, SlotKey(slots[i]))
  {
    seq(|slots|, i requires 0 <= i < |slots| =>
      slots[i].(assignedTeacherId := Lookup(assignment, SlotKey(slots[i]))))
  }

  /** Merging under the cell key any map whose keys are slot keys (every
      fallback result is one) clears every slot. */
  lemma CellKeyMergeClearsSlotKeyedMaps(slots: seq<Slot>, keyed: seq<Slot>, assignment: map<string, string>)
    requires KeysAvailable(keyed, assignment)
    ensures forall i :: 0 <= i < |slots| ==> MergeByCellKey(slots, assignment)[i].assignedTeacherId == None
  {
    forall i | 0 <= i < |slots| ensures CellKey(slots[i].day, slots[i].period) !in assignment {
      if CellKey(slots[i].day, slots[i].period) in assignment {
        var s :| s in keyed && s.isAvailable && SlotKey(s) == CellKey(slots[i].day, slots[i].period);
        SlotKeyIsNeverCellKey(s, slots[i].day, slots[i].period);
      }
    }
  }

  lemma CellKeyMergeClearsFallback(teachers: seq<Teacher>, slots: seq<Slot>)
    ensures forall i :: 0 <= i < |slots| ==>
      MergeByCellKey(slots, Fallback(teachers, slots))[i].assignedTeacherId == None
  {
    CellKeyMergeClearsSlotKeyedMaps(slots, slots, Fallback(teachers, slots));
  }

  /** One available cell of the grid's own shape (no grade or class, at
      월 1) and a reply giving it to teacher "t1" under the engine's key: the
      merge as written drops the assignment, the merge under the slot key
      keeps it. */
  lemma CellKeyMergeLosesAssignment()
    ensures var s := Slot(None, None, Mon, 1, true, None);
            var reply := map[SlotKey(s) := "t1"];
            MergeByCellKey([s], reply)[0].assignedTeacherId == None &&
            MergeBySlotKey([s], reply)[0].assignedTeacherId == Some("t1")
  {
    var s := Slot(None, None, Mon, 1, true, None);
    SlotKeyIsNeverCellKey(s, Mon, 1);
  }

  /** On a grid whose cells carry no grade, as the screen builds them, no
      teacher is eligible for any cell, so the fallback assigns nothing. */
  lemma GradelessGridFallbackIsEmpty(teachers: seq<Teacher>, slots: seq<Slot>)
    requires forall s :: s in slots ==> s.grade == None
    ensures Fallback(teachers, slots) == map[]
  {
    NoEligibleTeacherMeansEmpty(teachers, slots);
  }

  /** Merging the fallback's result as written clears every cell, which
      keeps a well-formed timetable well formed. */
  lemma CellKeyMergeOfFallbackWellFormed(st: ScheduleState)
    requires WellFormed(st)
    ensures WellFormed(ScheduleState(st.teachers, MergeByCellKey(st.slots, Fallback(st.teachers, st.slots))))
  {
    var r := MergeByCellKey(st.slots, Fallback(st.teachers, st.slots));
    CellKeyMergeClearsFallback(st.teachers, st.slots);
    SameCellsKeepKeys(st.slots, r);
    assert forall s :: s in r ==> s.assignedTeacherId == None;
  }

  /** A cell whose slot key a sound assignment holds is available, and its
      teacher is one of the listed ids. */
  lemma SoundCell(teachers: seq<Teacher>, slots: seq<Slot>, dist: map<string, string>, i: nat)
    requires UniqueSlotKeys(slots) && KeysAvailable(slots, dist) && EligibilityRespected(teachers, slots, dist)
    requires i < |slots| && SlotKey(slots[i]) in dist
    ensures slots[i].isAvailable && dist[SlotKey(slots[i])] in Ids(teachers)
  {
    var k := SlotKey(slots[i]);
    assert k in AvailableSlotKeys(slots);
    var s' :| s' in slots && s'.isAvailable && SlotKey(s') == k;
    SameKeySameSlot(slots, s', slots[i]);
    var t :| t in teachers && t.id == dist[k] && Eligible(t, slots[i]);
  }

  /** Two cells of one time whose keys a double-booking-free assignment
      holds get different teachers. */
  lemma SoundPair(slots: seq<Slot>, dist: map<string, string>, i: nat, j: nat)
    requires UniqueSlotKeys(slots) && NoDoubleBooking(slots, dist)
    requires i < j < |slots| && TimeOf(slots[i]) == TimeOf(slots[j])
    requires SlotKey(slots[i]) in dist && SlotKey(slots[j]) in dist
    ensures dist[SlotKey(slots[i])] != dist[SlotKey(slots[j])]
  {
    assert slots[i] in slots && slots[j] in slots;
  }

  /** Merging by slot key any assignment that keys only available slots,
      respects eligibility and books no teacher twice at one time keeps the
      timetable well formed. */
  lemma SlotKeyMergeOfSoundWellFormed(st: ScheduleState, dist: map<string, string>)
    requires WellFormed(st)
    requires KeysAvailable(st.slots, dist) && EligibilityRespected(st.teachers, st.slots, dist)
    requires NoDoubleBooking(st.slots, dist)
    ensures WellFormed(ScheduleState(st.teachers, MergeBySlotKey(st.slots, dist)))
  {
    var r := MergeBySlotKey(st.slots, dist);
    SameCellsKeepKeys(st.slots, r);
    forall s | s in r && s.assignedTeacherId.Some?
      ensures s.isAvailable && s.assignedTeacherId.value in Ids(st.teachers)
    {
      var i :| 0 <= i < |r| && r[i] == s;
      SoundCell(st.teachers, st.slots, dist, i);
    }
    forall i, j | 0 <= i < j < |r| && TimeOf(r[i]) == TimeOf(r[j]) && r[i].assignedTeacherId.Some?
      ensures r[i].assignedTeacherId != r[j].assignedTeacherId
    {
      if r[j].assignedTeacherId.Some? {
        SoundPair(st.slots, dist, i, j);
      }
    }
  }

  /** Merging the fallback's result under the slot key gives each slot the
      teacher the fallback chose for it, and keeps a well-formed timetable
      well formed. */
  lemma SlotKeyMergeOfFallbackWellFormed(st: ScheduleState)
    requires WellFormed(st)
    ensures forall i ::
      (0 <= i < |st.slots| && SlotKey(st.slots[i]) in Fallback(st.teachers, st.slots) &&
       Fallback(st.teachers, st.slots)[SlotKey(st.slots[i])] != "") ==>
      MergeBySlotKey(st.slots, Fallback(st.teachers, st.slots))[i].assignedTeacherId ==
        Some(Fallback(st.teachers, st.slots)[SlotKey(st.slots[i])])
    ensures WellFormed(ScheduleState(st.teachers, MergeBySlotKey(st.slots, Fallback(st.teachers, st.slots))))
  {
    SlotKeyMergeOfSoundWellFormed(st, Fallback(st.teachers, st.slots));
  }

  /** The auto-assign handler as written: when the required hours exceed
      the available cells nothing changes; otherwise the assignment (the
      optimizer's reply, or the fallback when it fails) is merged into the
      slots under the cell key `${day}-${period}`. After the fallback every
      cell ends up unassigned. */
  method HandleAutoAssign(st: ScheduleState, reply: Option<map<string, string>>) returns (slots: seq<Slot>)
    ensures TotalRequiredHours(st.teachers) > AvailableSlotCount(st.slots) ==> slots == st.slots
    ensures TotalRequiredHours(st.teachers) <= AvailableSlotCount(st.slots) && reply.Some? ==>
      slots == MergeByCellKey(st.slots, reply.value)
    ensures TotalRequiredHours(st.teachers) <= AvailableSlotCount(st.slots) && reply.None? ==>
      slots == MergeByCellKey(st.slots, Fallback(st.teachers, st.slots)) &&
      forall i :: 0 <= i < |slots| ==> slots[i].assignedTeacherId == None
    ensures WellFormed(st) && reply.None? ==> WellFormed(ScheduleState(st.teachers, slots))
  {
    var totalRequiredHours := TotalRequiredHours(st.teachers);
    var availableSlotCount := AvailableSlotCount(st.slots);
    if totalRequiredHours > availableSlotCount {
      return st.slots;
    }
    var assignment := AutoGenerateSchedule(st.teachers, st.slots, reply);
    slots := MergeByCellKey(st.slots, assignment);
    if reply.None? {
      CellKeyMergeClearsFallback(st.teachers, st.slots);
      if WellFormed(st) {
        CellKeyMergeOfFallbackWellFormed(st);
      }
    }
  }

  /** The auto-assign handler with the merge under the engine's own slot
      key: the same pre-check, and after the fallback each cell holds the
      teacher the fallback chose for it. */
  method HandleAutoAssignBySlotKey(st: ScheduleState, reply: Option<map<string, string>>) returns (slots: seq<Slot>)
    ensures TotalRequiredHours(st.teachers) > AvailableSlotCount(st.slots) ==> slots == st.slots
    ensures TotalRequiredHours(st.teachers) <= AvailableSlotCount(st.slots) && reply.Some? ==>
      slots == MergeBySlotKey(st.slots, reply.value)
    ensures TotalRequiredHours(st.teachers) <= AvailableSlotCount(st.slots) && reply.None? ==>
      slots == MergeBySlotKey(st.slots, Fallback(st.teachers, st.slots))
    ensures WellFormed(st) && reply.None? ==> WellFormed(ScheduleState(st.teachers, slots))
  {
    var totalRequiredHours := TotalRequiredHours(st.teachers);
    var availableSlotCount := AvailableSlotCount(st.slots);
    if totalRequiredHours > availableSlotCount {
      return st.slots;
    }
    var assignment := AutoGenerateSchedule(st.teachers, st.slots, reply);
    slots := MergeBySlotKey(st.slots, assignment);
    if WellFormed(st) && reply.None? {
      SlotKeyMergeOfFallbackWellFormed(st);
    }
  }
}
