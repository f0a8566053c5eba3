/** The assignment engine of geminiService.ts: the list of available slot
    keys sent to the external optimizer, the optimizer call itself as an
    oracle that either replies or fails, and the deterministic greedy
    fallback that runs when it fails. */
module Engine {
  import opened Types
  import opened Keys

  // ---------------------------------------------------------------------
  // The greedy rule
  // ---------------------------------------------------------------------

  /** `t.targetGrades.includes(slot.grade)`: an absent grade is in no list. */
  predicate Eligible(t: Teacher, s: Slot)
  {
    s.grade.Some? && s.grade.value in t.targetGrades
  }

  /** The three conditions of the search for a teacher: eligible for the
      slot's grade, running workload below the weekly total, and not yet
      busy in this (day, period). A teacher without a workload entry
      compares as `undefined < n`, which is false. */
  predicate Qualifies(t: Teacher, s: Slot, workload: map<string, int>, busy: set<string>)
  {
    && Eligible(t, s)
    && t.id in workload && workload[t.id] < t.totalWeeklyHours
    && t.id !in busy
  }

  /** The search of `teachers.find(...)` from position `from` on. */
  function FindFrom(teachers: seq<Teacher>, from: nat, s: Slot, workload: map<string, int>, busy: set<string>): (r: Option<nat>)
    requires from <= |teachers|
    decreases |teachers| - from
    ensures r.Some? ==> from <= r.value < |teachers| && Qualifies(teachers[r.value], s, workload, busy)
    ensures r.Some? ==> forall j :: from <= j < r.value ==> !Qualifies(teachers[j], s, workload, busy)
    ensures r.None? ==> forall j :: from <= j < |teachers| ==> !Qualifies(teachers[j], s, workload, busy)
  {
    if from == |teachers| then None
    else if Qualifies(teachers[from], s, workload, busy) then Some(from)
    else FindFrom(teachers, from + 1, s, workload, busy)
  }

  /** `teachers.find(...)`: the index of the first teacher, in input order,
      who qualifies for the slot, or None when nobody does. */
  function FindTeacher(teachers: seq<Teacher>, s: Slot, workload: map<string, int>, busy: set<string>): (r: Option<nat>)
    ensures r.Some? ==> r.value < |teachers| && Qualifies(teachers[r.value], s, workload, busy)
    ensures r.Some? ==> forall j :: 0 <= j < r.value ==> !Qualifies(teachers[j], s, workload, busy)
    ensures r.None? ==> forall j :: 0 <= j < |teachers| ==> !Qualifies(teachers[j], s, workload, busy)
  {
    FindFrom(teachers, 0, s, workload, busy)
  }

  /** Eligibility is membership of the slot's grade in the target list:
      some entry equals it, and an absent grade matches no entry. */
  lemma EligibleIsIncludes(t: Teacher, s: Slot)
    ensures Eligible(t, s) <==> exists i :: 0 <= i < |t.targetGrades| && s.grade == Some(t.targetGrades[i])
    ensures s.grade.None? ==> !Eligible(t, s)
  {
    if Eligible(t, s) {
      var i :| 0 <= i < |t.targetGrades| && t.targetGrades[i] == s.grade.value;
    }
  }

  /** A qualifying teacher is eligible and not yet busy; a teacher with no
      workload entry, or at its weekly total, never qualifies. */
  lemma QualifiesNeedsRoom(t: Teacher, s: Slot, workload: map<string, int>, busy: set<string>)
    ensures Qualifies(t, s, workload, busy) ==> Eligible(t, s) && t.id !in busy
    ensures t.id !in workload ==> !Qualifies(t, s, workload, busy)
    ensures t.id in workload && workload[t.id] >= t.totalWeeklyHours ==> !Qualifies(t, s, workload, busy)
  {
  }

  /** The two records the fallback updates: `distribution` (slot key to
      teacher id) and `teacherWorkload` (teacher id to assignments so far). */
  datatype Tally = Tally(distribution: map<string, string>, workload: map<string, int>)

  /** One pass of the slot loop: on a match record the key, raise that
      teacher's workload by one and mark the teacher busy; otherwise leave
      everything as it was. */
  function AssignSlot(teachers: seq<Teacher>, w: Tally, busy: set<string>, s: Slot): (r: (Tally, set<string>))
  {
    match FindTeacher(teachers, s, w.workload, busy)
    case None => (w, busy)
    case Some(j) =>
      var id := teachers[j].id;
      (Tally(w.distribution[SlotKey(s) := id], w.workload[id := w.workload[id] + 1]), busy + {id})
  }

  /** One slot either changes nothing, when no teacher qualifies, or makes
      one qualifying teacher busy, records it under the slot key and raises
      its workload by one. */
  lemma AssignSlotRecordsMatch(teachers: seq<Teacher>, w: Tally, busy: set<string>, s: Slot)
    ensures var r := AssignSlot(teachers, w, busy, s);
      r.1 == busy ==> r.0 == w && forall j :: 0 <= j < |teachers| ==> !Qualifies(teachers[j], s, w.workload, busy)
    ensures var r := AssignSlot(teachers, w, busy, s);
      r.1 != busy ==>
        exists j :: 0 <= j < |teachers| && Qualifies(teachers[j], s, w.workload, busy) &&
                    r.1 == busy + {teachers[j].id} && r.0.distribution == w.distribution[SlotKey(s) := teachers[j].id] &&
                    r.0.workload == w.workload[teachers[j].id := w.workload[teachers[j].id] + 1]
  {
    var f := FindTeacher(teachers, s, w.workload, busy);
    if f.Some? {
      var id := teachers[f.value].id;
      assert id !in busy;
      assert AssignSlot(teachers, w, busy, s).1 == busy + {id} != busy;
    }
  }

  /** The slot loop over one (day, period), in the order of `group`. */
  function AssignSlots(teachers: seq<Teacher>, w: Tally, busy: set<string>, group: seq<Slot>): (Tally, set<string>)
  {
    if group == [] then (w, busy)
    else
      var prev := AssignSlots(teachers, w, busy, group[..|group| - 1]);
      AssignSlot(teachers, prev.0, prev.1, group[|group| - 1])
  }

  /** `allSlots.filter(s => s.isAvailable && s.day === day && s.period === period)`. */
  function AvailableAt(slots: seq<Slot>, d: Day, p: nat): (r: seq<Slot>)
    ensures |r| <= |slots|
    ensures forall s :: s in r <==> s in slots && s.isAvailable && s.day == d && s.period == p
  {
    if slots == [] then []
    else
      var last := slots[|slots| - 1];
      AvailableAt(slots[..|slots| - 1], d, p) + (if last.isAvailable && last.day == d && last.period == p then [last] else [])
  }

  /** The filter keeps input order and multiplicity: filtering a
      concatenation concatenates the filtered parts. */
  lemma {:induction false} AvailableAtKeepsOrder(a: seq<Slot>, b: seq<Slot>, d: Day, p: nat)
    ensures AvailableAt(a + b, d, p) == AvailableAt(a, d, p) + AvailableAt(b, d, p)
  {
    if b == [] {
      assert a + b == a;
    } else {
      var init := b[..|b| - 1];
      assert (a + b)[..|a + b| - 1] == a + init;
      AvailableAtKeepsOrder(a, init, d, p);
    }
  }

  /** A slot list without repeated keys filters to a list without repeats. */
  lemma {:induction false} AvailableAtDistinct(slots: seq<Slot>, d: Day, p: nat)
    requires UniqueSlotKeys(slots)
    ensures Distinct(AvailableAt(slots, d, p))
  {
    if slots != [] {
      var init, last := slots[..|slots| - 1], slots[|slots| - 1];
      AvailableAtDistinct(init, d, p);
      if last.isAvailable && last.day == d && last.period == p {
        var a := AvailableAt(init, d, p);
        forall x | x in a ensures x !in [last] {
          var i :| 0 <= i < |init| && init[i] == x;
          assert slots[i] == x;
        }
        DistinctConcat(a, [last]);
      }
    }
  }

  /** One (day, period) of the week: a fresh busy set, then the slot loop. */
  function AssignTime(teachers: seq<Teacher>, slots: seq<Slot>, w: Tally, t: Time): Tally
  {
    AssignSlots(teachers, w, {}, AvailableAt(slots, t.0, t.1)).0
  }

  /** The (day, period) loops over the given times, in order. */
  function AssignTimes(teachers: seq<Teacher>, slots: seq<Slot>, w: Tally, ts: seq<Time>): Tally
  {
    if ts == [] then w
    else AssignTime(teachers, slots, AssignTimes(teachers, slots, w, ts[..|ts| - 1]), ts[|ts| - 1])
  }

  function Ids(teachers: seq<Teacher>): set<string>
  {
    set t | t in teachers :: t.id
  }

  /** `teachers.forEach(t => teacherWorkload[t.id] = 0)`: every teacher's
      workload starts at zero, and nobody else has one. */
  function ZeroWorkload(teachers: seq<Teacher>): (m: map<string, int>)
    ensures m.Keys == Ids(teachers)
    ensures forall id :: id in m ==> m[id] == 0
  {
    if teachers == [] then map[]
    else
      var init := teachers[..|teachers| - 1];
      assert teachers == init + [teachers[|teachers| - 1]];
      ZeroWorkload(init)[teachers[|teachers| - 1].id := 0]
  }

  function InitialTally(teachers: seq<Teacher>): Tally
  {
    Tally(map[], ZeroWorkload(teachers))
  }

  /** The fallback's result: the distribution after walking the whole week,
      day-major, as a function of the two input lists alone. */
  function Fallback(teachers: seq<Teacher>, slots: seq<Slot>): (r: map<string, string>)
    ensures KeysAvailable(slots, r)
    ensures EligibilityRespected(teachers, slots, r)
    ensures NoDoubleBooking(slots, r)
  {
    FallbackSound(teachers, slots);
    AssignTimes(teachers, slots, InitialTally(teachers), Week()).distribution
  }

  // ---------------------------------------------------------------------
  // The properties the fallback keeps
  // ---------------------------------------------------------------------

  /** The keys of the available slots, in slot order: the list the engine
      puts in front of the external optimizer. */
  function AvailableSlotKeys(slots: seq<Slot>): (r: seq<string>)
    ensures |r| <= |slots|
    ensures forall k :: k in r <==> exists s :: s in slots && s.isAvailable && SlotKey(s) == k
  {
    if slots == [] then []
    else
      var last := slots[|slots| - 1];
      AvailableSlotKeys(slots[..|slots| - 1]) + (if last.isAvailable then [SlotKey(last)] else [])
  }

  predicate UniqueIds(teachers: seq<Teacher>)
  {
    forall i, j :: 0 <= i < j < |teachers| ==> teachers[i].id != teachers[j].id
  }

  predicate UniqueSlotKeys(slots: seq<Slot>)
  {
    forall i, j :: 0 <= i < j < |slots| ==> SlotKey(slots[i]) != SlotKey(slots[j])
  }

  /** A weekly total below zero admits no assignment at all. */
  function Quota(t: Teacher): nat
  {
    if t.totalWeeklyHours < 0 then 0 else t.totalWeeklyHours
  }

  /** The keys a distribution maps to the given teacher id. */
  function AssignedTo(dist: map<string, string>, id: string): set<string>
  {
    set k | k in dist && dist[k] == id
  }

  predicate KeysAvailable(slots: seq<Slot>, dist: map<string, string>)
  {
    forall k :: k in dist ==> k in AvailableSlotKeys(slots)
  }

  predicate EligibilityRespected(teachers: seq<Teacher>, slots: seq<Slot>, dist: map<string, string>)
  {
    forall s :: s in slots && SlotKey(s) in dist ==>
      exists t :: t in teachers && t.id == dist[SlotKey(s)] && Eligible(t, s)
  }

  predicate QuotaRespected(teachers: seq<Teacher>, dist: map<string, string>)
  {
    forall t :: t in teachers ==> |AssignedTo(dist, t.id)| <= Quota(t)
  }

  /** Two different slot keys at the same (day, period) never hold the same
      teacher. */
  predicate NoDoubleBooking(slots: seq<Slot>, dist: map<string, string>)
  {
    forall s1, s2 ::
      (s1 in slots && s2 in slots && TimeOf(s1) == TimeOf(s2) && SlotKey(s1) != SlotKey(s2) &&
       SlotKey(s1) in dist && SlotKey(s2) in dist) ==> dist[SlotKey(s1)] != dist[SlotKey(s2)]
  }

  /** With unique slot keys, a key names a single slot of the list. */
  lemma SameKeySameSlot(slots: seq<Slot>, a: Slot, b: Slot)
    requires UniqueSlotKeys(slots) && a in slots && b in slots && SlotKey(a) == SlotKey(b)
    ensures a == b
  {
    var i :| 0 <= i < |slots| && slots[i] == a;
    var j :| 0 <= j < |slots| && slots[j] == b;
    assert !(i < j) && !(j < i);
  }

  /** What holds of the fallback's records between any two steps. */
  ghost predicate Sound(teachers: seq<Teacher>, slots: seq<Slot>, w: Tally)
  {
    && (forall t :: t in teachers ==> t.id in w.workload)
    && KeysAvailable(slots, w.distribution)
    && EligibilityRespected(teachers, slots, w.distribution)
    && (forall id :: id in w.workload ==> |AssignedTo(w.distribution, id)| <= w.workload[id])
    && (UniqueIds(teachers) ==> forall t :: t in teachers ==> w.workload[t.id] <= Quota(t))
    && NoDoubleBooking(slots, w.distribution)
  }

  /** Every recorded key belongs to a time already walked. */
  ghost predicate VisitedOnly(slots: seq<Slot>, w: Tally, done: set<Time>)
  {
    forall s :: s in slots && SlotKey(s) in w.distribution ==> TimeOf(s) in done
  }

  /** Every teacher recorded at the current time is in the busy set. */
  ghost predicate BusyCovers(slots: seq<Slot>, w: Tally, now: Time, busy: set<string>)
  {
    forall s :: s in slots && TimeOf(s) == now && SlotKey(s) in w.distribution ==>
      w.distribution[SlotKey(s)] in busy
  }

  lemma SubsetCard(a: set<string>, b: set<string>)
    requires a <= b
    ensures |a| <= |b|
  {
    assert b == a + (b - a);
    assert a * (b - a) == {};
  }

  /** Recording `k -> id` adds at most one key to `id` and none to anyone else. */
  lemma AssignedToAfterRecord(dist: map<string, string>, k: string, id: string, other: string)
    ensures |AssignedTo(dist[k := id], id)| <= |AssignedTo(dist, id)| + 1
    ensures other != id ==> |AssignedTo(dist[k := id], other)| <= |AssignedTo(dist, other)|
  {
    var a, b := AssignedTo(dist[k := id], id), AssignedTo(dist, id);
    assert a <= b + {k};
    SubsetCard(a, b + {k});
    if other != id {
      SubsetCard(AssignedTo(dist[k := id], other), AssignedTo(dist, other));
    }
  }

  lemma AssignSlotKeepsRecords(teachers: seq<Teacher>, slots: seq<Slot>, w: Tally, busy: set<string>, s: Slot, j: nat)
    requires Sound(teachers, slots, w)
    requires s in slots && s.isAvailable
    requires FindTeacher(teachers, s, w.workload, busy) == Some(j)
    ensures
      var w' := AssignSlot(teachers, w, busy, s).0;
      && (forall t :: t in teachers ==> t.id in w'.workload)
      && KeysAvailable(slots, w'.distribution)
      && EligibilityRespected(teachers, slots, w'.distribution)
  {
    var w' := AssignSlot(teachers, w, busy, s).0;
    var t0, k := teachers[j], SlotKey(s);
    assert w'.distribution == w.distribution[k := t0.id];
    assert k in AvailableSlotKeys(slots);
    forall s' | s' in slots && SlotKey(s') in w'.distribution
      ensures exists t :: t in teachers && t.id == w'.distribution[SlotKey(s')] && Eligible(t, s')
    {
      if SlotKey(s') == k {
        SlotKeyInjective(s', s);
        assert t0 in teachers && Eligible(t0, s');
      }
    }
  }

  lemma AssignSlotKeepsQuota(teachers: seq<Teacher>, slots: seq<Slot>, w: Tally, busy: set<string>, s: Slot, j: nat)
    requires Sound(teachers, slots, w)
    requires FindTeacher(teachers, s, w.workload, busy) == Some(j)
    ensures
      var w' := AssignSlot(teachers, w, busy, s).0;
      && (forall id :: id in w'.workload ==> |AssignedTo(w'.distribution, id)| <= w'.workload[id])
      && (UniqueIds(teachers) ==> forall t :: t in teachers ==> w'.workload[t.id] <= Quota(t))
  {
    var w' := AssignSlot(teachers, w, busy, s).0;
    var t0, k := teachers[j], SlotKey(s);
    forall id | id in w'.workload ensures |AssignedTo(w'.distribution, id)| <= w'.workload[id] {
      AssignedToAfterRecord(w.distribution, k, t0.id, id);
    }
    if UniqueIds(teachers) {
      forall t | t in teachers ensures w'.workload[t.id] <= Quota(t) {
        if t.id == t0.id {
          var i :| 0 <= i < |teachers| && teachers[i] == t;
          assert i == j;
        }
      }
    }
  }

  lemma AssignSlotKeepsSchedule(teachers: seq<Teacher>, slots: seq<Slot>, w: Tally, busy: set<string>, s: Slot, done: set<Time>)
    requires NoDoubleBooking(slots, w.distribution)
    requires VisitedOnly(slots, w, done) && TimeOf(s) in done
    requires BusyCovers(slots, w, TimeOf(s), busy)
    ensures
      var (w', busy') := AssignSlot(teachers, w, busy, s);
      && NoDoubleBooking(slots, w'.distribution)
      && VisitedOnly(slots, w', done)
      && BusyCovers(slots, w', TimeOf(s), busy')
  {
    var (w', busy') := AssignSlot(teachers, w, busy, s);
    var k := SlotKey(s);
    match FindTeacher(teachers, s, w.workload, busy)
    case None =>
    case Some(j) =>
      var id := teachers[j].id;
      assert w'.distribution == w.distribution[k := id] && busy' == busy + {id} && id !in busy;
      forall s1 | s1 in slots && SlotKey(s1) == k ensures TimeOf(s1) == TimeOf(s) {
        SlotKeyInjective(s1, s);
      }
  }

  lemma {:induction false} AssignSlotsKeep(teachers: seq<Teacher>, slots: seq<Slot>, w: Tally, busy: set<string>,
                                            group: seq<Slot>, now: Time, done: set<Time>)
    requires Sound(teachers, slots, w) && VisitedOnly(slots, w, done) && now in done
    requires BusyCovers(slots, w, now, busy)
    requires forall s :: s in group ==> s in slots && s.isAvailable && TimeOf(s) == now
    ensures
      var (w', busy') := AssignSlots(teachers, w, busy, group);
      Sound(teachers, slots, w') && VisitedOnly(slots, w', done) && BusyCovers(slots, w', now, busy')
  {
    if group != [] {
      var init, s := group[..|group| - 1], group[|group| - 1];
      assert forall x :: x in init ==> x in group;
      AssignSlotsKeep(teachers, slots, w, busy, init, now, done);
      var (w0, busy0) := AssignSlots(teachers, w, busy, init);
      match FindTeacher(teachers, s, w0.workload, busy0)
      case None =>
      case Some(j) =>
        AssignSlotKeepsRecords(teachers, slots, w0, busy0, s, j);
        AssignSlotKeepsQuota(teachers, slots, w0, busy0, s, j);
        AssignSlotKeepsSchedule(teachers, slots, w0, busy0, s, done);
    }
  }

  function TimeSet(ts: seq<Time>): set<Time>
  {
    set x | x in ts
  }

  lemma InitialTallySound(teachers: seq<Teacher>, slots: seq<Slot>)
    ensures Sound(teachers, slots, InitialTally(teachers))
    ensures VisitedOnly(slots, InitialTally(teachers), {})
  {
    var w := InitialTally(teachers);
    forall id | id in w.workload ensures |AssignedTo(w.distribution, id)| <= w.workload[id] {
      assert AssignedTo(w.distribution, id) == {};
    }
  }

  lemma {:induction false} AssignTimesKeep(teachers: seq<Teacher>, slots: seq<Slot>, ts: seq<Time>)
    requires Distinct(ts)
    ensures
      var w := AssignTimes(teachers, slots, InitialTally(teachers), ts);
      Sound(teachers, slots, w) && VisitedOnly(slots, w, TimeSet(ts))
  {
    if ts == [] {
      InitialTallySound(teachers, slots);
    } else {
      var init, now := ts[..|ts| - 1], ts[|ts| - 1];
      assert Distinct(init);
      AssignTimesKeep(teachers, slots, init);
      var w := AssignTimes(teachers, slots, InitialTally(teachers), init);
      assert now !in TimeSet(init);
      assert TimeSet(ts) == TimeSet(init) + {now};
      assert BusyCovers(slots, w, now, {});
      AssignSlotsKeep(teachers, slots, w, {}, AvailableAt(slots, now.0, now.1), now, TimeSet(ts));
    }
  }

  /** Everything `Sound` promises, of the fallback's final records. */
  lemma FallbackSound(teachers: seq<Teacher>, slots: seq<Slot>)
    ensures Sound(teachers, slots, AssignTimes(teachers, slots, InitialTally(teachers), Week()))
  {
    WeekEnumeratesTimes();
    AssignTimesKeep(teachers, slots, Week());
  }

  /** When no two slots share a key, an unavailable slot is never assigned. */
  lemma FallbackSkipsUnavailableSlots(teachers: seq<Teacher>, slots: seq<Slot>, i: nat)
    requires UniqueSlotKeys(slots) && i < |slots| && !slots[i].isAvailable
    ensures SlotKey(slots[i]) !in Fallback(teachers, slots)
  {
    FallbackSound(teachers, slots);
  }

  /** With distinct teacher ids, no teacher receives more keys than its
      weekly total. */
  lemma FallbackRespectsQuota(teachers: seq<Teacher>, slots: seq<Slot>)
    requires UniqueIds(teachers)
    ensures QuotaRespected(teachers, Fallback(teachers, slots))
  {
    FallbackSound(teachers, slots);
    var w := AssignTimes(teachers, slots, InitialTally(teachers), Week());
    forall t | t in teachers ensures |AssignedTo(w.distribution, t.id)| <= Quota(t) {
      assert t.id in w.workload;
    }
  }

  /** A teacher with no target grades never appears as a value. */
  lemma TeacherWithoutGradesIsNeverAssigned(teachers: seq<Teacher>, slots: seq<Slot>, i: nat)
    requires UniqueIds(teachers) && i < |teachers| && teachers[i].targetGrades == []
    ensures teachers[i].id !in Fallback(teachers, slots).Values
  {
    FallbackSound(teachers, slots);
  }

  /** When no teacher is eligible for any available slot, nothing is
      assigned: an unmatched slot is left out, never an error. */
  lemma NoEligibleTeacherMeansEmpty(teachers: seq<Teacher>, slots: seq<Slot>)
    requires forall t, s :: t in teachers && s in slots && s.isAvailable ==> !Eligible(t, s)
    ensures Fallback(teachers, slots) == map[]
  {
    FallbackSound(teachers, slots);
  }

  /** The effect of one slot, spelled out for the loop. */
  lemma SlotStep(teachers: seq<Teacher>, w: Tally, busy: set<string>, s: Slot, r: Option<nat>)
    requires r == FindTeacher(teachers, s, w.workload, busy)
    ensures r.None? ==> AssignSlot(teachers, w, busy, s) == (w, busy)
    ensures r.Some? ==>
      var id := teachers[r.value].id;
      AssignSlot(teachers, w, busy, s) ==
        (Tally(w.distribution[SlotKey(s) := id], w.workload[id := w.workload[id] + 1]), busy + {id})
  {
  }

  /** Walking one more slot of a group. */
  lemma NextSlot(teachers: seq<Teacher>, w: Tally, group: seq<Slot>, si: nat)
    requires si < |group|
    ensures AssignSlots(teachers, w, {}, group[..si + 1]) ==
            AssignSlot(teachers, AssignSlots(teachers, w, {}, group[..si]).0, AssignSlots(teachers, w, {}, group[..si]).1, group[si])
  {
    assert group[..si + 1][..si] == group[..si];
  }

  /** Walking one more period of a day walks one more time. */
  lemma NextPeriod(teachers: seq<Teacher>, slots: seq<Slot>, start: Tally, doneDays: seq<Time>, day: Day, pi: nat)
    requires pi < |PERIODS|
    ensures AssignTimes(teachers, slots, start, doneDays + PeriodsOf(day, PERIODS[..pi + 1])) ==
            AssignTime(teachers, slots, AssignTimes(teachers, slots, start, doneDays + PeriodsOf(day, PERIODS[..pi])),
                       (day, PERIODS[pi]))
  {
    var prefix := doneDays + PeriodsOf(day, PERIODS[..pi]);
    assert PERIODS[..pi + 1][..pi] == PERIODS[..pi];
    assert doneDays + PeriodsOf(day, PERIODS[..pi + 1]) == prefix + [(day, PERIODS[pi])];
    assert (prefix + [(day, PERIODS[pi])])[..|prefix|] == prefix;
  }

  /** Walking every period of one more day walks one more day. */
  lemma NextDay(di: nat)
    requires di < |DAYS|
    ensures DayMajor(DAYS[..di + 1]) == DayMajor(DAYS[..di]) + PeriodsOf(DAYS[di], PERIODS[..|PERIODS|])
  {
    assert PERIODS[..|PERIODS|] == PERIODS;
    assert DAYS[..di + 1][..di] == DAYS[..di];
  }

  // ---------------------------------------------------------------------
  // The engine as the source runs it
  // ---------------------------------------------------------------------

  /** The innermost loop of the fallback: the available slots of one
      (day, period) in order, each given to the first qualifying teacher,
      with a busy set that starts empty for this time. */
  method AssignAvailable(teachers: seq<Teacher>, here: seq<Slot>, distribution0: map<string, string>,
                         workload0: map<string, int>)
    returns (distribution: map<string, string>, teacherWorkload: map<string, int>)
    ensures Tally(distribution, teacherWorkload) == AssignSlots(teachers, Tally(distribution0, workload0), {}, here).0
  {
    ghost var before := Tally(distribution0, workload0);
    distribution, teacherWorkload := distribution0, workload0;
    var busyTeachersThisPeriod: set<string> := {};
    assert here[..0] == [];
    for si := 0 to |here|
      invariant (Tally(distribution, teacherWorkload), busyTeachersThisPeriod) == AssignSlots(teachers, before, {}, here[..si])
    {
      ghost var was, wasBusy := Tally(distribution, teacherWorkload), busyTeachersThisPeriod;
      var slot := here[si];
      var slotKey := SlotKey(slot);
      var possibleTeacher := FindTeacher(teachers, slot, teacherWorkload, busyTeachersThisPeriod);
      if possibleTeacher.Some? {
        var id := teachers[possibleTeacher.value].id;
        distribution := distribution[slotKey := id];
        teacherWorkload := teacherWorkload[id := teacherWorkload[id] + 1];
        busyTeachersThisPeriod := busyTeachersThisPeriod + {id};
        assert (Tally(distribution, teacherWorkload), busyTeachersThisPeriod) == AssignSlot(teachers, was, wasBusy, slot) by {
          SlotStep(teachers, was, wasBusy, slot, possibleTeacher);
        }
      } else {
        assert (was, wasBusy) == AssignSlot(teachers, was, wasBusy, slot) by {
          SlotStep(teachers, was, wasBusy, slot, possibleTeacher);
        }
      }
      assert AssignSlots(teachers, before, {}, here[..si + 1]) == AssignSlot(teachers, was, wasBusy, slot) by {
        NextSlot(teachers, before, here, si);
      }
    }
    assert here[..|here|] == here;
  }

  /** The fallback branch: nested loops over `DAYS`, `PERIODS` and the
      available slots of each (day, period), updating `distribution` and
      `teacherWorkload` in place. */
  method GreedyFallback(teachers: seq<Teacher>, allSlots: seq<Slot>) returns (distribution: map<string, string>)
    ensures distribution == Fallback(teachers, allSlots)
    ensures KeysAvailable(allSlots, distribution)
    ensures EligibilityRespected(teachers, allSlots, distribution)
    ensures UniqueIds(teachers) ==> QuotaRespected(teachers, distribution)
    ensures NoDoubleBooking(allSlots, distribution)
  {
    distribution := map[];
    var teacherWorkload: map<string, int> := map[];
    for i := 0 to |teachers|
      invariant teacherWorkload == ZeroWorkload(teachers[..i])
    {
      assert teachers[..i + 1][..i] == teachers[..i];
      teacherWorkload := teacherWorkload[teachers[i].id := 0];
    }
    assert teachers[..|teachers|] == teachers;
    ghost var start := Tally(distribution, teacherWorkload);
    assert start == InitialTally(teachers);

    for di := 0 to |DAYS|
      invariant Tally(distribution, teacherWorkload) == AssignTimes(teachers, allSlots, start, DayMajor(DAYS[..di]))
    {
      var day := DAYS[di];
      ghost var doneDays := DayMajor(DAYS[..di]);
      assert doneDays + PeriodsOf(day, PERIODS[..0]) == doneDays;
      for pi := 0 to |PERIODS|
        invariant Tally(distribution, teacherWorkload) ==
                  AssignTimes(teachers, allSlots, start, doneDays + PeriodsOf(day, PERIODS[..pi]))
      {
        var period := PERIODS[pi];
        var availableInThisTime := AvailableAt(allSlots, day, period);
        distribution, teacherWorkload := AssignAvailable(teachers, availableInThisTime, distribution, teacherWorkload);
        assert Tally(distribution, teacherWorkload) ==
               AssignTimes(teachers, allSlots, start, doneDays + PeriodsOf(day, PERIODS[..pi + 1])) by {
          NextPeriod(teachers, allSlots, start, doneDays, day, pi);
        }
      }
      assert Tally(distribution, teacherWorkload) == AssignTimes(teachers, allSlots, start, DayMajor(DAYS[..di + 1])) by {
        NextDay(di);
      }
    }
    assert DAYS[..|DAYS|] == DAYS;
    FallbackSound(teachers, allSlots);
  }

  /** `autoGenerateSchedule`: the optimizer's parsed reply when it gives one
      (claimed to satisfy nothing), the greedy fallback when it fails. */
  method AutoGenerateSchedule(teachers: seq<Teacher>, allSlots: seq<Slot>, reply: Option<map<string, string>>)
    returns (result: map<string, string>)
    ensures reply.Some? ==> result == reply.value
    ensures reply.None? ==> result == Fallback(teachers, allSlots)
    ensures reply.None? ==> KeysAvailable(allSlots, result) && NoDoubleBooking(allSlots, result)
  {
    match reply
    case Some(parsed) =>
      result := parsed;
    case None =>
      result := GreedyFallback(teachers, allSlots);
  }
}
