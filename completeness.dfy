/** The greedy fallback leaves an available slot empty only when it has
    to: every teacher eligible for that slot has either received its weekly
    total or already holds a slot of the same (day, period). */
module FallbackCompleteness {
  import opened Types
  import opened Keys
  import opened Engine

  /** Teacher `id` holds some slot of the given time. */
  predicate BookedAt(slots: seq<Slot>, dist: map<string, string>, id: string, time: Time)
  {
    exists s' :: s' in slots && TimeOf(s') == time && SlotKey(s') in dist && dist[SlotKey(s')] == id
  }

  /** Teacher `t` has received its weekly total. */
  predicate Saturated(dist: map<string, string>, t: Teacher)
  {
    |AssignedTo(dist, t.id)| >= t.totalWeeklyHours
  }

  /** A slot already walked: one of an earlier time, or one of the current
      time's group that the slot loop has passed. */
  predicate Walked(s: Slot, prior: set<Time>, g: seq<Slot>)
  {
    TimeOf(s) in prior || s in g
  }

  /** Only walked slots have keys in the distribution. */
  ghost predicate Fresh(slots: seq<Slot>, dist: map<string, string>, prior: set<Time>, g: seq<Slot>)
  {
    forall s :: s in slots && SlotKey(s) in dist ==> Walked(s, prior, g)
  }

  /** Each workload counts exactly the keys held under that id. */
  ghost predicate Counted(w: Tally)
  {
    forall id :: id in w.workload ==> |AssignedTo(w.distribution, id)| == w.workload[id]
  }

  /** A teacher is busy only because it holds a slot of the current time. */
  ghost predicate BusyBooked(slots: seq<Slot>, dist: map<string, string>, now: Time, busy: set<string>)
  {
    forall id :: id in busy ==> BookedAt(slots, dist, id, now)
  }

  ghost predicate Tracked(teachers: seq<Teacher>, w: Tally)
  {
    forall t :: t in teachers ==> t.id in w.workload
  }

  /** Every walked, available, unassigned slot was left empty for a reason. */
  ghost predicate Maximal(teachers: seq<Teacher>, slots: seq<Slot>, dist: map<string, string>, prior: set<Time>, g: seq<Slot>)
  {
    forall s, t ::
      (s in slots && s.isAvailable && Walked(s, prior, g) && SlotKey(s) !in dist && t in teachers && Eligible(t, s)) ==>
      Saturated(dist, t) || BookedAt(slots, dist, t.id, TimeOf(s))
  }

  /** What holds inside the slot loop of time `now`, after the prefix `g`. */
  ghost predicate Complete(teachers: seq<Teacher>, slots: seq<Slot>, w: Tally, busy: set<string>,
                           prior: set<Time>, now: Time, g: seq<Slot>)
  {
    && Fresh(slots, w.distribution, prior, g)
    && Counted(w)
    && BusyBooked(slots, w.distribution, now, busy)
    && Tracked(teachers, w)
    && Maximal(teachers, slots, w.distribution, prior, g)
  }

  /** What holds between two times, once the times in `prior` are walked. */
  ghost predicate Settled(teachers: seq<Teacher>, slots: seq<Slot>, w: Tally, prior: set<Time>)
  {
    && Fresh(slots, w.distribution, prior, [])
    && Counted(w)
    && Tracked(teachers, w)
    && Maximal(teachers, slots, w.distribution, prior, [])
  }

  /** Recording a fresh key adds it to one teacher's keys and to no one
      else's. */
  lemma RecordCounts(dist: map<string, string>, k: string, id: string)
    requires k !in dist
    ensures AssignedTo(dist[k := id], id) == AssignedTo(dist, id) + {k}
    ensures |AssignedTo(dist[k := id], id)| == |AssignedTo(dist, id)| + 1
    ensures forall o :: o != id ==> AssignedTo(dist[k := id], o) == AssignedTo(dist, o)
  {
    assert k !in AssignedTo(dist, id);
  }

  /** Recording a fresh key keeps every booking. */
  lemma RecordKeepsBooking(slots: seq<Slot>, dist: map<string, string>, k: string, id: string, x: string, time: Time)
    requires k !in dist && BookedAt(slots, dist, x, time)
    ensures BookedAt(slots, dist[k := id], x, time)
  {
    var s' :| s' in slots && TimeOf(s') == time && SlotKey(s') in dist && dist[SlotKey(s')] == x;
    assert SlotKey(s') != k;
  }

  /** Recording a fresh key for the slot just walked leaves every other
      walked empty slot explained: bookings and saturation only grow. */
  lemma RecordKeepsMaximal(teachers: seq<Teacher>, slots: seq<Slot>, dist: map<string, string>,
                           prior: set<Time>, g: seq<Slot>, x: Slot, id: string)
    requires SlotKey(x) !in dist
    requires Maximal(teachers, slots, dist, prior, g)
    ensures Maximal(teachers, slots, dist[SlotKey(x) := id], prior, g + [x])
  {
    var k, dist' := SlotKey(x), dist[SlotKey(x) := id];
    forall s, t | s in slots && s.isAvailable && Walked(s, prior, g + [x]) && SlotKey(s) !in dist' && t in teachers && Eligible(t, s)
      ensures Saturated(dist', t) || BookedAt(slots, dist', t.id, TimeOf(s))
    {
      assert Walked(s, prior, g);
      if BookedAt(slots, dist, t.id, TimeOf(s)) {
        RecordKeepsBooking(slots, dist, k, id, t.id, TimeOf(s));
      } else {
        SubsetCard(AssignedTo(dist, t.id), AssignedTo(dist', t.id));
      }
    }
  }

  /** A matched slot: its key is new, its teacher's count rises by one,
      and everything walked before stays explained. */
  lemma RecordKeepsComplete(teachers: seq<Teacher>, slots: seq<Slot>, w: Tally, busy: set<string>,
                            prior: set<Time>, now: Time, g: seq<Slot>, x: Slot, j: nat)
    requires UniqueSlotKeys(slots) && now !in prior
    requires Complete(teachers, slots, w, busy, prior, now, g)
    requires x in slots && x.isAvailable && TimeOf(x) == now && x !in g
    requires FindTeacher(teachers, x, w.workload, busy) == Some(j)
    ensures Complete(teachers, slots, AssignSlot(teachers, w, busy, x).0, AssignSlot(teachers, w, busy, x).1, prior, now, g + [x])
  {
    var k, id := SlotKey(x), teachers[j].id;
    var dist := w.distribution;
    var dist' := dist[k := id];
    var w' := Tally(dist', w.workload[id := w.workload[id] + 1]);
    var busy' := busy + {id};
    assert AssignSlot(teachers, w, busy, x) == (w', busy');
    assert k !in dist by {
      assert !Walked(x, prior, g);
    }
    RecordCounts(dist, k, id);
    assert Fresh(slots, dist', prior, g + [x]) by {
      forall s | s in slots && SlotKey(s) in dist' ensures Walked(s, prior, g + [x]) {
        if SlotKey(s) == k {
          SameKeySameSlot(slots, s, x);
        }
      }
    }
    assert BusyBooked(slots, dist', now, busy') by {
      forall b | b in busy' ensures BookedAt(slots, dist', b, now) {
        if b in busy {
          RecordKeepsBooking(slots, dist, k, id, b, now);
        } else {
          assert x in slots && TimeOf(x) == now && SlotKey(x) in dist' && dist'[SlotKey(x)] == b;
        }
      }
    }
    RecordKeepsMaximal(teachers, slots, dist, prior, g, x, id);
  }

  /** An unmatched slot: nothing changes, and the slot is explained by the
      reason the search passed over each eligible teacher. */
  lemma PassKeepsComplete(teachers: seq<Teacher>, slots: seq<Slot>, w: Tally, busy: set<string>,
                          prior: set<Time>, now: Time, g: seq<Slot>, x: Slot)
    requires Complete(teachers, slots, w, busy, prior, now, g)
    requires x in slots && TimeOf(x) == now
    requires FindTeacher(teachers, x, w.workload, busy).None?
    ensures Complete(teachers, slots, w, busy, prior, now, g + [x])
  {
    forall s, t | s in slots && s.isAvailable && Walked(s, prior, g + [x]) && SlotKey(s) !in w.distribution &&
                  t in teachers && Eligible(t, s)
      ensures Saturated(w.distribution, t) || BookedAt(slots, w.distribution, t.id, TimeOf(s))
    {
      if !Walked(s, prior, g) {
        assert s == x;
        var i :| 0 <= i < |teachers| && teachers[i] == t;
        assert !Qualifies(t, x, w.workload, busy);
      }
    }
  }

  /** The slot loop over a group of distinct available slots of `now`. */
  lemma {:induction false} GroupKeepsComplete(teachers: seq<Teacher>, slots: seq<Slot>, w: Tally,
                                               prior: set<Time>, now: Time, g: seq<Slot>)
    requires UniqueSlotKeys(slots) && now !in prior
    requires Distinct(g) && forall x :: x in g ==> x in slots && x.isAvailable && TimeOf(x) == now
    requires Complete(teachers, slots, w, {}, prior, now, [])
    ensures Complete(teachers, slots, AssignSlots(teachers, w, {}, g).0, AssignSlots(teachers, w, {}, g).1, prior, now, g)
  {
    if g != [] {
      var init, x := g[..|g| - 1], g[|g| - 1];
      assert Distinct(init);
      assert forall y :: y in init ==> y in g;
      GroupKeepsComplete(teachers, slots, w, prior, now, init);
      var prev := AssignSlots(teachers, w, {}, init);
      assert x !in init;
      assert g == init + [x];
      match FindTeacher(teachers, x, prev.0.workload, prev.1)
      case None =>
        PassKeepsComplete(teachers, slots, prev.0, prev.1, prior, now, init, x);
      case Some(j) =>
        RecordKeepsComplete(teachers, slots, prev.0, prev.1, prior, now, init, x, j);
    }
  }

  lemma InitialTallySettled(teachers: seq<Teacher>, slots: seq<Slot>)
    ensures Settled(teachers, slots, InitialTally(teachers), {})
  {
    var w := InitialTally(teachers);
    forall id | id in w.workload ensures |AssignedTo(w.distribution, id)| == w.workload[id] {
      assert AssignedTo(w.distribution, id) == {};
    }
    forall t | t in teachers ensures t.id in w.workload {
      assert t.id in Ids(teachers);
    }
  }

  /** One more time of the walk: its whole group of available slots. */
  lemma TimeKeepsSettled(teachers: seq<Teacher>, slots: seq<Slot>, w: Tally, prior: set<Time>, now: Time)
    requires UniqueSlotKeys(slots) && now !in prior
    requires Settled(teachers, slots, w, prior)
    ensures Settled(teachers, slots, AssignTime(teachers, slots, w, now), prior + {now})
  {
    var group := AvailableAt(slots, now.0, now.1);
    AvailableAtDistinct(slots, now.0, now.1);
    GroupKeepsComplete(teachers, slots, w, prior, now, group);
    var w' := AssignSlots(teachers, w, {}, group).0;
    forall s | s in slots && SlotKey(s) in w'.distribution ensures Walked(s, prior + {now}, []) {
      assert Walked(s, prior, group);
    }
    forall s, t | s in slots && s.isAvailable && Walked(s, prior + {now}, []) && SlotKey(s) !in w'.distribution &&
                  t in teachers && Eligible(t, s)
      ensures Saturated(w'.distribution, t) || BookedAt(slots, w'.distribution, t.id, TimeOf(s))
    {
      assert Walked(s, prior, group);
    }
  }

  lemma {:induction false} TimesKeepSettled(teachers: seq<Teacher>, slots: seq<Slot>, ts: seq<Time>)
    requires UniqueSlotKeys(slots) && Distinct(ts)
    ensures Settled(teachers, slots, AssignTimes(teachers, slots, InitialTally(teachers), ts), TimeSet(ts))
  {
    if ts == [] {
      InitialTallySettled(teachers, slots);
    } else {
      var init, now := ts[..|ts| - 1], ts[|ts| - 1];
      assert Distinct(init);
      TimesKeepSettled(teachers, slots, init);
      assert now !in TimeSet(init);
      assert TimeSet(ts) == TimeSet(init) + {now};
      TimeKeepsSettled(teachers, slots, AssignTimes(teachers, slots, InitialTally(teachers), init), TimeSet(init), now);
    }
  }

  /** The fallback is maximal: an available slot of the week left
      unassigned has, for each teacher eligible for it, either that
      teacher's full weekly total assigned or that teacher busy in another
      slot of the same (day, period). */
  lemma FallbackIsMaximal(teachers: seq<Teacher>, slots: seq<Slot>, s: Slot, t: Teacher)
    requires UniqueSlotKeys(slots)
    requires s in slots && s.isAvailable && s.period in PERIODS && SlotKey(s) !in Fallback(teachers, slots)
    requires t in teachers && Eligible(t, s)
    ensures |AssignedTo(Fallback(teachers, slots), t.id)| >= t.totalWeeklyHours ||
            exists s' :: s' in slots && TimeOf(s') == TimeOf(s) && SlotKey(s') in Fallback(teachers, slots) &&
                         Fallback(teachers, slots)[SlotKey(s')] == t.id
  {
    WeekEnumeratesTimes();
    DaysEnumerateDay();
    TimesKeepSettled(teachers, slots, Week());
    assert TimeOf(s) in TimeSet(Week());
  }
}
