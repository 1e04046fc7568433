/**
  What slot generation stages for a (professional, service, day) request,
  as a function of the slot table, the hours table and the service
  catalogue, and the properties of that result.
 */
module Generation {
  import opened Records
  import opened Clock
  import opened SlotTable
  import opened HoursTable

  /** The instants of ts for which no slot of (p, s) is stored yet, in order. */
  function FreshTimes(slots: seq<Slot>, p: int, s: int, ts: seq<int>): seq<int>
  {
    if ts == [] then []
    else (if SlotExists(slots, p, s, ts[0]) then [] else [ts[0]]) + FreshTimes(slots, p, s, ts[1..])
  }

  /** An instant survives the filter iff it is among ts and no slot of (p, s) holds it. */
  lemma {:induction false} FreshTimesMembers(slots: seq<Slot>, p: int, s: int, ts: seq<int>)
    ensures forall t :: t in FreshTimes(slots, p, s, ts) <==> t in ts && !SlotExists(slots, p, s, t)
  {
    if ts != [] {
      FreshTimesMembers(slots, p, s, ts[1..]);
      assert forall t :: t in ts <==> t == ts[0] || t in ts[1..];
    }
  }

  /**
    The starts one hours row offers on the day: from its opening time, in
    steps of the service duration, while before its closing time. A row whose
    times cannot be read offers none (the source's dates become invalid and
    the loop test fails at once).
   */
  function RowCandidates(row: HoursRow, day: CalendarDay, duration: int): seq<int>
    requires duration > 0
  {
    match WindowOf(row, day)
    case None => []
    case Some(w) => Candidates(w.0, w.1, duration * MsPerMinute)
  }

  /**
    One cursor step, with the instants staged so far in front: the instant at
    the cursor is added iff it is new, then the cursor moves on.
   */
  lemma CursorStep(slots: seq<Slot>, p: int, s: int, time: int, end: int, step: int, staged: seq<int>)
    requires step > 0 && time < end
    ensures staged + FreshTimes(slots, p, s, Candidates(time, end, step)) ==
      (if SlotExists(slots, p, s, time) then staged else staged + [time]) +
      FreshTimes(slots, p, s, Candidates(time + step, end, step))
  {
    var rest := Candidates(time + step, end, step);
    assert Candidates(time, end, step) == [time] + rest;
    assert ([time] + rest)[1..] == rest;
    var later := FreshTimes(slots, p, s, rest);
    assert staged + ([time] + later) == (staged + [time]) + later;
    assert staged + ([] + later) == staged + later;
  }

  /** What one hours row stages: its candidates that no slot of (p, s) holds yet. */
  function RowStaged(slots: seq<Slot>, row: HoursRow, p: int, s: int, day: CalendarDay, duration: int): seq<int>
    requires duration > 0
  {
    FreshTimes(slots, p, s, RowCandidates(row, day, duration))
  }

  /** The rows' contributions one after another. Only the stored table is consulted. */
  function StagedForRows(slots: seq<Slot>, rows: seq<HoursRow>, p: int, s: int, day: CalendarDay, duration: int): seq<int>
    requires duration > 0
  {
    if rows == [] then []
    else StagedForRows(slots, rows[..|rows| - 1], p, s, day, duration) + RowStaged(slots, rows[|rows| - 1], p, s, day, duration)
  }

  /**
    generateSlotsFromBusinessHours: nothing on a day without an active row,
    nothing for an unknown service, otherwise every row's contribution.
   */
  function StagedTimes(slots: seq<Slot>, hours: seq<HoursRow>, services: map<int, Service>, p: int, s: int, day: CalendarDay): seq<int>
    requires ActiveRowsFor(hours, p, day.weekday) != [] && s in services ==> services[s].duration > 0
  {
    var rows := ActiveRowsFor(hours, p, day.weekday);
    if rows == [] then []
    else if s !in services then []
    else StagedForRows(slots, rows, p, s, day, services[s].duration)
  }

  /** The rows the bulk insert creates from the staged instants, ids from firstId upwards. */
  function NewSlots(staged: seq<int>, firstId: nat, p: int, s: int): (r: seq<Slot>)
    ensures |r| == |staged|
    ensures forall k :: 0 <= k < |r| ==> r[k] == Slot(firstId + k, p, s, staged[k], false)
  {
    seq(|staged|, k requires 0 <= k < |staged| => Slot(firstId + k, p, s, staged[k], false))
  }

  /** Staged instants are exactly the new ones among what some row offers (both directions). */
  lemma {:induction false} StagedForRowsMembers(slots: seq<Slot>, rows: seq<HoursRow>, p: int, s: int, day: CalendarDay, duration: int)
    requires duration > 0
    ensures forall t :: t in StagedForRows(slots, rows, p, s, day, duration) <==>
      (exists row :: row in rows && t in RowCandidates(row, day, duration)) && !SlotExists(slots, p, s, t)
    decreases |rows|
  {
    if rows != [] {
      var front, last := rows[..|rows| - 1], rows[|rows| - 1];
      assert rows == front + [last];
      StagedForRowsMembers(slots, front, p, s, day, duration);
      FreshTimesMembers(slots, p, s, RowCandidates(last, day, duration));
    }
  }

  /** t is offered by some active row of p on the day, for a service of this duration. */
  predicate Offered(hours: seq<HoursRow>, p: int, day: CalendarDay, duration: int, t: int)
    requires duration > 0
  {
    exists row :: row in ActiveRowsFor(hours, p, day.weekday) && t in RowCandidates(row, day, duration)
  }

  /**
    An instant is staged iff the service exists, some active row of the day
    offers the instant, and no slot of (p, s) holds it yet.
   */
  lemma StagedTimesMembers(slots: seq<Slot>, hours: seq<HoursRow>, services: map<int, Service>, p: int, s: int, day: CalendarDay, t: int)
    requires ActiveRowsFor(hours, p, day.weekday) != [] && s in services ==> services[s].duration > 0
    ensures t in StagedTimes(slots, hours, services, p, s, day) <==>
      s in services && ActiveRowsFor(hours, p, day.weekday) != [] &&
      Offered(hours, p, day, services[s].duration, t) && !SlotExists(slots, p, s, t)
  {
    var rows := ActiveRowsFor(hours, p, day.weekday);
    if s in services && rows != [] {
      StagedForRowsMembers(slots, rows, p, s, day, services[s].duration);
    }
  }

  /** A day without an active row for p generates nothing. */
  lemma ClosedDayGeneratesNothing(slots: seq<Slot>, hours: seq<HoursRow>, services: map<int, Service>, p: int, s: int, day: CalendarDay)
    requires ActiveRowsFor(hours, p, day.weekday) == []
    ensures StagedTimes(slots, hours, services, p, s, day) == []
  {
  }

  /** An unknown service generates nothing. */
  lemma UnknownServiceGeneratesNothing(slots: seq<Slot>, hours: seq<HoursRow>, services: map<int, Service>, p: int, s: int, day: CalendarDay)
    requires s !in services
    ensures StagedTimes(slots, hours, services, p, s, day) == []
  {
  }

  /** Generation never stages an instant that a slot of (p, s) already holds. */
  lemma StagedAreNew(slots: seq<Slot>, hours: seq<HoursRow>, services: map<int, Service>, p: int, s: int, day: CalendarDay)
    requires ActiveRowsFor(hours, p, day.weekday) != [] && s in services ==> services[s].duration > 0
    ensures forall t :: t in StagedTimes(slots, hours, services, p, s, day) ==> !SlotExists(slots, p, s, t)
  {
    forall t | t in StagedTimes(slots, hours, services, p, s, day) ensures !SlotExists(slots, p, s, t) {
      StagedTimesMembers(slots, hours, services, p, s, day, t);
    }
  }

  /**
    Every staged instant lies on the grid of an active row: exactly k service
    durations after the row's opening time, and before its closing time.
   */
  lemma StagedOnGrid(slots: seq<Slot>, hours: seq<HoursRow>, services: map<int, Service>, p: int, s: int, day: CalendarDay, t: int)
    returns (row: HoursRow, k: nat)
    requires ActiveRowsFor(hours, p, day.weekday) != [] && s in services ==> services[s].duration > 0
    requires t in StagedTimes(slots, hours, services, p, s, day)
    ensures s in services
    ensures row in ActiveRowsFor(hours, p, day.weekday) && WindowOf(row, day).Some?
    ensures var w := WindowOf(row, day).value;
      t == w.0 + k * (services[s].duration * MsPerMinute) && w.0 <= t < w.1
  {
    StagedTimesMembers(slots, hours, services, p, s, day, t);
    var d := services[s].duration;
    row :| row in ActiveRowsFor(hours, p, day.weekday) && t in RowCandidates(row, day, d);
    var w := WindowOf(row, day).value;
    var cs := Candidates(w.0, w.1, d * MsPerMinute);
    k :| 0 <= k < |cs| && cs[k] == t;
    CandidateAt(w.0, w.1, d * MsPerMinute, k);
    CandidatesInWindow(w.0, w.1, d * MsPerMinute);
  }

  lemma {:induction false} AllStoredStagesNothing(slots: seq<Slot>, p: int, s: int, ts: seq<int>)
    requires forall t :: t in ts ==> SlotExists(slots, p, s, t)
    ensures FreshTimes(slots, p, s, ts) == []
  {
    if ts != [] {
      AllStoredStagesNothing(slots, p, s, ts[1..]);
    }
  }

  lemma {:induction false} NoneStoredStagesAll(slots: seq<Slot>, p: int, s: int, ts: seq<int>)
    requires forall t :: t in ts ==> !SlotExists(slots, p, s, t)
    ensures FreshTimes(slots, p, s, ts) == ts
  {
    if ts != [] {
      NoneStoredStagesAll(slots, p, s, ts[1..]);
    }
  }

  /** After the staged slots are inserted, every instant the day's rows offer is stored. */
  lemma OfferedAreStoredAfterInsert(slots: seq<Slot>, hours: seq<HoursRow>, services: map<int, Service>, p: int, s: int, day: CalendarDay, firstId: nat, t: int)
    requires s in services && services[s].duration > 0
    requires Offered(hours, p, day, services[s].duration, t)
    ensures SlotExists(slots + NewSlots(StagedTimes(slots, hours, services, p, s, day), firstId, p, s), p, s, t)
  {
    var staged := StagedTimes(slots, hours, services, p, s, day);
    var added := NewSlots(staged, firstId, p, s);
    var after := slots + added;
    if SlotExists(slots, p, s, t) {
      var j :| 0 <= j < |slots| && slots[j].professionalId == p && slots[j].serviceId == s && slots[j].slotDate == t;
      assert after[j] == slots[j];
    } else {
      StagedTimesMembers(slots, hours, services, p, s, day, t);
      var k :| 0 <= k < |staged| && staged[k] == t;
      assert after[|slots| + k] == added[k];
    }
  }

  /**
    Idempotence: once the staged slots are inserted, generating again for the
    same professional, service and day stages nothing.
   */
  lemma GenerationIdempotent(slots: seq<Slot>, hours: seq<HoursRow>, services: map<int, Service>, p: int, s: int, day: CalendarDay, firstId: nat)
    requires ActiveRowsFor(hours, p, day.weekday) != [] && s in services ==> services[s].duration > 0
    ensures var staged := StagedTimes(slots, hours, services, p, s, day);
      StagedTimes(slots + NewSlots(staged, firstId, p, s), hours, services, p, s, day) == []
  {
    var staged := StagedTimes(slots, hours, services, p, s, day);
    var after := slots + NewSlots(staged, firstId, p, s);
    var again := StagedTimes(after, hours, services, p, s, day);
    if again != [] {
      var t := again[0];
      assert t in again;
      StagedTimesMembers(after, hours, services, p, s, day, t);
      OfferedAreStoredAfterInsert(slots, hours, services, p, s, day, firstId, t);
      assert false;
    }
  }

  /**
    With one readable active row and no slot of (p, s) stored, generation
    stages exactly the row's candidates: the opening time and every further
    service duration before closing.
   */
  lemma FreshStoreStagesWholeWindow(slots: seq<Slot>, hours: seq<HoursRow>, services: map<int, Service>, p: int, s: int, day: CalendarDay)
    requires s in services && services[s].duration > 0
    requires |ActiveRowsFor(hours, p, day.weekday)| == 1
    requires forall x :: x in slots ==> x.professionalId != p || x.serviceId != s
    ensures StagedTimes(slots, hours, services, p, s, day) == RowCandidates(ActiveRowsFor(hours, p, day.weekday)[0], day, services[s].duration)
  {
    var rows := ActiveRowsFor(hours, p, day.weekday);
    var d := services[s].duration;
    var cs := RowCandidates(rows[0], day, d);
    NoneStoredStagesAll(slots, p, s, cs);
    assert rows[..|rows| - 1] == [];
    assert StagedForRows(slots, rows, p, s, day, d) == RowStaged(slots, rows[0], p, s, day, d);
  }

  lemma TwoCandidates(start: int, end: int, step: int)
    requires step > 0 && start + step < end <= start + 2 * step
    ensures Candidates(start, end, step) == [start, start + step]
  {
    assert Candidates(start + 2 * step, end, step) == [];
  }

  /** A readable row whose window on a midnight-0 day is one hour from a minutes: two half-hour starts. */
  lemma HalfHourPair(row: HoursRow, a: int)
    requires ParseClock(row.startTime) == Some(a) && ParseClock(row.endTime) == Some(a + 60)
    ensures RowCandidates(row, CalendarDay(0, 1), 30) == [a * MsPerMinute, (a + 30) * MsPerMinute]
  {
    assert WindowOf(row, CalendarDay(0, 1)) == Some((a * MsPerMinute, a * MsPerMinute + 60 * MsPerMinute));
    TwoCandidates(a * MsPerMinute, a * MsPerMinute + 60 * MsPerMinute, 30 * MsPerMinute);
  }

  lemma ActivePair(r1: HoursRow, r2: HoursRow, p: int, weekday: int)
    requires r1.professionalId == p && r1.dayOfWeek == weekday && r1.isActive
    requires r2.professionalId == p && r2.dayOfWeek == weekday && r2.isActive
    ensures ActiveRowsFor([r1, r2], p, weekday) == [r1, r2]
  {
    assert [r1, r2][1..] == [r2];
    assert ActiveRowsFor([r2], p, weekday) == [r2];
  }

  lemma TwoRowsStaged(slots: seq<Slot>, r1: HoursRow, r2: HoursRow, p: int, s: int, day: CalendarDay, duration: int)
    requires duration > 0
    ensures StagedForRows(slots, [r1, r2], p, s, day, duration)
      == RowStaged(slots, r1, p, s, day, duration) + RowStaged(slots, r2, p, s, day, duration)
  {
    assert [r1, r2][..1] == [r1];
    assert [r1][..0] == [];
    var a := RowStaged(slots, r1, p, s, day, duration);
    assert StagedForRows(slots, [r1], p, s, day, duration) == [] + a;
    assert [] + a == a;
  }

  /**
    Staged instants are checked against the stored table only, not against
    each other: two overlapping active rows of the same weekday, 09:00-10:00
    and 09:30-10:30, with a 30-minute service and an empty store, stage 09:30
    twice. (FormatClock(9, 0) and the like are such rows' times, by
    Clock.ParseFormatRoundTrip.)
   */
  lemma OverlappingRowsStageTwice(p: int, s: int, r1: HoursRow, r2: HoursRow)
    requires r1.professionalId == p && r1.dayOfWeek == 1 && r1.isActive
    requires r2.professionalId == p && r2.dayOfWeek == 1 && r2.isActive
    requires ParseClock(r1.startTime) == Some(540) && ParseClock(r1.endTime) == Some(600)
    requires ParseClock(r2.startTime) == Some(570) && ParseClock(r2.endTime) == Some(630)
    ensures StagedTimes([], [r1, r2], map[s := Service(30)], p, s, CalendarDay(0, 1))
      == [540 * MsPerMinute, 570 * MsPerMinute, 570 * MsPerMinute, 600 * MsPerMinute]
  {
    var day := CalendarDay(0, 1);
    var hours := [r1, r2];
    var c1 := [540 * MsPerMinute, 570 * MsPerMinute];
    var c2 := [570 * MsPerMinute, 600 * MsPerMinute];
    HalfHourPair(r1, 540);
    HalfHourPair(r2, 570);
    NoneStoredStagesAll([], p, s, c1);
    NoneStoredStagesAll([], p, s, c2);
    ActivePair(r1, r2, p, 1);
    TwoRowsStaged([], r1, r2, p, s, day, 30);
    assert StagedTimes([], hours, map[s := Service(30)], p, s, day) == StagedForRows([], hours, p, s, day, 30);
  }
}
