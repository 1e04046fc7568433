/**
  The database as an in-memory store: the slot, hours and booking tables
  are sequences the store's methods replace, and each table hands out ids
  from its own counter. Every method is stated against the table functions
  of its module.
 */
module Storage {
  import opened Records
  import opened Clock
  import opened SlotTable
  import opened HoursTable
  import opened BookingTable
  import opened Generation

  class Store {
    var slots: seq<Slot>
    var hours: seq<HoursRow>
    var bookings: seq<Booking>
    var nextSlotId: nat
    var nextHoursId: nat
    var nextBookingId: nat
    /** The service catalogue, which nothing in this model changes. */
    const services: map<int, Service>

    ghost predicate SlotsValid()
      reads this`slots, this`nextSlotId
    {
      SlotIdsOrdered(slots, nextSlotId)
    }

    ghost predicate HoursValid()
      reads this`hours, this`nextHoursId
    {
      HoursIdsOrdered(hours, nextHoursId)
    }

    ghost predicate BookingsValid()
      reads this`bookings, this`nextBookingId
    {
      BookingIdsOrdered(bookings, nextBookingId)
    }

    /** Ids grow along each table and stay below that table's counter. */
    ghost predicate Valid()
      reads this
    {
      SlotsValid() && HoursValid() && BookingsValid()
    }

    /** Empty tables; identity columns start at 1. */
    constructor(catalogue: map<int, Service>)
      ensures Valid()
      ensures slots == [] && hours == [] && bookings == []
      ensures nextSlotId == 1 && nextHoursId == 1 && nextBookingId == 1
      ensures services == catalogue
    {
      slots, hours, bookings := [], [], [];
      nextSlotId, nextHoursId, nextBookingId := 1, 1, 1;
      services := catalogue;
    }

    /**
      The inner loop of generateSlotsFromBusinessHours for one hours row: a
      cursor runs from the opening time in steps of the service duration
      while before the closing time, and each instant no stored slot of
      (p, s) holds is staged. Only the stored table is queried.
     */
    method StageRow(row: HoursRow, p: int, s: int, day: CalendarDay, duration: int, staged: seq<int>)
      returns (staged': seq<int>)
      requires duration > 0
      ensures staged' == staged + RowStaged(slots, row, p, s, day, duration)
    {
      staged' := staged;
      var window := WindowOf(row, day);
      if window.Some? {
        var step := duration * MsPerMinute;
        var time, end := window.value.0, window.value.1;
        ghost var target := staged + FreshTimes(slots, p, s, Candidates(time, end, step));
        while time < end
          invariant step > 0
          invariant staged' + FreshTimes(slots, p, s, Candidates(time, end, step)) == target
          decreases end - time
        {
          var taken := SlotExists(slots, p, s, time);
          CursorStep(slots, p, s, time, end, step, staged');
          ghost var later := FreshTimes(slots, p, s, Candidates(time + step, end, step));
          if !taken {
            staged' := staged' + [time];
          }
          assert staged' + later == target;
          time := time + step;
        }
      }
    }

    /**
      The outer loop of generateSlotsFromBusinessHours: every row's
      contribution, one row after another.
     */
    method StageRows(rows: seq<HoursRow>, p: int, s: int, day: CalendarDay, duration: int) returns (staged: seq<int>)
      requires duration > 0
      ensures staged == StagedForRows(slots, rows, p, s, day, duration)
    {
      staged := [];
      var i := 0;
      while i < |rows|
        invariant 0 <= i <= |rows|
        invariant staged == StagedForRows(slots, rows[..i], p, s, day, duration)
      {
        assert rows[..i + 1][..i] == rows[..i];
        staged := StageRow(rows[i], p, s, day, duration, staged);
        i := i + 1;
      }
      assert rows[..|rows|] == rows;
    }

    /**
      The staging part of generateSlotsFromBusinessHours: nothing without an
      active row for the weekday or for an unknown service; otherwise what
      the rows offer that the stored table lacks.
     */
    method StageDay(p: int, s: int, day: CalendarDay) returns (staged: seq<int>)
      requires ActiveRowsFor(hours, p, day.weekday) != [] && s in services ==> services[s].duration > 0
      ensures staged == StagedTimes(slots, hours, services, p, s, day)
    {
      var rows := ActiveRowsFor(hours, p, day.weekday);
      if rows == [] {
        return [];
      }
      if s !in services {
        return [];
      }
      staged := StageRows(rows, p, s, day, services[s].duration);
    }

    /**
      generateSlotsFromBusinessHours: stage the day's new instants, insert
      them as unbooked slots and return the inserted rows.
     */
    method GenerateSlotsFromBusinessHours(p: int, s: int, day: CalendarDay) returns (created: seq<Slot>)
      requires Valid()
      requires ActiveRowsFor(hours, p, day.weekday) != [] && s in services ==> services[s].duration > 0
      modifies this`slots, this`nextSlotId
      ensures Valid()
      ensures created == NewSlots(StagedTimes(old(slots), hours, services, p, s, day), old(nextSlotId), p, s)
      ensures slots == old(slots) + created
      ensures nextSlotId == old(nextSlotId) + |created|
    {
      var staged := StageDay(p, s, day);
      created := NewSlots(staged, nextSlotId, p, s);
      if |staged| > 0 {
        AppendKeepsOrder(slots, created, nextSlotId, nextSlotId + |created|);
        slots := slots + created;
        nextSlotId := nextSlotId + |created|;
      }
    }

    /** createAvailableSlot: one row appended with the next id. */
    method CreateAvailableSlot(p: int, s: int, slotDate: int, isBooked: bool) returns (slot: Slot)
      requires Valid()
      modifies this`slots, this`nextSlotId
      ensures Valid()
      ensures slot == Slot(old(nextSlotId), p, s, slotDate, isBooked)
      ensures slots == old(slots) + [slot] && nextSlotId == old(nextSlotId) + 1
    {
      slot := Slot(nextSlotId, p, s, slotDate, isBooked);
      AppendKeepsOrder(slots, [slot], nextSlotId, nextSlotId + 1);
      slots := slots + [slot];
      nextSlotId := nextSlotId + 1;
    }

    /** deleteAvailableSlot: the row with this id goes, nothing else changes. */
    method DeleteAvailableSlot(id: nat)
      requires Valid()
      modifies this`slots
      ensures Valid()
      ensures slots == WithoutSlot(old(slots), id)
    {
      slots := WithoutSlot(slots, id);
    }

    /** bookSlot: the row with this id is marked booked, nothing else changes. */
    method BookSlot(id: nat)
      requires Valid()
      modifies this`slots
      ensures Valid()
      ensures slots == MarkBooked(old(slots), id)
    {
      slots := MarkBooked(slots, id);
    }

    /**
      createOrUpdateBusinessHours: delete p's rows, then insert the submitted
      list for p. The insert fails when a time does not fit its column, and
      the delete stays in effect; saved says whether the insert went through.
     */
    method CreateOrUpdateBusinessHours(p: int, input: seq<HoursInput>) returns (saved: bool)
      requires Valid()
      modifies this`hours, this`nextHoursId
      ensures Valid()
      ensures saved <==> StoredEntries(input).Some?
      ensures hours == SavedHours(old(hours), p, input, old(nextHoursId))
      ensures nextHoursId == old(nextHoursId) + if saved then |input| else 0
    {
      ghost var before := hours;
      hours := RowsNotOf(hours, p);
      var stored := StoredEntries(input);
      if stored.None? {
        assert hours == SavedHours(before, p, input, nextHoursId);
        return false;
      }
      hours := hours + NewRows(stored.value, p, nextHoursId);
      assert hours == SavedHours(before, p, input, nextHoursId);
      nextHoursId := nextHoursId + |input|;
      saved := true;
    }

    /**
      generateVerificationCode, with the random code passed in: every
      booking for the phone gets the code, valid for ten minutes from now.
     */
    method GenerateVerificationCode(phone: string, code: string, now: int) returns (sent: string)
      requires Valid()
      modifies this`bookings
      ensures Valid()
      ensures sent == code
      ensures bookings == WithCode(old(bookings), phone, code, now + CodeLifetimeMs)
    {
      RekeyedKeepsOrder(bookings, WithCode(bookings, phone, code, now + CodeLifetimeMs), nextBookingId);
      bookings := WithCode(bookings, phone, code, now + CodeLifetimeMs);
      sent := code;
    }

    /**
      verifyPhoneCode: read the newest booking for the phone; if it holds
      this code and the code has not expired, mark every booking for the
      phone verified and clear its code. Nothing changes otherwise.
     */
    method VerifyPhoneCode(phone: string, code: string, now: int) returns (ok: bool)
      requires Valid()
      modifies this`bookings
      ensures Valid()
      ensures ok == CodeAccepted(old(bookings), phone, code, now)
      ensures bookings == if ok then MarkPhoneVerified(old(bookings), phone) else old(bookings)
    {
      var newest := NewestFor(bookings, phone);
      if newest.None? {
        return false;
      }
      var b := bookings[newest.value];
      if b.verificationCode == Some(code) && b.codeExpiresAt.Some? && b.codeExpiresAt.value > now {
        RekeyedKeepsOrder(bookings, MarkPhoneVerified(bookings, phone), nextBookingId);
        bookings := MarkPhoneVerified(bookings, phone);
        return true;
      }
      return false;
    }

    /** createBooking: the row is appended with the next id and returned. */
    method CreateBooking(data: Booking) returns (booking: Booking)
      requires Valid()
      modifies this`bookings, this`nextBookingId
      ensures Valid()
      ensures booking == data.(id := old(nextBookingId))
      ensures bookings == old(bookings) + [booking] && nextBookingId == old(nextBookingId) + 1
    {
      booking := data.(id := nextBookingId);
      bookings := bookings + [booking];
      nextBookingId := nextBookingId + 1;
    }

    /** updateBooking(id, { paymentStatus: 'paid', status: 'confirmed' }). */
    method UpdateBookingPaid(id: int)
      requires Valid()
      modifies this`bookings
      ensures Valid()
      ensures bookings == ConfirmPaid(old(bookings), id)
    {
      RekeyedKeepsOrder(bookings, ConfirmPaid(bookings, id), nextBookingId);
      bookings := ConfirmPaid(bookings, id);
    }
  }
}
